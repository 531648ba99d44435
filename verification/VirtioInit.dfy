/** `init_virtio_blk_queue` (core/drivers/virtio/virtio_queue.c): the parts of the queue come from the block
    allocator, whose largest blocks bound the size of a queue. */
module VirtioInit {
  import opened Arith
  import opened Bytes
  import opened Virtio
  import opened VirtioBlk
  import Alloc

  const DESC_BYTES: nat := 16
  /** `flags` and `idx`, in front of both rings. */
  const RING_HEAD: nat := 4
  const AVAIL_ELEM: nat := 2
  const USED_ELEM: nat := 8

  /** The blocks of a queue, 0 where there is none. */
  datatype Parts = Parts(desc: nat, avail: nat, used: nat)

  function Sizes(size: nat): seq<nat> {
    [DESC_BYTES * size, RING_HEAD + AVAIL_ELEM * size, RING_HEAD + USED_ELEM * size]
  }

  /** The free lists have a block for each of the sizes, one after the other. */
  ghost predicate Serves(pools: seq<Alloc.Pool>, free: seq<seq<nat>>, sizes: seq<nat>)
    decreases sizes
  {
    sizes == [] ||
    (var k := Alloc.ClassFor(pools, sizes[0]);
     k < |pools| == |free| && free[k] != [] && Serves(pools, Alloc.Taken(pools, free, sizes[0]), sizes[1..]))
  }

  lemma ServesFirst(pools: seq<Alloc.Pool>, free: seq<seq<nat>>, sizes: seq<nat>)
    requires sizes != []
    ensures Serves(pools, free, sizes) <==>
      var k := Alloc.ClassFor(pools, sizes[0]);
      k < |pools| == |free| && free[k] != [] && Serves(pools, Alloc.Taken(pools, free, sizes[0]), sizes[1..])
  {
  }

  lemma ServesThree(pools: seq<Alloc.Pool>, free: seq<seq<nat>>, a: nat, b: nat, c: nat)
    ensures Serves(pools, free, [a, b, c]) <==>
      var j, k, l := Alloc.ClassFor(pools, a), Alloc.ClassFor(pools, b), Alloc.ClassFor(pools, c);
      && j < |pools| == |free| && free[j] != []
      && var free1 := Alloc.Taken(pools, free, a);
         && k < |pools| && free1[k] != []
         && var free2 := Alloc.Taken(pools, free1, b); l < |pools| && free2[l] != []
  {
    hide Serves;
    assert [a, b, c][1..] == [b, c] && [b, c][1..] == [c] && [c][1..] == [];
    ServesFirst(pools, free, [a, b, c]);
    ServesFirst(pools, Alloc.Taken(pools, free, a), [b, c]);
    ServesFirst(pools, Alloc.Taken(pools, Alloc.Taken(pools, free, a), b), [c]);
    ServesNone(pools, Alloc.Taken(pools, Alloc.Taken(pools, Alloc.Taken(pools, free, a), b), c));
  }

  lemma ServesNone(pools: seq<Alloc.Pool>, free: seq<seq<nat>>)
    ensures Serves(pools, free, [])
  {
  }

  /** The pointers lie in no buffer of the allocator. */
  ghost predicate Outside(pools: seq<Alloc.Pool>, parts: Parts) {
    && Alloc.Home(pools, parts.desc) == |pools| && Alloc.Home(pools, parts.avail) == |pools|
    && Alloc.Home(pools, parts.used) == |pools|
  }

  /** The pointer of a part lies in no buffer, or is a live block. */
  ghost predicate Releasable(heap: Alloc.Allocators, p: nat)
    reads heap, heap.mem
  {
    p in heap.live || Alloc.Home(heap.pools, p) == |heap.pools|
  }

  /** One `core_calloc` of the three. */
  method AllocPart(heap: Alloc.Allocators, count: nat, size: nat) returns (p: nat)
    requires heap.Valid() && count * size < U64
    modifies heap, heap.mem
    ensures heap.Valid() && |heap.free| == |heap.pools| == |old(heap.free)|
    ensures var k := Alloc.ClassFor(heap.pools, count * size);
      p != 0 <==> k < |heap.pools| && old(heap.free)[k] != []
    ensures heap.free == Alloc.Taken(heap.pools, old(heap.free), count * size)
    ensures p == 0 ==> heap.live == old(heap.live)
    ensures p != 0 ==> p !in old(heap.live) && heap.live == old(heap.live)[p := count * size]
    ensures Alloc.Home(heap.pools, p) == |heap.pools| ==> p !in heap.live
  {
    hide Alloc.Inv, Alloc.Home, Alloc.ClassFor, Alloc.Taken, Alloc.Apply, Overwrite;
    Alloc.InvShape(heap.pools, heap.State());
    p := heap.CoreCalloc(count, size);
    Alloc.InvShape(heap.pools, heap.State());
    Alloc.LiveAtHome(heap.pools, heap.State(), p);
  }

  /** What a failure does: every pointer is given back, with what the fields held where nothing was
      allocated. */
  method FreeParts(heap: Alloc.Allocators, parts: Parts)
    requires heap.Valid() && Releasable(heap, parts.desc) && Releasable(heap, parts.avail)
      && Releasable(heap, parts.used)
    requires parts.desc in heap.live ==> parts.desc != parts.avail && parts.desc != parts.used
    requires parts.avail in heap.live ==> parts.avail != parts.used
    modifies heap, heap.mem
    ensures heap.Valid() && heap.live == old(heap.live) - {parts.desc, parts.avail, parts.used}
  {
    hide Alloc.Inv, Alloc.Home, Alloc.Apply;
    heap.CoreFree(parts.desc);
    heap.CoreFree(parts.avail);
    heap.CoreFree(parts.used);
  }

  /** The three allocations, of which the first that fails is the last. */
  method AllocParts(heap: Alloc.Allocators, size: nat, stale: Parts) returns (ok: bool, parts: Parts)
    requires heap.Valid() && 0 < size < U16
    requires Outside(heap.pools, stale)
    modifies heap, heap.mem
    ensures heap.Valid() && (ok <==> Serves(heap.pools, old(heap.free), Sizes(size)))
    ensures Releasable(heap, parts.desc) && Releasable(heap, parts.avail) && Releasable(heap, parts.used)
    ensures parts.desc in heap.live ==> parts.desc != parts.avail && parts.desc != parts.used
    ensures parts.avail in heap.live ==> parts.avail != parts.used
    ensures heap.live - {parts.desc, parts.avail, parts.used} == old(heap.live)
    ensures ok ==> {parts.desc, parts.avail, parts.used} !! old(heap.live).Keys && Holds(heap, parts, size)
  {
    hide Alloc.Inv, Alloc.Home, Alloc.ClassFor, Alloc.Taken, Serves;
    parts, ok := stale, false;
    OutsideNotLive(heap, stale);
    ServesThree(heap.pools, heap.free, DESC_BYTES * size, RING_HEAD + AVAIL_ELEM * size, RING_HEAD + USED_ELEM * size);
    var p := AllocPart(heap, DESC_BYTES, size);
    parts := parts.(desc := p);
    OutsideNotLive(heap, stale);
    if p == 0 { return; }
    p := AllocPart(heap, RING_HEAD + AVAIL_ELEM * size, 1);
    parts := parts.(avail := p);
    OutsideNotLive(heap, stale);
    if p == 0 { return; }
    p := AllocPart(heap, RING_HEAD + USED_ELEM * size, 1);
    parts := parts.(used := p);
    OutsideNotLive(heap, stale);
    ok := p != 0;
  }

  /** Three different live blocks, of the sizes of a queue's parts. */
  ghost predicate Holds(heap: Alloc.Allocators, parts: Parts, size: nat)
    reads heap
  {
    && parts.desc != parts.avail && parts.desc != parts.used && parts.avail != parts.used
    && parts.desc in heap.live && parts.avail in heap.live && parts.used in heap.live
    && [heap.live[parts.desc], heap.live[parts.avail], heap.live[parts.used]] == Sizes(size)
  }

  /** `stale` is what the fields of the queue hold before, and `notifyOff` the offset that
      `init_queue_notify_off` asks for. It fails exactly for the two sizes refused, a block that is not to be
      had, or no offset; and then it has nothing left. */
  method InitVirtioBlkQueue(heap: Alloc.Allocators, queueSize: nat, notifyOff: nat, stale: Parts, blocks: nat -> nat,
      ram: array<byte>, disk: array<byte>)
    returns (dev: VirtioBlk?, parts: Parts)
    requires heap.Valid() && queueSize < U16 && ram != disk
    requires Outside(heap.pools, stale)
    modifies heap, heap.mem
    ensures heap.Valid()
    ensures dev == null <==>
      queueSize == 0 || queueSize == INVALID || notifyOff == 0
      || !Serves(heap.pools, old(heap.free), Sizes(queueSize))
    ensures dev == null ==> heap.live == old(heap.live)
    ensures dev != null ==>
      && fresh(dev) && dev.Idle() && dev.size == queueSize && dev.ram == ram && dev.disk == disk
      && dev.blocks == blocks
      && {parts.desc, parts.avail, parts.used} !! old(heap.live).Keys && Holds(heap, parts, queueSize)
      && heap.live - {parts.desc, parts.avail, parts.used} == old(heap.live)
  {
    hide Alloc.Inv, Alloc.Home, Serves, Sizes;
    dev, parts := null, stale;
    var ok := queueSize != INVALID && queueSize > 0;
    OutsideNotLive(heap, stale);
    if ok {
      ok, parts := AllocParts(heap, queueSize, stale);
    }
    if !ok || notifyOff == 0 {
      FreeParts(heap, parts);
      return;
    }
    dev := new VirtioBlk(queueSize, blocks, ram, disk);
  }

  lemma OutsideNotLive(heap: Alloc.Allocators, stale: Parts)
    requires heap.Valid() && Outside(heap.pools, stale)
    ensures Alloc.Home(heap.pools, 0) == |heap.pools| && 0 !in heap.live
    ensures stale.desc !in heap.live && stale.avail !in heap.live && stale.used !in heap.live
  {
    assert Alloc.Home(heap.pools, 0) == |heap.pools|;
    hide Alloc.Inv, Alloc.Home;
    Alloc.LiveAtHome(heap.pools, heap.State(), 0);
    Alloc.LiveAtHome(heap.pools, heap.State(), stale.desc);
    Alloc.LiveAtHome(heap.pools, heap.State(), stale.avail);
    Alloc.LiveAtHome(heap.pools, heap.State(), stale.used);
  }

  // ----- The queues that core can have -----

  /** With the pools of the program, just after `core_init_allocators`: queues of 1 to 512 descriptors, and
      no others, whatever size the device names. */
  lemma LargestQueue(bufs: seq<Alloc.Positive>, h: Alloc.Heap, size: nat)
    requires |bufs| == 5 && 0 < size < U16 && Alloc.Fresh(Alloc.ProgramPools(bufs), h)
    ensures Serves(Alloc.ProgramPools(bufs), h.free, Sizes(size)) <==> size <= 512
  {
    var pools := Alloc.ProgramPools(bufs);
    var a, b, c := DESC_BYTES * size, RING_HEAD + AVAIL_ELEM * size, RING_HEAD + USED_ELEM * size;
    ServesThree(pools, h.free, a, b, c);
    ProgramClass(bufs, a);
    ProgramClass(bufs, b);
    ProgramClass(bufs, c);
    ThreeBlocks(bufs, h);
    hide Serves, Alloc.ClassFor, Alloc.ProgramPools, Alloc.Full;
  }

  /** The largest blocks have 8192 bytes. */
  lemma ProgramClass(bufs: seq<Alloc.Positive>, size: nat)
    requires |bufs| == 5
    ensures Alloc.ClassFor(Alloc.ProgramPools(bufs), size) < 5 <==> size <= 8192
  {
    var pools := Alloc.ProgramPools(bufs);
    assert pools[4].blockSize == 8192;
    Alloc.ProgramBlocks(bufs);
  }

  lemma ThreeBlocks(bufs: seq<Alloc.Positive>, h: Alloc.Heap)
    requires |bufs| == 5 && Alloc.Fresh(Alloc.ProgramPools(bufs), h)
    ensures |h.free| == |Alloc.ProgramPools(bufs)| == 5
    ensures forall k :: 0 <= k < 5 ==> |h.free[k]| >= 3
  {
  }
}
