/** The driver's code (core/drivers/virtio/virtio_queue.c, virtio_blk.c) over its arrays, with the
    device taking turns between any two of its accesses to what they share. */
module VirtioBlk {
  import opened Arith
  import opened Bytes
  import opened Virtio
  import opened VirtioRuns

  // ----- What the driver relies on while the device runs -----

  /** Every request in flight has been answered. */
  ghost predicate Quiet(w: World) {
    forall id :: id in w.b.phase ==> w.b.phase[id].Used?
  }

  /** Request id is the only one not answered before, and memory and disk are ram and disk but for
      what its answer did to them. */
  ghost predicate Tracks(w: World, id: nat, ram: seq<byte>, disk: seq<byte>) {
    && id in w.b.requests && id in w.b.phase
    && (forall i :: i in w.b.phase && i != id ==> w.b.phase[i].Used?)
    && if w.b.phase[id].Used? then CarriedOut(w.b.requests[id], w.b.phase[id].outcome, ram, disk, w.ram, w.disk)
       else w.ram == ram && w.disk == disk
  }

  /** No unanswered request has its header at p. */
  ghost predicate Settled(w: World, p: nat) {
    forall id :: id in w.b.requests && w.b.requests[id].header == p ==> id in w.b.phase && w.b.phase[id].Used?
  }

  /** The same header blocks, but for their status bytes. */
  ghost predicate SameRequests(h: map<nat, Header>, h': map<nat, Header>) {
    h'.Keys == h.Keys && forall p :: p in h ==> h'[p].kind == h[p].kind && h'[p].sector == h[p].sector
  }

  /** Answers stay, and as long as nothing is left to answer, so do memory and disk. */
  ghost predicate Undisturbed(w: World, w': World) {
    && w.b.phase.Keys <= w'.b.phase.Keys
    && (forall id :: id in w.b.phase && w.b.phase[id].Used? ==> w'.b.phase[id] == w.b.phase[id])
    && (Quiet(w) ==> w'.ram == w.ram && w'.disk == w.disk)
  }

  ghost predicate Rely(w: World, w': World) {
    && w'.q == w.q.(usedIdx := w'.q.usedIdx, usedRing := w'.q.usedRing)
    && w'.b == w.b.(phase := w'.b.phase, fetched := w'.b.fetched, holder := w'.b.holder, order := w'.b.order)
    && w.b.order <= w'.b.order && w'.b.phase.Keys == w.b.phase.Keys
    && SameRequests(w.headers, w'.headers) && |w'.ram| == |w.ram| && |w'.disk| == |w.disk|
    && (forall id :: id in w.b.phase && w.b.phase[id].Used? ==> w'.b.phase[id] == w.b.phase[id])
    && (Quiet(w) ==> w'.ram == w.ram && w'.disk == w.disk)
    && (forall p :: p in w.headers && Settled(w, p) ==> w'.headers[p] == w.headers[p])
    && (forall id, ram, disk :: Tracks(w, id, ram, disk) ==> Tracks(w', id, ram, disk))
  }

  lemma RelyStutters(w: World)
    ensures Rely(w, w)
  {
  }

  lemma RelyTransitive(w: World, v: World, u: World)
    requires Rely(w, v) && Rely(v, u)
    ensures Rely(w, u)
  {
    hide Tracks;
  }

  lemma FetchRely(w: World)
    requires Inv(w) && w.b.fetched < w.b.published
    ensures 0 < w.q.size == |w.q.availRing| && w.b.fetched in w.b.phase && Rely(w, Fetch(w))
  {
    hide Places, FreeList, Chains, HeldChains, UsedRing, CarriedOut;
  }

  lemma AnswerTracks(w: World, w': World, h: nat, outcome: Outcome, i: nat, ram: seq<byte>, disk: seq<byte>)
    requires Inv(w) && AnswerStep(w, w', h, outcome) && Tracks(w, i, ram, disk)
    ensures Tracks(w', i, ram, disk)
  {
    hide Inv, HasRoom, Readable, ReadChain, MayAnswer, CarriedOut;
    var id := AnswerPerforms(w, w', h, outcome);
  }

  lemma AnswerRely(w: World, w': World, h: nat, outcome: Outcome)
    requires Inv(w) && AnswerStep(w, w', h, outcome)
    ensures Rely(w, w')
  {
    hide Inv, HasRoom, Readable, ReadChain, MayAnswer, CarriedOut, Tracks;
    var id := AnswerPerforms(w, w', h, outcome);
    AnswerShape(w, h, outcome, w'.ram, w'.disk);
    forall i, ram, disk | Tracks(w, i, ram, disk) ensures Tracks(w', i, ram, disk) {
      AnswerTracks(w, w', h, outcome, i, ram, disk);
    }
    AnswerTarget(w, h);
    assert forall p :: Settled(w, p) ==> p != w.b.requests[id].header;
  }

  /** With n requests in flight the slot of one more, if there are descriptors for it, stays apart. A size
      that fits size / 3 chains always has room, and with none in flight every size has. */
  predicate HasRoom(size: nat, n: nat) {
    0 < size && Fits(size, if n < size / 3 then n + 1 else size / 3)
  }

  // ----- The code -----

  /** No descriptor is in the driver's hands. */
  ghost predicate NoneTaken(w: World) {
    forall d :: 0 <= d < |w.b.place| ==> !w.b.place[d].Taken?
  }

  /** One block device: the driver's queue over its arrays, the header blocks, the device's own
      counters, and the memory and the disk between which it transfers. */
  class VirtioBlk {
    const size: nat
    var seenUsed: nat
    var freeHead: nat
    const desc: array<Desc>
    var availIdx: nat
    const availRing: array<nat>
    var usedIdx: nat
    const usedRing: array<UsedElem>
    var lastAvail: nat
    var held: set<nat>
    var headers: map<nat, Header>
    const ram: array<byte>
    const disk: array<byte>
    /** What `core_calloc` answers to the requests for a header block, one after the other: 0, or an address. */
    const blocks: nat -> nat
    var asked: nat
    ghost var b: Books

    ghost function State(): World
      reads this, desc, availRing, usedRing, ram, disk
    {
      World(Queue(size, seenUsed, freeHead, desc[..], availIdx, availRing[..], usedIdx, usedRing[..]),
                  Device(lastAvail, held), headers, ram[..], disk[..], b)
    }

    ghost predicate Valid()
      reads this, desc, availRing, usedRing, ram, disk
    {
      ram != disk && Inv(State()) && |b.place| == size == desc.Length == availRing.Length == usedRing.Length
    }

    /** `init_virtio_blk_queue` for a size it accepts. The parts are zeroed blocks; the loop threads the
        free list through them. */
    constructor (queueSize: nat, blocks: nat -> nat, ram: array<byte>, disk: array<byte>)
      requires 0 < queueSize < INVALID && ram != disk
      ensures Idle() && size == queueSize && this.ram == ram && this.disk == disk && headers == map[]
      ensures this.blocks == blocks && Past() == History(0, [])
      ensures fresh(desc) && fresh(availRing) && fresh(usedRing)
      ensures b.free == seq(queueSize, i requires 0 <= i < queueSize => queueSize - 1 - i)
    {
      size := queueSize;
      desc := new Desc[queueSize](_ => Desc(0, 0, 0, 0));
      availRing := new nat[queueSize](_ => 0);
      usedRing := new UsedElem[queueSize](_ => UsedElem(0, 0));
      availIdx, usedIdx, lastAvail, held, headers := 0, 0, 0, {}, map[];
      this.ram, this.disk, this.blocks, asked := ram, disk, blocks, 0;
      seenUsed, freeHead := 0, 0;
      b := Books(seq(queueSize, i requires 0 <= i < queueSize => Free(queueSize - 1 - i)),
                 seq(queueSize, i requires 0 <= i < queueSize => queueSize - 1 - i),
                 map[], map[], 0, 0, map[], [], 0, []);
      new;
      hide Inv, HasRoom, NoneTaken;
      ThreadFreeList();
      FreshInv(State());
    }

    method ThreadFreeList()
      requires desc.Length > 0
      modifies desc
      ensures forall i :: 0 <= i < desc.Length ==> desc[i].next == if i == desc.Length - 1 then INVALID else i + 1
    {
      for i := 0 to desc.Length
        invariant forall j :: 0 <= j < i ==> desc[j].next == j + 1
      {
        desc[i] := desc[i].(next := i + 1);
      }
      desc[desc.Length - 1] := desc[desc.Length - 1].(next := INVALID);
    }

    /** `alloc_queue_desc`. */
    method AllocQueueDesc() returns (ok: bool, d: nat)
      requires Valid()
      modifies this`freeHead, this`b
      ensures Valid()
      ensures ok <==> old(b.free) != []
      ensures ok ==> d == old(freeHead) < size && old(State().b.place)[d].Free? && State() == Alloc(old(State()))
      ensures !ok ==> d == INVALID && State() == old(State())
    {
      hide Places, FreeList, Chains, AvailRing, HeldChains, UsedRing;
      HeadIsValid(State());
      if freeHead == INVALID {
        return false, INVALID;
      }
      AllocKeeps(State());
      ok, d := true, freeHead;
      ghost var w := State();
      freeHead := desc[freeHead].next;
      b := Alloc(w).b;
    }

    /** `free_queue_desc`, which ignores an invalid descriptor. */
    method FreeQueueDesc(d: nat)
      requires Valid() && (d < size ==> b.place[d] == Taken)
      modifies this`freeHead, this`b, desc
      ensures Valid()
      ensures State() == if d < size then Release(old(State()), d) else old(State())
    {
      hide Places, FreeList, Chains, AvailRing, HeldChains, UsedRing;
      if d == INVALID || d >= size {
        return;
      }
      ReleaseKeeps(State(), d);
      ghost var w := State();
      desc[d] := desc[d].(next := freeHead);
      freeHead := d;
      b := Release(w, d).b;
      assert State() == Release(w, d);
    }

    // ----- The device -----

    /** The device takes one step: it fetches the next chain, or answers one that it holds. */
    method DeviceStep()
      requires Valid() && Work(State()) > 0
      modifies this`lastAvail, this`held, this`headers, this`usedIdx, this`b, usedRing, ram, disk
      ensures Valid() && Rely(old(State()), State())
      ensures Work(State()) < old(Work(State()))
    {
      hide Inv, HasRoom, Rely;
      CountersTell(State());
      if
      case lastAvail != availIdx => DeviceFetch();
      case held != {} =>
        var h :| h in held;
        var status: byte := *;
        var len: nat := *;
        DeviceAnswer(h, status, len % U32);
    }

    /** The whole transfer of a chain whose sectors exist. */
    method DeviceCopy(ghost t: Transfer, kind: Kind, at: nat, data: nat, len: nat)
      requires ram != disk && t.kind == kind && t.sector * SECTOR == at && t.data == data && t.len == len
      requires data + len <= ram.Length && at + len <= disk.Length
      modifies ram, disk
      ensures ram[..] == NewRam(t, old(ram[..]), old(disk[..])) && disk[..] == NewDisk(t, old(ram[..]), old(disk[..]))
    {
      hide Overwrite;
      if kind.In? {
        forall i | 0 <= i < len { ram[data + i] := disk[at + i]; }
        Overwritten(old(ram[..]), data, old(disk[..])[at..at + len], ram[..]);
      } else {
        forall i | 0 <= i < len { disk[at + i] := ram[data + i]; }
        Overwritten(old(disk[..]), at, old(ram[..])[data..data + len], disk[..]);
      }
    }

    /** What an error may leave in the target. */
    method DeviceGarbage(ghost t: Transfer, kind: Kind, at: nat, data: nat, len: nat)
      requires ram != disk && t.kind == kind && t.sector * SECTOR == at && t.data == data && t.len == len
      requires data + len <= ram.Length
      modifies ram, disk
      ensures Confined(t, old(ram[..]), old(disk[..]), ram[..], disk[..])
    {
      var junk: seq<byte> := *;
      if kind.In? {
        forall i | 0 <= i < len && i < |junk| { ram[data + i] := junk[i]; }
      } else {
        forall i | 0 <= i < len && i < |junk| && at + i < disk.Length { disk[at + i] := junk[i]; }
      }
    }

    /** Status byte, used element, counter. */
    method DeviceReply(h: nat, header: nat, status: byte, e: UsedElem, ghost v: World)
      requires ram != disk && |v.b.place| == size == desc.Length == availRing.Length == usedRing.Length > 0
      requires header in headers && Inv(v)
      requires v == State().(
        q := State().q.(usedRing := usedRing[..][Slot(usedIdx, size) := e], usedIdx := (usedIdx + 1) % U16),
        dev := Device(lastAvail, held - {h}),
        headers := headers[header := headers[header].(status := status)], b := v.b)
      modifies this`held, this`headers, this`usedIdx, this`b, usedRing
      ensures Valid() && State() == v
    {
      hide Inv, HasRoom, Slot;
      headers := headers[header := headers[header].(status := status)];
      usedRing[Slot(usedIdx, size)] := e;
      usedIdx := (usedIdx + 1) % U16;
      held := held - {h};
      b := v.b;
      assert State() == v;
    }

    /** An answer to a chain held, read out of the shared memory. */
    method DeviceAnswer(h: nat, wanted: byte, len: nat)
      requires Valid() && h in held && len < U32
      modifies this`held, this`headers, this`usedIdx, this`b, usedRing, ram, disk
      ensures Valid() && Rely(old(State()), State())
      ensures Work(State()) < old(Work(State()))
    {
      hide Inv, HasRoom, Slot, Rely, Readable, ReadChain, MayAnswer, NewRam, NewDisk, Confined;
      ghost var w := State();
      AnswerTarget(w, h);
      DataInRange(w, b.holder[h]);
      ReadChainParts(w, h);
      var first := desc[h];
      var data := desc[first.next];
      var header := desc[data.next].addr - HEADER_SIZE;
      var kind, at := headers[first.addr].kind, headers[first.addr].sector * SECTOR;
      var status: byte := if at + data.len <= disk.Length || wanted != S_OK then wanted else 1;
      ghost var t := ReadChain(w.q, w.headers, h);
      if status == S_OK {
        DeviceCopy(t, kind, at, data.addr, data.len);
      } else {
        DeviceGarbage(t, kind, at, data.addr, data.len);
      }
      ghost var outcome := if status == S_OK then Done else Failed(status, len);
      AnswerAllowed(w, h, outcome, ram[..], disk[..]);
      var e := UsedElem(h,
        if status != S_OK then len else (if kind.In? then FOOTER_SIZE + data.len else FOOTER_SIZE) % U32);
      AnswerKeeps(w, h, outcome, ram[..], disk[..]);
      HeadIsValid(Answer(w, h, outcome, ram[..], disk[..]));
      DeviceReply(h, header, status, e, Answer(w, h, outcome, ram[..], disk[..]));
      AnswerRely(w, State(), h, outcome);
    }

    method DeviceFetch()
      requires Valid() && b.fetched < b.published
      modifies this`lastAvail, this`held, this`b
      ensures Valid() && Rely(old(State()), State())
      ensures Work(State()) < old(Work(State()))
    {
      hide Places, FreeList, Chains, AvailRing, HeldChains, UsedRing, Slot, Rely;
      FetchKeeps(State());
      FetchRely(State());
      FetchWorks(State());
      ghost var w := State();
      var h := availRing[Slot(lastAvail, size)];
      lastAvail := (lastAvail + 1) % U16;
      held := held + {h};
      b := Fetch(w).b;
      assert State() == Fetch(w);
    }

    /** Any number of steps of the device, between two accesses of the driver. */
    method DeviceTurns()
      requires Valid()
      modifies this`lastAvail, this`held, this`headers, this`usedIdx, this`b, usedRing, ram, disk
      ensures Valid() && Rely(old(State()), State())
    {
      hide Inv, HasRoom, Rely;
      var n: nat := *;
      RelyStutters(State());
      while n > 0 && (held != {} || lastAvail != availIdx)
        invariant Valid() && Rely(old(State()), State())
      {
        ghost var w := State();
        WorkToDo(w);
        DeviceStep();
        RelyTransitive(old(State()), w, State());
        n := n - 1;
      }
    }

    // ----- A request -----

    /** The request block that `core_calloc` has given, or none. */
    method NewHeaderBlock(kind: Kind, sector: nat, block: nat)
      requires Valid() && (block == 0 || block !in headers)
      modifies this`headers
      ensures Valid()
      ensures State() == if block == 0 then old(State()) else NewHeader(old(State()), block, Header(kind, sector, 0))
      ensures block != 0 ==> block in headers && headers[block] == Header(kind, sector, 0)
    {
      hide Inv, HasRoom;
      if block != 0 {
        NewHeaderKeeps(State(), block, Header(kind, sector, 0));
        headers := headers[block := Header(kind, sector, 0)];
      }
    }

    /** One allocation of a request, with the device's turns after it. */
    method AllocOne(ghost w: World, ghost taken: set<nat>) returns (ok: bool, d: nat)
      requires Valid() && Moved(w, State(), taken)
      modifies this`freeHead, this`lastAvail, this`held, this`headers, this`usedIdx, this`b, usedRing, ram, disk
      ensures Valid() && Moved(w, State(), if ok then taken + {d} else taken)
      ensures if ok then d < size && d !in taken else d == INVALID
      ensures (ok <==> old(b.free) != []) && |b.free| == |old(b.free)| - if ok then 1 else 0
    {
      hide Inv, HasRoom, Moved, Rely, Alloc;
      ghost var v := State();
      HeadIsValid(v);
      ok, d := AllocQueueDesc();
      if ok { AllocMoved(w, v, taken); }
      ghost var u := State();
      DeviceTurns();
      RelyKeepsQueue(u, State());
      RelyMoved(w, u, State(), if ok then taken + {d} else taken);
    }

    /** The three allocations of a request; INVALID stands for the descriptors not got. */
    method AllocThree(ghost w: World) returns (ok: bool, d0: nat, d1: nat, d2: nat, ghost taken: set<nat>)
      requires Valid() && Moved(w, State(), {}) && size < INVALID
      modifies this`freeHead, this`lastAvail, this`held, this`headers, this`usedIdx, this`b, usedRing, ram, disk
      ensures Valid() && Moved(w, State(), taken)
      ensures ok <==> |old(b.free)| >= 3
      ensures ok ==> taken == {d0, d1, d2} && d2 < size
      ensures forall d :: d in taken <==> d < size && d in {d0, d1, d2}
      ensures (d0 < size ==> d0 != d1 && d0 != d2) && (d1 < size ==> d1 != d2)
    {
      hide Inv, HasRoom, Moved;
      taken := {};
      d1, d2 := INVALID, INVALID;
      ok, d0 := AllocOne(w, taken);
      if ok {
        taken := taken + {d0};
        ok, d1 := AllocOne(w, taken);
      }
      if ok {
        taken := taken + {d1};
        ok, d2 := AllocOne(w, taken);
      }
      if ok {
        taken := taken + {d2};
      }
    }

    /** One store to a descriptor in the driver's hands, with the device's turns after it. */
    method StoreDesc(d: nat, x: Desc, ghost w: World, ghost taken: set<nat>)
      requires Valid() && Moved(w, State(), taken) && d in taken
      modifies this`lastAvail, this`held, this`headers, this`usedIdx, this`b, desc, usedRing, ram, disk
      ensures Valid() && Moved(w, State(), taken)
      ensures desc[..] == old(desc[..][d := x])
    {
      hide Inv, HasRoom, Rely;
      ghost var v := State();
      WriteDescKeeps(v, d, x);
      desc[d] := x;
      assert State() == WriteDesc(v, d, x);
      assert Moved(w, State(), taken);
      hide Moved;
      ghost var u := State();
      DeviceTurns();
      RelyMoved(w, u, State(), taken);
      RelyKeepsQueue(u, State());
    }

    /** The three descriptors of a request, written while the device takes turns. */
    method WriteChain(r: Request, ghost w: World)
      requires Valid() && Moved(w, State(), {r.d0, r.d1, r.d2}) && r.d0 != r.d1 && r.d0 != r.d2 && r.d1 != r.d2
      modifies this`lastAvail, this`held, this`headers, this`usedIdx, this`b, desc, usedRing, ram, disk
      ensures Valid() && Moved(w, State(), {r.d0, r.d1, r.d2}) && ChainWritten(State().q.desc, r)
    {
      hide Inv, HasRoom, Rely, Moved;
      MovedTaken(w, State(), {r.d0, r.d1, r.d2});
      StoreDesc(r.d0, Desc(r.header, HEADER_SIZE, F_NEXT, r.d1), w, {r.d0, r.d1, r.d2});
      var flags := F_NEXT;
      if r.kind.In? {
        flags := flags + F_WRITE;
      }
      StoreDesc(r.d1, Desc(r.data, r.len, flags, r.d2), w, {r.d0, r.d1, r.d2});
      StoreDesc(r.d2, Desc(r.header + HEADER_SIZE, FOOTER_SIZE, F_WRITE, desc[r.d2].next), w, {r.d0, r.d1, r.d2});
    }

    /** The store to the available ring, with the device's turns after it. */
    method StoreSlot(d: nat, ghost w: World, ghost taken: set<nat>)
      requires Valid() && Moved(w, State(), taken) && d in taken && |taken| == 3 && HasRoom(size, |w.b.requests|)
      modifies this`lastAvail, this`held, this`headers, this`usedIdx, this`b, availRing, usedRing, ram, disk
      ensures Valid() && Moved(w, State(), taken) && 0 < size && Fits(size, |State().b.requests| + 1)
      ensures availRing[Slot(State().b.published, size)] == d
    {
      hide Inv, HasRoom, Fits, Slot, Rely;
      ghost var v := State();
      ChainFits(w, v, taken);
      AvailCounter(v);
      WriteSlotKeeps(v, d);
      availRing[Slot(availIdx, size)] := d;
      assert State() == WriteSlot(v, d);
      assert Moved(w, State(), taken);
      hide Moved;
      ghost var u := State();
      DeviceTurns();
      RelyMoved(w, u, State(), taken);
      RelyKeepsQueue(u, State());
    }

    /** The chain goes into the available ring, and then the counter makes it visible. */
    method PublishChain(r: Request, ghost w: World)
      requires HasRoom(size, |w.b.requests|)
      requires Valid() && Moved(w, State(), {r.d0, r.d1, r.d2}) && r.d0 != r.d1 && r.d0 != r.d2 && r.d1 != r.d2
      requires ChainWritten(State().q.desc, r) && HeaderWritten(w.headers, r) && HeaderUnused(w, r.header)
      requires r.len < U32 && r.len % SECTOR == 0 && r.data + r.len <= ram.Length
      modifies this`lastAvail, this`held, this`headers, this`availIdx, this`usedIdx, this`b, availRing, usedRing, ram,
               disk
      ensures Valid() && Issued(w, State(), r)
    {
      hide Inv, HasRoom, Fits, Slot, Rely, Moved, Issued, ChainWritten, HeaderWritten, HeaderUnused, Prepared;
      ghost var taken := {r.d0, r.d1, r.d2};
      StoreSlot(r.d0, w, taken);
      ghost var t := State();
      IsPrepared(w, t, r);
      PreparedPlaces(t, r);
      PublishKeeps(t, r);
      availIdx := (availIdx + 1) % U16;
      b := Publish(t, r).b;
      assert State() == Publish(t, r);
      PublishIssued(w, t, r);
      ghost var x := State();
      DeviceTurns();
      RelyIssued(w, x, State(), r);
    }

    /** The cleanup of a request that failed: each descriptor got is given back, and the header block. */
    method UndoRequest(d0: nat, d1: nat, d2: nat, header: nat, ghost w: World, ghost taken: set<nat>)
      requires Valid() && Moved(w, State(), taken) && (header != 0 ==> HeaderUnused(w, header))
      requires forall d :: d in taken <==> d < size && d in {d0, d1, d2}
      requires (d0 < size ==> d0 != d1 && d0 != d2) && (d1 < size ==> d1 != d2)
      modifies this`freeHead, this`headers, this`b, desc
      ensures Valid()
      ensures Moved(w, State().(headers := w.headers), {})
      ensures headers.Keys == if header == 0 then w.headers.Keys else w.headers.Keys - {header}
      ensures forall p ::
        p in headers ==>
        p in w.headers && headers[p].kind == w.headers[p].kind && headers[p].sector == w.headers[p].sector
    {
      hide Inv, HasRoom, Moved;
      FreeTaken(d0, w, taken);
      FreeTaken(d1, w, taken - {d0});
      FreeTaken(d2, w, taken - {d0} - {d1});
      assert taken - {d0} - {d1} - {d2} == {};
      MovedHeaders(w, State(), {});
      if header != 0 {
        MovedUnused(w, State(), {}, header);
        DropHeaderKeeps(State(), header);
        headers := headers - {header};
      }
    }

    method FreeTaken(d: nat, ghost w: World, ghost taken: set<nat>)
      requires Valid() && Moved(w, State(), taken) && (d < size ==> d in taken)
      modifies this`freeHead, this`b, desc
      ensures Valid() && Moved(w, State(), taken - {d})
      ensures headers == old(headers)
    {
      hide Inv, HasRoom, Moved;
      MovedTaken(w, State(), taken);
      ghost var v := State();
      FreeQueueDesc(d);
      if d < size {
        ReleaseMoved(w, v, taken, d);
      } else {
        assert taken - {d} == taken;
      }
    }

    /** The part of a request after one of its allocations has failed. */
    method FailRequest(d0: nat, d1: nat, d2: nat, header: nat, ghost w0: World, ghost w: World, ghost taken: set<nat>,
        ghost kind: Kind, ghost sector: nat)
      requires Valid() && Moved(w, State(), taken) && Inv(w0) && NoneTaken(w0) && (header == 0 || header !in w0.headers)
      requires w == if header == 0 then w0 else NewHeader(w0, header, Header(kind, sector, 0))
      requires forall d :: d in taken <==> d < size && d in {d0, d1, d2}
      requires (d0 < size ==> d0 != d1 && d0 != d2) && (d1 < size ==> d1 != d2)
      modifies this`freeHead, this`headers, this`b, desc
      ensures Valid() && NoneTaken(State()) && Restored(w0, State())
    {
      hide Inv, Moved, Restored, NoneTaken, HeaderUnused, NewHeader;
      FreshHeader(w0, w, header, kind, sector);
      UndoRequest(d0, d1, d2, header, w, taken);
      RequestRestored(w0, w, State(), header, Header(kind, sector, 0));
    }

    /** The part of a request after its three allocations have succeeded. */
    method IssueRequest(r: Request, ghost w0: World, ghost w: World)
      requires Valid() && Moved(w, State(), {r.d0, r.d1, r.d2}) && r.d0 != r.d1 && r.d0 != r.d2 && r.d1 != r.d2
      requires r.len < U32 && r.len % SECTOR == 0 && r.data + r.len <= ram.Length
      requires Inv(w0) && NoneTaken(w0) && r.header != 0 && r.header !in w0.headers
      requires w == NewHeader(w0, r.header, Header(r.kind, r.sector, 0))
      requires HasRoom(size, |w0.b.requests|)
      modifies this`lastAvail, this`held, this`headers, this`availIdx, this`usedIdx, this`b, desc, availRing, usedRing,
               ram, disk
      ensures Valid() && NoneTaken(State()) && Started(w0, State(), r)
    {
      hide Inv, HasRoom, Moved, Issued, Started, NoneTaken, HeaderUnused, HeaderWritten, ChainWritten;
      FreshHeader(w0, w, r.header, r.kind, r.sector);
      FreshHeaderWritten(w, r);
      WriteChain(r, w);
      PublishChain(r, w);
      RequestStarted(w0, w, State(), r);
    }

    /** `request_virtio_blk`: a chain of three descriptors handed to the device, or everything taken
        given back. `block` is what `core_calloc` answers. The slot of one more request must not be one
        still unread as the counter wraps. */
    method RequestVirtioBlk(kind: Kind, sector: nat, data: nat, bytes: nat, block: nat)
      returns (ok: bool, ghost r: Request)
      requires block == 0 || block !in headers
      requires Valid() && NoneTaken(State()) && data + bytes % U32 <= ram.Length
      requires HasRoom(size, |b.requests|)
      modifies this`freeHead, this`lastAvail, this`held, this`headers, this`availIdx, this`usedIdx, this`b,
               desc, availRing, usedRing, ram, disk
      ensures Valid() && NoneTaken(State())
      ensures ok <==> bytes % SECTOR == 0 && block != 0 && |old(b.free)| >= 3
      ensures ok ==>
        r.header == block && r.kind == kind && r.sector == sector && r.data == data && r.len == bytes % U32
      ensures ok ==> r.header !in old(headers) && Started(old(State()), State(), r)
      ensures !ok ==> Restored(old(State()), State())
    {
      hide Inv, HasRoom, Moved, Restored, Started, HeaderUnused, NoneTaken, NewHeader;
      ghost var w0 := State();
      var d0, d1, d2, header := INVALID, INVALID, INVALID, 0;
      ok := bytes % SECTOR == 0;
      if ok {
        header := block;
        NewHeaderBlock(kind, sector, header);
        ok := header != 0;
      }
      ghost var w := State();
      ghost var taken: set<nat> := {};
      MovedStutters(w);
      HeadIsValid(w);
      if ok {
        ok, d0, d1, d2, taken := AllocThree(w);
      }
      r := Request(kind, sector, data, bytes % U32, header, d0, d1, d2);
      SectorsLeft(bytes);
      if ok {
        IssueRequest(Request(kind, sector, data, bytes % U32, header, d0, d1, d2), w0, w);
      } else {
        FailRequest(d0, d1, d2, header, w0, w, taken, kind, sector);
      }
    }

    // ----- A response -----

    /** `is_unseen_used_virtio_queue`. */
    method IsUnseenUsed() returns (unseen: bool)
      requires Valid()
      ensures unseen <==> b.popped < |b.order|
    {
      hide Inv, HasRoom;
      CountersTell(State());
      unseen := seenUsed != usedIdx;
    }

    /** `pop_used_virtio_queue`. */
    method PopUsed() returns (ok: bool, d: nat, len: nat)
      requires Valid()
      modifies this`seenUsed, this`b
      ensures Valid()
      ensures ok <==> old(b.popped) < |old(b.order)|
      ensures !ok ==> State() == old(State())
      ensures ok ==> Answering(old(State()), old(b.order[b.popped])) && State() == Pop(old(State()))
      ensures ok ==>
        Answered(UsedElem(d, len), headers, old(b.requests[b.order[b.popped]]), old(b.phase[b.order[b.popped]].outcome))
    {
      hide Inv, HasRoom, Answered;
      d, len := INVALID, 0;
      ok := IsUnseenUsed();
      if ok {
        ghost var w := State();
        PopKeeps(w);
        OldestAnswer(w);
        d := usedRing[Slot(seenUsed, size)].id % U16;
        len := usedRing[Slot(seenUsed, size)].len;
        seenUsed := (seenUsed + 1) % U16;
        b := Pop(w).b;
        assert State() == Pop(w);
      }
    }

    /** `validate_used_response`, for any status and any length. The length is a 32-bit number that wraps. */
    method ValidateUsedResponse(d: nat, len: nat, ghost r: Request) returns (ok: bool)
      requires ChainWritten(desc[..], r) && r.len < U32 && r.len % SECTOR == 0
      requires d == r.d0 && len < U32 && r.header in headers
      ensures ok <==> headers[r.header].status == S_OK && len == FOOTER_SIZE + if r.kind.In? then r.len else 0
    {
      if !HasNext(desc[d].flags) { return false; }
      var d1 := desc[d].next;
      if !HasNext(desc[d1].flags) { return false; }
      var d2 := desc[d1].next;
      if !HasWrite(desc[d2].flags) { return false; }
      if headers[desc[d2].addr - HEADER_SIZE].status != S_OK { return false; }
      var left := (len + U32 - desc[d2].len) % U32;
      if HasWrite(desc[d1].flags) {
        left := (left + U32 - desc[d1].len) % U32;
      }
      ok := left == 0;
    }

    /** `free_request`: the chain and the header block behind it. */
    method FreeRequest(d: nat, ghost r: Request, ghost base: World)
      requires Valid() && d == r.d0 && Moved(base, State(), {r.d0, r.d1, r.d2})
      requires ChainWritten(desc[..], r) && r.d0 != r.d1 && r.d0 != r.d2 && r.d1 != r.d2
      requires HeaderUnused(base, r.header) && r.header != 0
      modifies this`freeHead, this`headers, this`b, desc
      ensures Valid() && Moved(base, State().(headers := base.headers), {})
      ensures headers.Keys == base.headers.Keys - {r.header}
      ensures forall p ::
        p in headers ==>
        p in base.headers && headers[p].kind == base.headers[p].kind && headers[p].sector == base.headers[p].sector
    {
      hide Inv, HasRoom;
      var d1, d2 := INVALID, INVALID;
      if HasNext(desc[d].flags) {
        d1 := desc[d].next;
        if HasNext(desc[d1].flags) {
          d2 := desc[d1].next;
        }
      }
      hide Moved;
      MovedTaken(base, State(), {r.d0, r.d1, r.d2});
      UndoRequest(d, d1, d2, desc[d].addr, base, {r.d0, r.d1, r.d2});
    }

    /** The busy wait of `consume_response_virtio_blk`, with a device that does take steps. */
    method WaitForResponse()
      requires Valid() && b.requests != map[]
      modifies this`lastAvail, this`held, this`headers, this`usedIdx, this`b, usedRing, ram, disk
      ensures Valid() && Rely(old(State()), State()) && b.popped < |b.order|
    {
      hide Inv, HasRoom, Rely;
      RelyStutters(State());
      var unseen := IsUnseenUsed();
      while !unseen
        invariant Valid() && Rely(old(State()), State()) && b.requests != map[]
        invariant unseen <==> b.popped < |b.order|
        decreases Work(State())
      {
        ghost var w := State();
        CountersTell(w);
        SomethingToDo(w);
        DeviceStep();
        RelyTransitive(old(State()), w, State());
        RelyKeepsQueue(w, State());
        unseen := IsUnseenUsed();
      }
    }

    /** The check of a popped response, with the device's turns around it. */
    method CheckResponse(d: nat, len: nat, ghost base: World, ghost r: Request, ghost outcome: Outcome)
        returns (ok: bool)
      requires Valid() && Moved(base, State(), {r.d0, r.d1, r.d2}) && HeaderUnused(State(), r.header)
      requires ChainWritten(desc[..], r) && r.len < U32 && r.len % SECTOR == 0
      requires Answered(UsedElem(d, len), headers, r, outcome)
      modifies this`lastAvail, this`held, this`headers, this`usedIdx, this`b, usedRing, ram, disk
      ensures Valid() && Moved(base, State(), {r.d0, r.d1, r.d2}) && desc[..] == old(desc[..])
      ensures ok <==> outcome.Done?
    {
      hide Inv, HasRoom, Rely, Moved, Answered, ChainWritten, HeaderUnused;
      ghost var v := State();
      DeviceTurns();
      RelyMoved(base, v, State(), {r.d0, r.d1, r.d2});
      RelyKeepsQueue(v, State());
      RelyAnswered(v, State(), r, UsedElem(d, len), outcome);
      IsAnswered(UsedElem(d, len), headers, r, outcome);
      ok := ValidateUsedResponse(d, len, r);
      ghost var u := State();
      DeviceTurns();
      RelyMoved(base, u, State(), {r.d0, r.d1, r.d2});
      RelyKeepsQueue(u, State());
    }

    /** Pop, check and free, when an answer is there. */
    method HandleResponse() returns (ok: bool, ghost id: nat, ghost outcome: Outcome, ghost base: World)
      requires Valid() && b.popped < |b.order|
      modifies this`freeHead, this`seenUsed, this`lastAvail, this`held, this`headers, this`usedIdx, this`b, desc,
               usedRing, ram, disk
      ensures Valid() && Handled(old(State()), State(), id, outcome, base)
      ensures ok <==> outcome.Done?
    {
      hide Inv, HasRoom, Moved, Answered, ChainWritten, HeaderUnused, Pop, Borrowed;
      ghost var w := State();
      id := b.order[b.popped];
      OldestAnswer(w);
      outcome := b.phase[id].outcome;
      ghost var r := b.requests[id];
      PopFacts(w, id, r);
      var popped, d, len := PopUsed();
      base := Borrowed(State(), r);
      BorrowedMoved(w, State(), base, r);
      AnsweredHead(UsedElem(d, len), headers, r, outcome);
      ok := CheckResponse(d, len, base, r, outcome);
      FreeRequest(d, r, base);
    }

    /** `consume_response_virtio_blk`: the oldest answer is popped, checked, and everything it held is
        given back whatever it says. */
    method ConsumeResponse() returns (ok: bool, ghost id: nat, ghost outcome: Outcome)
      requires Valid() && NoneTaken(State()) && b.requests != map[]
      modifies this`freeHead, this`seenUsed, this`lastAvail, this`held, this`headers, this`usedIdx, this`b, desc,
               usedRing, ram, disk
      ensures Valid() && NoneTaken(State())
      ensures Finished(old(State()), State(), id, outcome)
      ensures ok <==> outcome.Done?
    {
      hide Inv, HasRoom, Rely, Handled, Finished, NoneTaken;
      ghost var w0 := State();
      WaitForResponse();
      ghost var w, base := State(), State();
      ok, id, outcome, base := HandleResponse();
      ResponseFinished(w0, w, base, State(), id, outcome);
    }

    // ----- The processor's own stores -----

    /** A stretch of stores to memory while nothing is in flight. */
    method CpuWrite(at: nat, what: seq<byte>)
      requires Idle() && at + |what| <= ram.Length
      modifies ram
      ensures Idle() && ram[..] == Overwrite(old(ram[..]), at, what) && disk[..] == old(disk[..])
    {
      hide Inv, HasRoom, NoneTaken, Overwrite;
      ghost var w := State();
      forall i | 0 <= i < |what| { ram[at + i] := what[i]; }
      Overwritten(w.ram, at, what, ram[..]);
      NewContents(w, ram[..]);
      assert State() == w.(ram := ram[..]);
    }

    // ----- One request at a time -----

    /** Nothing in flight, and the blocks to come are none that is in use. */
    ghost predicate Idle()
      reads this, desc, availRing, usedRing, ram, disk
    {
      Valid() && NoneTaken(State()) && b.requests == map[] && forall n :: blocks(n) == 0 || blocks(n) !in headers
    }

    /** How many header blocks have been asked for, and how the requests so far were answered. */
    ghost function Past(): History
      reads this
    {
      History(asked, b.outcomes)
    }

    /** Request and response, when nothing else is in flight. */
    method OneRequest(kind: Kind, sector: nat, data: nat, bytes: nat, block: nat)
      returns (ok: bool, ghost r: Request, ghost outcome: Outcome)
      requires block == 0 || block !in headers
      requires Idle() && data + bytes % U32 <= ram.Length
      modifies this, desc, availRing, usedRing, ram, disk
      ensures Idle() && headers.Keys == old(headers.Keys) && asked == old(asked)
      ensures var issued := bytes % SECTOR == 0 && block != 0 && size >= 3;
        && Replied(old(b.outcomes), b.outcomes, issued, ok)
        && if issued then
             && r.kind == kind && r.sector == sector && r.data == data && r.len == bytes % U32
             && (ok <==> outcome.Done?)
             && CarriedOut(r, outcome, old(ram[..]), old(disk[..]), ram[..], disk[..])
           else ram[..] == old(ram[..]) && disk[..] == old(disk[..])
    {
      hide Inv, HasRoom, NoneTaken, Started, Restored, Finished, CarriedOut;
      ghost var w0 := State();
      IdleQuiet(w0);
      OneFits(w0);
      AllFree(w0);
      outcome := Done;
      ok, r := RequestVirtioBlk(kind, sector, data, bytes, block);
      if !ok {
        RestoredData(w0, State());
        return;
      }
      ghost var w, id := State(), b.published - 1;
      StartedAlone(w0, w, r);
      ok, id, outcome := ConsumeResponse();
      FinishedAlone(w0, w, State(), r, id, outcome);
    }

    /** A request and the wait for its response, as the snapshot code makes them: a plain copy of
        sectors to or from memory. `len` is a 32-bit field, so that is all that is transferred. It
        succeeds exactly if it can be issued and the device answers that it is done. */
    method TransferSectors(kind: Kind, sector: nat, data: nat, bytes: nat) returns (ok: bool)
      requires Idle() && data + bytes % U32 <= ram.Length
      modifies this, desc, availRing, usedRing, ram, disk
      ensures Idle() && headers.Keys == old(headers.Keys)
      ensures var issued := bytes % SECTOR == 0 && blocks(old(asked)) != 0 && size >= 3;
        && Replied(old(b.outcomes), b.outcomes, issued, ok)
        && (!issued ==> ram[..] == old(ram[..]) && disk[..] == old(disk[..]))
      ensures asked == old(asked) + if bytes % SECTOR == 0 then 1 else 0
      ensures Later(old(Past()), Past())
      ensures ok <==> bytes % SECTOR == 0 && Served(size, blocks, old(Past()), Past())
      ensures ok ==> bytes % SECTOR == 0 && sector * SECTOR + bytes % U32 <= disk.Length
      ensures ok && kind.In? ==>
                && ram[..]
                   == Overwrite(old(ram[..]), data,
                   old(disk[..])[sector * SECTOR..sector * SECTOR + bytes % U32])
                && disk[..] == old(disk[..])
      ensures ok && kind.Out? ==>
                && disk[..] == Overwrite(old(disk[..]), sector * SECTOR, old(ram[..])[data..data + bytes % U32])
                && ram[..] == old(ram[..])
      ensures !ok ==>
                && SameOutside(old(ram[..]), ram[..], data, if kind.In? then bytes % U32 else 0)
                && SameOutside(old(disk[..]), disk[..], sector * SECTOR, if kind.Out? then bytes % U32 else 0)
    {
      hide Inv, HasRoom, NoneTaken, Overwrite, SameOutside, CarriedOut;
      ghost var r, outcome;
      var block := blocks(asked);
      ok, r, outcome := OneRequest(kind, sector, data, bytes, block);
      if bytes % SECTOR == 0 {
        asked := asked + 1;
      }
      if bytes % SECTOR == 0 && block != 0 && size >= 3 {
        SectorsCopied(r, outcome, old(ram[..]), old(disk[..]), ram[..], disk[..]);
      } else {
        SameSame(ram[..], data);
        SameSame(disk[..], sector * SECTOR);
      }
    }
  }

  lemma SameSame(s: seq<byte>, at: nat)
    ensures forall len: nat :: SameOutside(s, s, at, len)
  {
  }

  /** What has been asked of the allocator and of the device so far. */
  datatype History = History(asked: nat, outcomes: seq<Outcome>)

  ghost predicate Later(h: History, h': History) { h.asked <= h'.asked && h.outcomes <= h'.outcomes }

  /** Between the two the allocator had a block and the queue the descriptors for every request, and the
      device answered each that it was done. */
  ghost predicate Served(size: nat, blocks: nat -> nat, h: History, h': History) {
    && Later(h, h') && (h.asked < h'.asked ==> size >= 3)
    && (forall n :: h.asked <= n < h'.asked ==> blocks(n) != 0)
    && (forall i :: |h.outcomes| <= i < |h'.outcomes| ==> h'.outcomes[i].Done?)
  }

  lemma NothingAsked(size: nat, blocks: nat -> nat, h: History)
    ensures Later(h, h) && Served(size, blocks, h, h)
  {
  }

  lemma ServedThen(size: nat, blocks: nat -> nat, h: History, h1: History, h2: History)
    requires Later(h, h1) && Later(h1, h2)
    ensures Later(h, h2)
    ensures Served(size, blocks, h, h2) <==> Served(size, blocks, h, h1) && Served(size, blocks, h1, h2)
  {
    forall i | |h.outcomes| <= i < |h1.outcomes| ensures h1.outcomes[i] == h2.outcomes[i] {}
  }

  /** Nothing was issued, or one request, which succeeds when the device answers that it is done. */
  ghost predicate Replied(outcomes: seq<Outcome>, outcomes': seq<Outcome>, issued: bool, ok: bool) {
    if issued then
      |outcomes'| == |outcomes| + 1 && outcomes <= outcomes' && (ok <==> outcomes'[|outcomes|].Done?)
    else outcomes' == outcomes && !ok
  }

  /** With nothing in flight and nothing in hand every descriptor is in the free list. */
  lemma AllFree(w: World)
    requires Inv(w) && NoneTaken(w) && w.b.requests == map[]
    ensures |w.b.free| == w.q.size
  {
    hide FreeList, Chains, AvailRing, HeldChains, UsedRing;
    forall d: nat | d < w.q.size ensures d in w.b.free {
      assert w.b.place[d].Free?;
    }
    forall i, j | 0 <= i < j < |w.b.free| ensures w.b.free[i] != w.b.free[j] {
      assert w.b.place[w.b.free[i]] == Free(i) && w.b.place[w.b.free[j]] == Free(j);
    }
    hide Places;
    Covered(w.b.free, w.q.size);
    DistinctBelow(w.b.free, w.q.size);
  }

  lemma SectorsLeft(bytes: nat)
    ensures bytes % SECTOR == 0 ==> bytes % U32 % SECTOR == 0
  {
  }

  lemma NewContents(w: World, ram: seq<byte>)
    requires Inv(w) && |ram| == |w.ram|
    ensures Inv(w.(ram := ram)) && (NoneTaken(w) ==> NoneTaken(w.(ram := ram)))
  {
    hide Shape, Places, FreeList, Chains, AvailRing, HeldChains, UsedRing;
  }

  lemma IdleQuiet(w: World)
    requires Inv(w) && w.b.requests == map[]
    ensures Quiet(w)
  {
    PhaseKeys(w);
  }

  /** One request at a time is never too many, whatever the size. */
  lemma OneFits(w: World)
    requires Inv(w) && w.b.requests == map[]
    ensures HasRoom(w.q.size, |w.b.requests|)
  {
    hide Places, FreeList, Chains, AvailRing, HeldChains, UsedRing;
  }

  lemma RestoredData(w: World, v: World)
    requires Restored(w, v) && Quiet(w)
    ensures v.ram == w.ram && v.disk == w.disk && v.b.requests == w.b.requests && v.headers.Keys == w.headers.Keys
    ensures v.b.outcomes == w.b.outcomes
    ensures forall at, len :: SameOutside(w.ram, v.ram, at, len) && SameOutside(w.disk, v.disk, at, len)
  {
  }

  lemma StartedAlone(w0: World, w: World, r: Request)
    requires Started(w0, w, r) && w0.b.requests == map[] && Quiet(w0)
    ensures w.b.requests == map[w0.b.published := r] && Tracks(w, w0.b.published, w0.ram, w0.disk)
    ensures w.headers.Keys == w0.headers.Keys + {r.header}
  {
  }

  lemma FinishedAlone(w0: World, w: World, v: World, r: Request, id: nat, outcome: Outcome)
    requires Started(w0, w, r) && w.b.requests == map[w0.b.published := r] && Tracks(w, w0.b.published, w0.ram, w0.disk)
    requires Finished(w, v, id, outcome) && r.header !in w0.headers
    ensures v.b.requests == map[] && v.headers.Keys == w0.headers.Keys
    ensures v.b.outcomes == w0.b.outcomes + [outcome]
    ensures CarriedOut(r, outcome, w0.ram, w0.disk, v.ram, v.disk)
  {
    hide Tracks, CarriedOut;
    assert id == w0.b.published;
  }

  /** A request carried out, byte by byte. */
  lemma SectorsCopied(r: Request, outcome: Outcome, ram0: seq<byte>, disk0: seq<byte>, ram: seq<byte>, disk: seq<byte>)
    requires CarriedOut(r, outcome, ram0, disk0, ram, disk)
    ensures var at := r.sector * SECTOR;
      match outcome
      case Done =>
        && at + r.len <= |disk0| && |ram| == |ram0| && |disk| == |disk0|
        && (r.kind.In? ==> ram == Overwrite(ram0, r.data, disk0[at..at + r.len]) && disk == disk0)
        && (r.kind.Out? ==> disk == Overwrite(disk0, at, ram0[r.data..r.data + r.len]) && ram == ram0)
      case Failed(_, _) =>
        && SameOutside(ram0, ram, r.data, if r.kind.In? then r.len else 0)
        && SameOutside(disk0, disk, at, if r.kind.Out? then r.len else 0)
  {
    hide Overwrite, SameOutside;
  }

  /** World w with the chain of r counted as free: what is left once r has been given back. */
  ghost function Borrowed(w: World, r: Request): World
    requires r.d0 < |w.b.place| && r.d1 < |w.b.place| && r.d2 < |w.b.place|
  {
    w.(b := w.b.(place := w.b.place[r.d0 := Free(0)][r.d1 := Free(0)][r.d2 := Free(0)]))
  }

  /** Request id, the oldest answered, has left those in flight with its header block. */
  ghost predicate Finished(w: World, w': World, id: nat, outcome: Outcome) {
    && id in w.b.requests
    && w'.b.requests == w.b.requests - {id} && w'.b.phase.Keys == w.b.phase.Keys - {id}
    && w'.b.published == w.b.published && w'.b.popped == w.b.popped + 1
    && w'.b.outcomes == w.b.outcomes + [outcome]
    && w.b.order <= w'.b.order && w.b.popped < |w'.b.order| && w'.b.order[w.b.popped] == id
    && w'.headers.Keys == w.headers.Keys - {w.b.requests[id].header}
    && |w'.ram| == |w.ram| && |w'.disk| == |w.disk|
    && (forall i :: i in w'.b.phase && w.b.phase[i].Used? ==> w'.b.phase[i] == w.b.phase[i])
    && (forall ram, disk ::
         Tracks(w, id, ram, disk) ==> CarriedOut(w.b.requests[id], outcome, ram, disk, w'.ram, w'.disk))
  }

  /** World u is w after the oldest answer was popped and its chain and header block given back. */
  ghost predicate Handled(w: World, u: World, id: nat, outcome: Outcome, base: World) {
    && w.b.popped < |w.b.order| && id == w.b.order[w.b.popped]
    && Answering(w, id) && w.b.phase[id].outcome == outcome && w.b.phase.Keys == w.b.requests.Keys
    && base == Borrowed(Pop(w), w.b.requests[id]) && Moved(base, u.(headers := base.headers), {})
    && u.headers.Keys == base.headers.Keys - {w.b.requests[id].header}
  }

  lemma SomethingToDo(w: World)
    requires Inv(w) && w.b.requests != map[] && w.b.popped == |w.b.order|
    ensures Work(w) > 0
  {
    hide Places, FreeList, Chains, Answered, Slot;
    var id :| id in w.b.requests;
    assert !w.b.phase[id].Used?;
    if w.b.phase[id].Held? {
      assert w.b.requests[id].d0 in w.dev.held;
      assert |w.dev.held| > 0;
    }
  }

  /** What is known of the oldest answered request before it is popped. */
  lemma PopFacts(w: World, id: nat, r: Request)
    requires Inv(w) && id in w.b.requests && w.b.requests[id] == r
    ensures ChainWritten(w.q.desc, r) && r.len < U32 && r.len % SECTOR == 0 && r.header != 0
      && r.header in w.headers
    ensures r.d0 < w.q.size && r.d1 < w.q.size && r.d2 < w.q.size && r.d0 != r.d1 && r.d0 != r.d2 && r.d1 != r.d2
    ensures w.q.size == |w.q.desc| == |w.b.place| && w.q.size < INVALID
    ensures forall i :: i in w.b.requests && i != id ==> w.b.requests[i].header != r.header
    ensures w.b.phase.Keys == w.b.requests.Keys
  {
    PhaseKeys(w);
    hide FreeList, AvailRing, HeldChains, UsedRing, ChainWritten;
  }

  lemma BorrowedMoved(w: World, v: World, base: World, r: Request)
    requires w.b.popped < |w.b.order| && Answering(w, w.b.order[w.b.popped]) && v == Pop(w)
      && r == w.b.requests[w.b.order[w.b.popped]]
    requires w.q.size == |w.b.place| < INVALID && r.d0 != r.d1 && r.d0 != r.d2 && r.d1 != r.d2
    requires forall i :: i in w.b.requests && i != w.b.order[w.b.popped] ==> w.b.requests[i].header != r.header
    requires base == Borrowed(v, r)
    ensures Moved(base, v, {r.d0, r.d1, r.d2}) && HeaderUnused(base, r.header) && HeaderUnused(v, r.header)
    ensures v.q.desc == w.q.desc && v.headers == base.headers == w.headers
  {
  }

  lemma RelyAnswered(v: World, u: World, r: Request, e: UsedElem, outcome: Outcome)
    requires Rely(v, u) && Answered(e, v.headers, r, outcome) && HeaderUnused(v, r.header)
    ensures Answered(e, u.headers, r, outcome)
  {
    hide Tracks, Undisturbed;
    assert Settled(v, r.header);
  }

  lemma ResponseFinished(w0: World, w: World, base: World, u: World, id: nat, outcome: Outcome)
    requires NoneTaken(w0) && Rely(w0, w) && Handled(w, u, id, outcome, base)
    ensures Finished(w0, u, id, outcome) && NoneTaken(u)
  {
  }

  lemma FreshPlaces(size: nat, place: seq<Place>, free: seq<nat>)
    requires place == seq(size, i requires 0 <= i < size => Free(size - 1 - i))
    requires free == seq(size, i requires 0 <= i < size => size - 1 - i)
    ensures Places(size, place, free, map[])
  {
  }

  lemma FreshList(desc: seq<Desc>, free: seq<nat>)
    requires |desc| > 0 && free == seq(|desc|, i requires 0 <= i < |desc| => |desc| - 1 - i)
    requires forall i :: 0 <= i < |desc| ==> desc[i].next == if i == |desc| - 1 then INVALID else i + 1
    ensures FreeList(0, desc, free)
  {
  }

  lemma FreshRings(w: World)
    requires 0 < w.q.size == |w.q.availRing| == |w.q.usedRing|
    requires w.q.seenUsed == w.q.availIdx == w.q.usedIdx == w.dev.lastAvail == 0 && w.dev.held == {}
    requires w.b.requests == map[] && w.b.phase == map[] && w.b.holder == map[] && w.b.order == []
    requires w.b.published == w.b.fetched == w.b.popped == 0
    ensures Chains(w.q.desc, w.headers, |w.ram|, w.b.requests)
    ensures AvailRing(w.q.size, w.q.availIdx, w.q.availRing, w.dev.lastAvail, w.b.published, w.b.fetched, w.b.requests,
      w.b.phase)
    ensures HeldChains(w.dev.held, w.b.holder, w.b.requests, w.b.phase)
    ensures UsedRing(w.q.size, w.q.usedIdx, w.q.usedRing, w.q.seenUsed, w.b.popped, w.b.order, w.b.requests, w.b.phase,
      w.headers)
  {
  }

  lemma FreshInv(w: World)
    requires 0 < w.q.size < INVALID
    requires |w.q.desc| == |w.q.availRing| == |w.q.usedRing| == w.q.size
    requires w.q.seenUsed == w.q.availIdx == w.q.usedIdx == w.dev.lastAvail == w.q.freeHead == 0 && w.dev.held == {}
    requires forall i :: 0 <= i < w.q.size ==> w.q.desc[i].next == if i == w.q.size - 1 then INVALID else i + 1
    requires w.b.place == seq(w.q.size, i requires 0 <= i < w.q.size => Free(w.q.size - 1 - i))
    requires w.b.free == seq(w.q.size, i requires 0 <= i < w.q.size => w.q.size - 1 - i)
    requires w.b.requests == map[] && w.b.phase == map[] && w.b.holder == map[] && w.b.order == []
    requires w.b.published == w.b.fetched == w.b.popped == 0
    ensures Inv(w) && NoneTaken(w)
  {
    hide Places, FreeList, Chains, AvailRing, HeldChains, UsedRing;
    FreshPlaces(w.q.size, w.b.place, w.b.free);
    FreshList(w.q.desc, w.b.free);
    FreshRings(w);
  }

  // ----- What the size of the queue is good for -----

  /** The slot for the next chain is none of those the device has not read. */
  predicate SlotFree(fetched: nat, published: nat, size: nat)
    requires size > 0
  {
    forall i :: fetched <= i < published ==> Slot(i, size) != Slot(published, size)
  }

  /** Exactly when it is not: the counter has wrapped less than 65536 % size chains ago, and that many
      are unread. */
  lemma SlotFreeIff(fetched: nat, published: nat, size: nat)
    requires 0 < size < INVALID && fetched <= published < fetched + size
    ensures !SlotFree(fetched, published, size) <==> published % U16 < U16 % size <= published - fetched
  {
    if published % U16 < U16 % size <= published - fetched {
      TakenSlot(published - U16 % size, published, size);
    }
    forall i | fetched <= i < published
      ensures Slot(i, size) == Slot(published, size) ==> published % U16 < U16 % size == published - i
    {
      TakenSlot(i, published, size);
    }
  }

  /** Two counters less than a ring apart have the same slot just when the second has wrapped, and they
      are as far apart as what is left of the wrap after whole rounds. */
  lemma TakenSlot(i: nat, j: nat, size: nat)
    requires 0 < size < U16 && i < j < i + size
    ensures Slot(i, size) == Slot(j, size) <==> j % U16 < U16 % size == j - i
  {
    var a, b, d := i % U16, j % U16, j - i;
    if b == a + d {
      SlotsDiffer(a, b, size);
    } else {
      assert b == a + d - U16;
      WrappedSlots(a, d, U16, size);
    }
  }

  /** The driver's store to the available ring overwrites the head at the slot of chain i. */
  ghost predicate Overwrites(w: World, d: nat, i: nat)
    requires w.q.size == |w.q.availRing| > 0
  {
    WriteSlot(w, d).q.availRing[Slot(i, w.q.size)] != w.q.availRing[Slot(i, w.q.size)]
  }

  lemma OverwritesIff(w: World, d: nat, i: nat)
    requires Inv(w) && InHand(w, d) && w.b.fetched <= i < w.b.published
    ensures Overwrites(w, d, i) <==> Slot(i, w.q.size) == Slot(w.b.published, w.q.size)
  {
    hide Slot, Fits, Places, FreeList, Chains, HeldChains, UsedRing;
    AvailCounter(w);
    ChainMembers(w.q.size, w.b.place, w.b.free, w.b.requests, i);
    assert w.b.requests[i].d0 in Chain(w.b.requests[i]);
    assert w.q.availRing[Slot(i, w.q.size)] == w.b.requests[i].d0 != d;
  }

  /** In those worlds, and no others, the store overwrites the head of a chain the device has still to
      read. */
  lemma OverwritesUnread(w: World, d: nat)
    requires Inv(w) && InHand(w, d)
    ensures (exists i :: w.b.fetched <= i < w.b.published && Overwrites(w, d, i))
            <==> w.b.published % U16 < U16 % w.q.size <= w.b.published - w.b.fetched
  {
    hide Slot, Fits, Places, FreeList, Chains, AvailRing, HeldChains, UsedRing, Overwrites;
    ThreeEach(w.q.size, w.b.place, w.b.free, w.b.requests, {d});
    UnreadInFlight(w);
    SlotFreeIff(w.b.fetched, w.b.published, w.q.size);
    forall i | w.b.fetched <= i < w.b.published
      ensures Overwrites(w, d, i) <==> Slot(i, w.q.size) == Slot(w.b.published, w.q.size)
    {
      OverwritesIff(w, d, i);
    }
  }

  /** A queue has room for size / 3 chains. With that many in flight the slots stay apart, wherever the
      counters stand, exactly for the sizes that fit them. */
  lemma SizesThatServe(size: nat)
    requires 0 < size < INVALID
    ensures (forall fetched, published ::
              0 <= fetched <= published < fetched + size / 3 ==> SlotFree(fetched, published, size))
            <==> Fits(size, size / 3)
  {
    hide SlotFree;
    if Fits(size, size / 3) {
      forall fetched, published | 0 <= fetched <= published < fetched + size / 3
        ensures SlotFree(fetched, published, size)
      {
        SlotFreeIff(fetched, published, size);
      }
    } else {
      SlotFreeIff(U16 - U16 % size, U16, size);
    }
  }

  /** A queue of 15 descriptors after 65536 requests: the last is unread, and the driver holds the other
      descriptors. */
  ghost function FifteenWorld(): World {
    var chain := Request(Kind.In, 0, 0, 0, 4096, 0, 1, 2);
    var desc := seq(15, i => Desc(0, 0, 0, 0));
    var written := desc[0 := Desc(4096, HEADER_SIZE, F_NEXT, 1)][1 := Desc(0, 0, F_NEXT + F_WRITE, 2)]
                       [2 := Desc(4096 + HEADER_SIZE, FOOTER_SIZE, F_WRITE, 0)];
    World(Queue(15, 65535, INVALID, written, 0, seq(15, i => 0), 65535, seq(15, i => UsedElem(0, 0))),
          Device(65535, {}), map[4096 := Header(Kind.In, 0, 0)], [], [],
          Books(seq(15, i requires 0 <= i < 15 => if i < 3 then Chained(65535, i) else Taken), [],
                map[65535 := chain], map[65535 := Avail], 65536, 65535, map[], seq(65535, i => i), 65535, []))
  }

  lemma FifteenChained()
    ensures var w := FifteenWorld();
      && Shape(w.q.size, w.q.desc, w.q.availRing, w.q.usedRing) && Fits(w.q.size, |w.b.requests|)
      && Places(w.q.size, w.b.place, w.b.free, w.b.requests)
      && FreeList(w.q.freeHead, w.q.desc, w.b.free)
      && Chains(w.q.desc, w.headers, |w.ram|, w.b.requests)
  {
  }

  lemma FifteenRings()
    ensures var w := FifteenWorld();
      && AvailRing(w.q.size, w.q.availIdx, w.q.availRing, w.dev.lastAvail, w.b.published, w.b.fetched, w.b.requests,
           w.b.phase)
      && HeldChains(w.dev.held, w.b.holder, w.b.requests, w.b.phase)
      && UsedRing(w.q.size, w.q.usedIdx, w.q.usedRing, w.q.seenUsed, w.b.popped, w.b.order, w.b.requests, w.b.phase,
           w.headers)
  {
  }

  /** The code accepts 15 descriptors. Storing the head of chain number 65536 then overwrites that of chain
      number 65535, which the device has not read. */
  lemma FifteenOverwrites()
    ensures var w := FifteenWorld();
      && Inv(w) && InHand(w, 3) && w.b.fetched <= 65535 < w.b.published && Overwrites(w, 3, 65535)
      && !Fits(w.q.size, |w.b.requests| + 1)
  {
    hide Shape, Places, FreeList, Chains, AvailRing, HeldChains, UsedRing;
    FifteenChained();
    FifteenRings();
  }

  /** Nothing of a failed request is left: the same requests in flight, the same header blocks, the
      same descriptors free. */
  ghost predicate Restored(w: World, w': World) {
    && w'.b.requests == w.b.requests && w'.b.published == w.b.published && w'.b.popped == w.b.popped
    && w'.q.availIdx == w.q.availIdx && w'.q.seenUsed == w.q.seenUsed && w'.b.outcomes == w.b.outcomes
    && SameRequests(w.headers, w'.headers) && |w'.ram| == |w.ram| && |w'.disk| == |w.disk|
    && Undisturbed(w, w') && w'.b.phase.Keys == w.b.phase.Keys && w.b.order <= w'.b.order
    && |w'.b.place| == |w.b.place|
    && (forall d ::
         0 <= d < |w.b.place| ==>
         (w'.b.place[d].Free? <==> w.b.place[d].Free?) && (w'.b.place[d].Taken? <==> w.b.place[d].Taken?))
  }

  /** A request has joined those in flight, with one more header block. */
  ghost predicate Started(w: World, w': World, r: Request) {
    && w.b.published !in w.b.requests && w.b.published !in w.b.phase
    && w'.b.requests == w.b.requests[w.b.published := r] && w'.b.published == w.b.published + 1
    && w'.b.popped == w.b.popped && w'.b.outcomes == w.b.outcomes
    && w'.b.phase.Keys == w.b.phase.Keys + {w.b.published}
    && w.b.order <= w'.b.order && |w'.ram| == |w.ram| && |w'.disk| == |w.disk|
    && w'.headers.Keys == w.headers.Keys + {r.header}
    && (forall id :: id in w.b.phase && w.b.phase[id].Used? ==> w'.b.phase[id] == w.b.phase[id])
    && (Quiet(w) ==> Tracks(w', w.b.published, w.ram, w.disk))
  }

  lemma FreshHeader(w0: World, w: World, header: nat, kind: Kind, sector: nat)
    requires Inv(w0) && (header == 0 || header !in w0.headers)
    requires w == if header == 0 then w0 else NewHeader(w0, header, Header(kind, sector, 0))
    ensures HeaderUnused(w, header)
    ensures header != 0 ==> header in w.headers && w.headers[header] == Header(kind, sector, 0)
  {
    hide Places, FreeList, AvailRing, HeldChains, UsedRing, ChainWritten;
  }

  lemma FreshHeaderWritten(w: World, r: Request)
    requires r.header != 0 && r.header in w.headers && w.headers[r.header] == Header(r.kind, r.sector, 0)
    ensures HeaderWritten(w.headers, r)
  {
  }

  lemma MovedHeaders(w: World, v: World, taken: set<nat>)
    requires Moved(w, v, taken)
    ensures SameRequests(w.headers, v.headers) && Moved(w, v.(headers := w.headers), taken)
  {
  }

  lemma MovedUnused(w: World, v: World, taken: set<nat>, header: nat)
    requires Moved(w, v, taken) && HeaderUnused(w, header)
    ensures HeaderUnused(v, header)
  {
  }

  lemma RequestStarted(w0: World, w: World, v: World, r: Request)
    requires Issued(w, v, r) && NoneTaken(w0)
    requires r.header != 0 && r.header !in w0.headers && w == NewHeader(w0, r.header, Header(r.kind, r.sector, 0))
    ensures Started(w0, v, r) && NoneTaken(v)
  {
    hide Tracks;
  }

  lemma RequestRestored(w0: World, w: World, v: World, header: nat, h: Header)
    requires header == 0 || header !in w0.headers
    requires w == if header == 0 then w0 else NewHeader(w0, header, h)
    requires Moved(w, v.(headers := w.headers), {}) && NoneTaken(w0)
    requires v.headers.Keys == if header == 0 then w.headers.Keys else w.headers.Keys - {header}
    requires forall p ::
      p in v.headers ==>
      p in w.headers && v.headers[p].kind == w.headers[p].kind && v.headers[p].sector == w.headers[p].sector
    ensures Restored(w0, v) && NoneTaken(v)
  {
  }

  /** The slot at the driver's counter holds the oldest answer. */
  lemma OldestAnswer(w: World)
    requires Inv(w) && w.b.popped < |w.b.order|
    ensures var id := w.b.order[w.b.popped];
      && Slot(w.q.seenUsed, w.q.size) < |w.q.usedRing|
      && id in w.b.requests && id in w.b.phase && w.b.phase[id].Used?
      && Answered(w.q.usedRing[Slot(w.q.seenUsed, w.q.size)], w.headers, w.b.requests[id], w.b.phase[id].outcome)
      && w.q.usedRing[Slot(w.q.seenUsed, w.q.size)].id < U16
  {
    hide FreeList, Chains, AvailRing, HeldChains, Answered;
    CounterSlot(w.q.size, w.b.popped);
    hide Slot;
    var id := w.b.order[w.b.popped];
    assert w.b.requests[id].d0 < w.q.size;
    AnsweredHead(w.q.usedRing[Slot(w.b.popped, w.q.size)], w.headers, w.b.requests[id], w.b.phase[id].outcome);
  }

  lemma IsAnswered(e: UsedElem, headers: map<nat, Header>, r: Request, outcome: Outcome)
    requires Answered(e, headers, r, outcome)
    ensures e.id == r.d0 && e.len < U32 && r.header in headers
    ensures outcome.Done? <==>
      headers[r.header].status == S_OK && e.len == FOOTER_SIZE + if r.kind.In? then r.len else 0
  {
  }

  lemma AnsweredHead(e: UsedElem, headers: map<nat, Header>, r: Request, outcome: Outcome)
    requires Answered(e, headers, r, outcome)
    ensures e.id == r.d0
  {
  }

  lemma MovedTaken(w: World, v: World, taken: set<nat>)
    requires Moved(w, v, taken)
    ensures forall d :: d in taken ==> d < v.q.size == |v.b.place| && v.b.place[d] == Taken
  {
  }

  /** Request r has joined those in flight, with descriptors that were free. */
  ghost predicate Issued(w: World, w': World, r: Request) {
    && w.b.published !in w.b.requests && w.b.published !in w.b.phase
    && w'.b.requests == w.b.requests[w.b.published := r] && w'.b.published == w.b.published + 1
    && w'.b.popped == w.b.popped && w'.b.outcomes == w.b.outcomes
    && w'.b.phase.Keys == w.b.phase.Keys + {w.b.published}
    && w.b.order <= w'.b.order && |w'.ram| == |w.ram| && |w'.disk| == |w.disk|
    && w'.q.size == w.q.size == |w.b.place| == |w'.b.place|
    && SameRequests(w.headers, w'.headers)
    && (forall id :: id in w.b.phase && w.b.phase[id].Used? ==> w'.b.phase[id] == w.b.phase[id])
    && (NoneTaken(w) ==> NoneTaken(w'))
    && (Quiet(w) ==> Tracks(w', w.b.published, w.ram, w.disk))
  }

  lemma RoomFits(size: nat, n: nat)
    requires HasRoom(size, n) && 3 * n + 3 <= size
    ensures Fits(size, n + 1)
  {
  }

  /** With the descriptors of a chain in hand there are less than size / 3 in flight. */
  lemma ChainFits(w: World, v: World, taken: set<nat>)
    requires Inv(v) && Moved(w, v, taken) && |taken| == 3 && HasRoom(v.q.size, |w.b.requests|)
    ensures 0 < v.q.size && Fits(v.q.size, |v.b.requests| + 1)
  {
    hide Inv, Fits, HasRoom, Places, Moved;
    MovedTaken(w, v, taken);
    MovedRequests(w, v, taken);
    InPlaces(v);
    ThreeEach(v.q.size, v.b.place, v.b.free, v.b.requests, taken);
    RoomFits(v.q.size, |v.b.requests|);
  }

  lemma MovedRequests(w: World, v: World, taken: set<nat>)
    requires Moved(w, v, taken)
    ensures v.b.requests == w.b.requests
  {
  }

  lemma InPlaces(w: World)
    requires Inv(w)
    ensures Places(w.q.size, w.b.place, w.b.free, w.b.requests)
  {
  }

  lemma IsPrepared(w: World, t: World, r: Request)
    requires Inv(t) && Moved(w, t, {r.d0, r.d1, r.d2}) && r.d0 != r.d1 && r.d0 != r.d2 && r.d1 != r.d2
    requires ChainWritten(t.q.desc, r) && HeaderWritten(w.headers, r) && HeaderUnused(w, r.header)
    requires r.len < U32 && r.len % SECTOR == 0 && r.data + r.len <= |t.ram|
    requires |t.q.availRing| == t.q.size > 0 && t.q.availRing[Slot(t.b.published, t.q.size)] == r.d0
    requires Fits(t.q.size, |t.b.requests| + 1)
    ensures Prepared(t, r)
  {
    hide Inv, HasRoom, Slot, ChainWritten, Undisturbed;
  }

  lemma PublishPlaces(w: World, t: World, r: Request)
    requires Moved(w, t, {r.d0, r.d1, r.d2}) && Prepared(t, r) && NoneTaken(w)
    ensures NoneTaken(Publish(t, r))
  {
    hide Slot, ChainWritten, HeaderWritten, Undisturbed, SameRequests;
    var place := Publish(t, r).b.place;
    forall d | 0 <= d < |place| ensures !place[d].Taken? {
      if d !in {r.d0, r.d1, r.d2} {
        assert place[d] == t.b.place[d];
        assert !w.b.place[d].Taken?;
      }
    }
  }

  lemma PublishTracks(w: World, t: World, r: Request)
    requires Moved(w, t, {r.d0, r.d1, r.d2}) && Prepared(t, r) && Quiet(w)
    ensures Tracks(Publish(t, r), w.b.published, w.ram, w.disk)
  {
    hide Slot, ChainWritten, HeaderWritten, SameRequests, CarriedOut;
  }

  lemma PublishIssued(w: World, t: World, r: Request)
    requires Inv(t) && Moved(w, t, {r.d0, r.d1, r.d2}) && Prepared(t, r) && t.b.published !in t.b.requests
    ensures Issued(w, Publish(t, r), r)
  {
    hide Inv, HasRoom, Slot, ChainWritten, HeaderWritten, Tracks, NoneTaken, Quiet, Prepared, SameRequests;
    PhaseKeys(t);
    PreparedPlaces(t, r);
    if NoneTaken(w) { PublishPlaces(w, t, r); }
    if Quiet(w) { PublishTracks(w, t, r); }
  }

  lemma PreparedPlaces(t: World, r: Request)
    requires Prepared(t, r)
    ensures r.d0 < |t.b.place| && r.d1 < |t.b.place| && r.d2 < |t.b.place|
  {
  }

  lemma RelyIssued(w: World, v: World, u: World, r: Request)
    requires Issued(w, v, r) && Rely(v, u)
    ensures Issued(w, u, r)
  {
    hide Tracks;
  }

  /** What a stretch of driver code has done, while the device took turns: the descriptors of `taken`
      were free and are in the driver's hands. */
  ghost predicate Moved(w: World, w': World, taken: set<nat>) {
    && w'.q.size == w.q.size < INVALID && |w'.b.place| == |w.b.place| == w.q.size
    && w'.b.requests == w.b.requests && w'.b.published == w.b.published && w'.b.popped == w.b.popped
    && w'.q.availIdx == w.q.availIdx && w'.q.seenUsed == w.q.seenUsed && w'.b.outcomes == w.b.outcomes
    && w.b.order <= w'.b.order && w'.b.phase.Keys == w.b.phase.Keys
    && SameRequests(w.headers, w'.headers) && |w'.ram| == |w.ram| && |w'.disk| == |w.disk|
    && Undisturbed(w, w')
    && (forall d :: d in taken ==> d < w.q.size)
    && (forall d :: 0 <= d < w.q.size ==>
          if d in taken then w.b.place[d].Free? && w'.b.place[d] == Taken
          else w'.b.place[d] == w.b.place[d] || (w'.b.place[d].Free? && w.b.place[d].Free?))
  }

  lemma RelyKeepsQueue(w: World, w': World)
    requires Rely(w, w')
    ensures w'.q.desc == w.q.desc && w'.q.availRing == w.q.availRing && w'.q.freeHead == w.q.freeHead
      && w'.q.availIdx == w.q.availIdx
    ensures w'.b.place == w.b.place && w'.b.requests == w.b.requests && w'.b.published == w.b.published
    ensures w'.b.free == w.b.free
    ensures SameRequests(w.headers, w'.headers) && |w'.ram| == |w.ram|
  {
  }

  lemma MovedStutters(w: World)
    requires Inv(w)
    ensures Moved(w, w, {})
  {
    HeadIsValid(w);
  }

  lemma RelyMoved(w: World, v: World, u: World, taken: set<nat>)
    requires Moved(w, v, taken) && Rely(v, u)
    ensures Moved(w, u, taken)
  {
    hide Tracks;
  }

  lemma AllocMoved(w: World, v: World, taken: set<nat>)
    requires Moved(w, v, taken) && v.b.free != [] && v.q.freeHead < |v.q.desc| && v.q.freeHead < |v.b.place|
    requires v.b.place[v.q.freeHead].Free?
    ensures v.q.freeHead !in taken && Moved(w, Alloc(v), taken + {v.q.freeHead})
    ensures |Alloc(v).b.free| == |v.b.free| - 1
  {
  }

  lemma ReleaseMoved(w: World, v: World, taken: set<nat>, d: nat)
    requires Moved(w, v, taken) && d in taken && d < |v.q.desc|
    ensures Moved(w, Release(v, d), taken - {d})
  {
  }

  /** What is left for the device to do. */
  ghost function Work(w: World): int { 2 * (w.b.published - w.b.fetched) + |w.dev.held| }

  lemma WrappedEqual(i: nat, j: nat)
    requires i <= j < i + U16
    ensures i % U16 == j % U16 <==> i == j
  {
  }

  /** The wrapped counters tell whether there is something to read. */
  lemma CountersTell(w: World)
    requires Inv(w)
    ensures w.dev.lastAvail != w.q.availIdx <==> w.b.fetched < w.b.published
    ensures w.q.seenUsed != w.q.usedIdx <==> w.b.popped < |w.b.order|
    ensures w.b.fetched <= w.b.published && w.b.popped <= |w.b.order|
  {
    hide Inv, HasRoom;
    AvailBound(w);
    UsedBound(w);
    Counters(w);
    WrappedEqual(w.b.fetched, w.b.published);
    WrappedEqual(w.b.popped, |w.b.order|);
  }

  lemma AvailBound(w: World)
    requires Inv(w)
    ensures 0 <= w.b.published - w.b.fetched <= w.q.size
  {
    hide Places, FreeList, Chains, AvailRing, HeldChains, UsedRing, Slot, Fits;
    UnreadInFlight(w);
    ThreeEach(w.q.size, w.b.place, w.b.free, w.b.requests, {});
  }

  lemma UsedBound(w: World)
    requires Inv(w)
    ensures 0 <= |w.b.order| - w.b.popped <= w.q.size
  {
    hide Places, FreeList, Chains, AvailRing, HeldChains, UsedRing, Slot, Fits;
    AnsweredInFlight(w);
    ThreeEach(w.q.size, w.b.place, w.b.free, w.b.requests, {});
  }

  lemma DataInRange(w: World, id: nat)
    requires Inv(w) && id in w.b.requests
    ensures w.b.requests[id].data + w.b.requests[id].len <= |w.ram|
  {
    hide Places, FreeList, AvailRing, HeldChains, UsedRing, ChainWritten, HeaderWritten;
  }

  lemma ReadChainParts(w: World, h: nat)
    requires Readable(w.q, w.headers, h)
    ensures h < |w.q.desc| && w.q.desc[h].next < |w.q.desc| && w.q.desc[w.q.desc[h].next].next < |w.q.desc|
    ensures w.q.desc[h].addr in w.headers && w.q.desc[w.q.desc[w.q.desc[h].next].next].addr >= HEADER_SIZE
    ensures var d := w.q.desc[w.q.desc[h].next];
      ReadChain(w.q, w.headers, h) ==
        Transfer(w.headers[w.q.desc[h].addr].kind, w.headers[w.q.desc[h].addr].sector, d.addr, d.len,
          w.q.desc[d.next].addr)
  {
  }

  lemma AnswerAllowed(w: World, h: nat, outcome: Outcome, ram: seq<byte>, disk: seq<byte>)
    requires h in w.dev.held && Readable(w.q, w.headers, h)
    requires var t := ReadChain(w.q, w.headers, h);
      && t.data + t.len <= |w.ram|
      && match outcome
         case Done => OnDisk(t, w.disk) && ram == NewRam(t, w.ram, w.disk) && disk == NewDisk(t, w.ram, w.disk)
         case Failed(status, len) => status != S_OK && len < U32 && Confined(t, w.ram, w.disk, ram, disk)
    ensures MayAnswer(w, h, outcome, ram, disk)
  {
  }

  lemma FetchWorks(w: World)
    requires Inv(w) && w.b.fetched < w.b.published && 0 < w.q.size == |w.q.availRing| && w.b.fetched in w.b.phase
    ensures Work(Fetch(w)) < Work(w)
  {
    hide Inv, HasRoom, Slot;
  }

  lemma HeadIsValid(w: World)
    requires Inv(w)
    ensures w.q.size < INVALID && |w.b.place| == w.q.size == |w.q.desc|
    ensures w.q.freeHead == INVALID <==> w.b.free == []
    ensures w.b.free != [] ==> w.q.freeHead < w.q.size
  {
    hide Chains, AvailRing, HeldChains, UsedRing;
  }

  lemma WorkToDo(w: World)
    requires Inv(w)
    ensures Work(w) > 0 <==> (w.dev.held != {} || w.dev.lastAvail != w.q.availIdx)
  {
    CountersTell(w);
    hide Inv, HasRoom;
  }
}
