/** The split virtqueue of the block driver (core/drivers/virtio) with its device, as one world that
    both parties change in small steps. The descriptor table, the rings and the request headers are
    what the two share; `Books` says where every descriptor is.
    The device follows sections 2.7 and 5.2.6 of Virtio 1.2. */
module Virtio {
  import opened Arith
  import opened Bytes

  const INVALID: nat := 0xffff
  const HEADER_SIZE: nat := 16
  const FOOTER_SIZE: nat := 1
  const F_NEXT: nat := 1
  const F_WRITE: nat := 2
  const S_OK: byte := 0

  datatype Kind = In | Out

  datatype Desc = Desc(addr: nat, len: nat, flags: nat, next: nat)
  datatype UsedElem = UsedElem(id: nat, len: nat)
  /** A `virtio_blk_req` block. */
  datatype Header = Header(kind: Kind, sector: nat, status: byte)

  predicate HasNext(flags: nat) { flags % 2 == 1 }
  predicate HasWrite(flags: nat) { flags / 2 % 2 == 1 }

  /** The driver's queue, with the parts shared with the device. */
  datatype Queue = Queue(size: nat, seenUsed: nat, freeHead: nat, desc: seq<Desc>,
                         availIdx: nat, availRing: seq<nat>, usedIdx: nat, usedRing: seq<UsedElem>)

  /** The device's own state: how far it has read the available ring, and the chains it holds. */
  datatype Device = Device(lastAvail: nat, held: set<nat>)

  // ----- The bookkeeping -----

  /** What the device answered: everything transferred, or an error status. */
  datatype Outcome = Done | Failed(status: byte, len: nat)

  datatype Phase = Avail | Held | Used(at: nat, outcome: Outcome)

  /** A request in flight: what it asks for, its header block, and its chain d0 -> d1 -> d2. */
  datatype Request = Request(kind: Kind, sector: nat, data: nat, len: nat, header: nat, d0: nat, d1: nat, d2: nat)

  function Part(r: Request, k: nat): nat { if k == 0 then r.d0 else if k == 1 then r.d1 else r.d2 }

  /** Where a descriptor is: at a depth of the free list, in the driver's hands, or in a chain. */
  datatype Place = Free(depth: nat) | Taken | Chained(id: nat, k: nat)

  /** The counters of the rings never wrap here. `free` is the free list with its head last, `holder`
      gives the request behind each head the device holds, `order` the request numbers in the order of
      completion, and `outcomes` how the requests popped so far were answered. */
  datatype Books = Books(place: seq<Place>, free: seq<nat>, requests: map<nat, Request>, phase: map<nat, Phase>,
                         published: nat, fetched: nat, holder: map<nat, nat>, order: seq<nat>, popped: nat,
                         outcomes: seq<Outcome>)

  datatype World = World(q: Queue, dev: Device, headers: map<nat, Header>, ram: seq<byte>, disk: seq<byte>, b: Books)

  /** The ring slot of a counter, which wraps at 16 bits. */
  function Slot(i: nat, size: nat): (r: nat)
    requires size > 0
    ensures r < size
  {
    i % U16 % size
  }

  /** With n requests in flight the slots they take in a ring stay different as the counter wraps. The
      code accepts every size; a power of two, as section 2.7 demands, fits any number. */
  predicate Fits(size: nat, n: nat)
    requires size > 0
  {
    U16 % size == 0 || n <= U16 % size
  }

  // ----- The invariant, each part over just what it speaks of -----

  ghost predicate Shape(size: nat, desc: seq<Desc>, availRing: seq<nat>, usedRing: seq<UsedElem>) {
    0 < size < INVALID && |desc| == |availRing| == |usedRing| == size
  }

  /** Every descriptor is in exactly one place. */
  ghost predicate Places(size: nat, place: seq<Place>, free: seq<nat>, requests: map<nat, Request>) {
    && |place| == size
    && (forall i :: 0 <= i < |free| ==> free[i] < size && place[free[i]] == Free(i))
    && (forall id :: id in requests ==>
          var r := requests[id];
          && r.d0 < size && place[r.d0] == Chained(id, 0)
          && r.d1 < size && place[r.d1] == Chained(id, 1)
          && r.d2 < size && place[r.d2] == Chained(id, 2))
    && (forall d :: 0 <= d < size ==>
          match place[d]
          case Free(i) => i < |free| && free[i] == d
          case Taken => true
          case Chained(id, k) => id in requests && k < 3 && Part(requests[id], k) == d)
  }

  /** The free list is threaded through the `next` fields and ends in INVALID. */
  ghost predicate FreeList(freeHead: nat, desc: seq<Desc>, free: seq<nat>) {
    && freeHead == (if free == [] then INVALID else free[|free| - 1])
    && (forall i :: 0 <= i < |free| ==> free[i] < |desc|)
    && (free != [] ==> desc[free[0]].next == INVALID)
    && (forall i :: 0 < i < |free| ==> desc[free[i]].next == free[i - 1])
  }

  /** The three descriptors of a request, as the driver wrote them. */
  ghost predicate ChainWritten(desc: seq<Desc>, r: Request) {
    && r.d0 < |desc| && r.d1 < |desc| && r.d2 < |desc|
    && desc[r.d0] == Desc(r.header, HEADER_SIZE, F_NEXT, r.d1)
    && desc[r.d1] == Desc(r.data, r.len, if r.kind.In? then F_NEXT + F_WRITE else F_NEXT, r.d2)
    && desc[r.d2].addr == r.header + HEADER_SIZE && desc[r.d2].len == FOOTER_SIZE && desc[r.d2].flags == F_WRITE
  }

  ghost predicate HeaderWritten(headers: map<nat, Header>, r: Request) {
    r.header in headers && r.header != 0 && headers[r.header].kind == r.kind && headers[r.header].sector == r.sector
  }

  ghost predicate Chains(desc: seq<Desc>, headers: map<nat, Header>, ramSize: nat, requests: map<nat, Request>) {
    && (forall id :: id in requests ==>
          var r := requests[id];
          ChainWritten(desc, r) && HeaderWritten(headers, r) && r.len < U32 && r.len % SECTOR == 0
            && r.data + r.len <= ramSize)
    && (forall i, j :: i in requests && j in requests && requests[i].header == requests[j].header ==> i == j)
  }

  /** The available ring from the device's counter to the driver's holds the chains not yet fetched. */
  ghost predicate AvailRing(size: nat, availIdx: nat, availRing: seq<nat>, lastAvail: nat, published: nat, fetched: nat,
                            requests: map<nat, Request>, phase: map<nat, Phase>)
  {
    && 0 < size == |availRing|
    && availIdx == published % U16 && lastAvail == fetched % U16
    && fetched <= published
    && phase.Keys == requests.Keys
    && (forall i :: fetched <= i < published ==> i in requests && availRing[Slot(i, size)] == requests[i].d0)
    && (forall id :: id in requests ==> id < published && (phase[id].Avail? <==> fetched <= id))
  }

  /** The heads the device holds are those of the requests it has fetched and not answered. */
  ghost predicate HeldChains(held: set<nat>, holder: map<nat, nat>, requests: map<nat, Request>,
      phase: map<nat, Phase>)
  {
    && phase.Keys == requests.Keys && holder.Keys == held
    && (forall id :: id in requests && phase[id].Held? ==> requests[id].d0 in held && holder[requests[id].d0] == id)
    && (forall h :: h in held ==> holder[h] in requests && phase[holder[h]].Held? && requests[holder[h]].d0 == h)
  }

  /** The used element and the status byte say what the device answered. */
  ghost predicate Answered(e: UsedElem, headers: map<nat, Header>, r: Request, outcome: Outcome) {
    && e.id == r.d0 && e.len < U32 && r.header in headers
    && match outcome
       case Done => headers[r.header].status == S_OK && e.len == FOOTER_SIZE + if r.kind.In? then r.len else 0
       case Failed(status, len) => headers[r.header].status == status && status != S_OK && e.len == len
  }

  /** The used ring from the driver's counter to the device's holds the answers not yet popped. */
  ghost predicate UsedRing(size: nat, usedIdx: nat, usedRing: seq<UsedElem>, seenUsed: nat, popped: nat,
      order: seq<nat>,
                           requests: map<nat, Request>, phase: map<nat, Phase>, headers: map<nat, Header>)
  {
    && 0 < size == |usedRing|
    && usedIdx == |order| % U16 && seenUsed == popped % U16
    && popped <= |order|
    && phase.Keys == requests.Keys
    && (forall i :: popped <= i < |order| ==>
          && order[i] in requests
          && phase[order[i]].Used? && phase[order[i]].at == i
          && Answered(usedRing[Slot(i, size)], headers, requests[order[i]], phase[order[i]].outcome))
    && (forall id :: id in requests && phase[id].Used? ==>
          popped <= phase[id].at < |order| && order[phase[id].at] == id)
  }

  ghost predicate Inv(w: World) {
    && Shape(w.q.size, w.q.desc, w.q.availRing, w.q.usedRing) && Fits(w.q.size, |w.b.requests|)
    && Places(w.q.size, w.b.place, w.b.free, w.b.requests)
    && FreeList(w.q.freeHead, w.q.desc, w.b.free)
    && Chains(w.q.desc, w.headers, |w.ram|, w.b.requests)
    && AvailRing(w.q.size, w.q.availIdx, w.q.availRing, w.dev.lastAvail, w.b.published, w.b.fetched, w.b.requests,
       w.b.phase)
    && HeldChains(w.dev.held, w.b.holder, w.b.requests, w.b.phase)
    && UsedRing(w.q.size, w.q.usedIdx, w.q.usedRing, w.q.seenUsed, w.b.popped, w.b.order, w.b.requests, w.b.phase,
       w.headers)
  }

  // ----- Steps of the driver -----

  /** `alloc_queue_desc` when the free list is not empty. */
  ghost function Alloc(w: World): World
    requires w.q.freeHead < |w.q.desc| && w.b.free != [] && w.q.freeHead < |w.b.place|
  {
    var d := w.q.freeHead;
    w.(q := w.q.(freeHead := w.q.desc[d].next),
       b := w.b.(free := w.b.free[..|w.b.free| - 1], place := w.b.place[d := Taken]))
  }

  /** `free_queue_desc` of a valid descriptor. */
  ghost function Release(w: World, d: nat): World
    requires d < |w.q.desc| && d < |w.b.place|
  {
    w.(q := w.q.(desc := w.q.desc[d := w.q.desc[d].(next := w.q.freeHead)], freeHead := d),
       b := w.b.(free := w.b.free + [d], place := w.b.place[d := Free(|w.b.free|)]))
  }

  ghost function WriteDesc(w: World, d: nat, x: Desc): World
    requires d < |w.q.desc|
  {
    w.(q := w.q.(desc := w.q.desc[d := x]))
  }

  ghost function NewHeader(w: World, p: nat, h: Header): World {
    w.(headers := w.headers[p := h])
  }

  ghost function DropHeader(w: World, p: nat): World {
    w.(headers := w.headers - {p})
  }

  /** The head of a chain stored in the available ring, still invisible to the device. */
  ghost function WriteSlot(w: World, d: nat): World
    requires w.q.size == |w.q.availRing| > 0
  {
    w.(q := w.q.(availRing := w.q.availRing[Slot(w.q.availIdx, w.q.size) := d]))
  }

  /** The store to `avail->idx` that hands the chain to the device. */
  ghost function Publish(w: World, r: Request): World
    requires r.d0 < |w.b.place| && r.d1 < |w.b.place| && r.d2 < |w.b.place|
  {
    var id := w.b.published;
    w.(q := w.q.(availIdx := (w.q.availIdx + 1) % U16),
       b := w.b.(requests := w.b.requests[id := r], phase := w.b.phase[id := Avail], published := id + 1,
                 place := w.b.place[r.d0 := Chained(id, 0)][r.d1 := Chained(id, 1)][r.d2 := Chained(id, 2)]))
  }

  /** `pop_used_virtio_queue`: the chain of the oldest answer is the driver's again. */
  ghost function Pop(w: World): World
    requires w.b.popped < |w.b.order| && w.b.order[w.b.popped] in w.b.requests
    requires w.b.order[w.b.popped] in w.b.phase && w.b.phase[w.b.order[w.b.popped]].Used?
    requires var r := w.b.requests[w.b.order[w.b.popped]];
      r.d0 < |w.b.place| && r.d1 < |w.b.place| && r.d2 < |w.b.place|
  {
    var id := w.b.order[w.b.popped];
    var r := w.b.requests[id];
    w.(q := w.q.(seenUsed := (w.q.seenUsed + 1) % U16),
       b := w.b.(requests := w.b.requests - {id}, phase := w.b.phase - {id}, popped := w.b.popped + 1,
                 place := w.b.place[r.d0 := Taken][r.d1 := Taken][r.d2 := Taken],
                 outcomes := w.b.outcomes + [w.b.phase[id].outcome]))
  }

  // ----- The driver's steps keep the invariant -----

  lemma PopPlace(size: nat, place: seq<Place>, free: seq<nat>, requests: map<nat, Request>)
    requires Places(size, place, free, requests) && free != []
    ensures free[|free| - 1] < size
    ensures Places(size, place[free[|free| - 1] := Taken], free[..|free| - 1], requests)
  {
    var d, rest := free[|free| - 1], free[..|free| - 1];
    forall i | 0 <= i < |rest| ensures rest[i] != d && place[rest[i]] == Free(i) {
      assert rest[i] == free[i];
    }
  }

  lemma PushPlace(size: nat, place: seq<Place>, free: seq<nat>, requests: map<nat, Request>, d: nat)
    requires Places(size, place, free, requests) && d < size && place[d] == Taken
    ensures Places(size, place[d := Free(|free|)], free + [d], requests)
  {
    var more := free + [d];
    forall i | 0 <= i < |free| ensures more[i] != d && place[more[i]] == Free(i) {
      assert more[i] == free[i];
    }
  }

  lemma PopFree(freeHead: nat, desc: seq<Desc>, free: seq<nat>)
    requires FreeList(freeHead, desc, free) && free != []
    ensures freeHead == free[|free| - 1] < |desc| && FreeList(desc[freeHead].next, desc, free[..|free| - 1])
  {
    var rest := free[..|free| - 1];
    assert forall i :: 0 <= i < |rest| ==> rest[i] == free[i];
  }

  lemma PushFree(freeHead: nat, desc: seq<Desc>, free: seq<nat>, d: nat)
    requires FreeList(freeHead, desc, free) && d < |desc| && forall i :: 0 <= i < |free| ==> free[i] != d
    ensures FreeList(d, desc[d := desc[d].(next := freeHead)], free + [d])
  {
  }

  lemma WriteUsedDesc(freeHead: nat, desc: seq<Desc>, free: seq<nat>, d: nat, x: Desc)
    requires FreeList(freeHead, desc, free) && d < |desc| && forall i :: 0 <= i < |free| ==> free[i] != d
    ensures FreeList(freeHead, desc[d := x], free)
  {
  }

  /** A descriptor in the driver's hands is in no chain and not in the free list. */
  lemma UntouchedChains(size: nat, place: seq<Place>, free: seq<nat>, requests: map<nat, Request>, desc: seq<Desc>,
      headers: map<nat, Header>, ramSize: nat, d: nat, x: Desc)
    requires Places(size, place, free, requests) && Chains(desc, headers, ramSize, requests)
    requires d < size == |desc| && place[d] == Taken
    ensures Chains(desc[d := x], headers, ramSize, requests)
    ensures |place| == size && forall i :: 0 <= i < |free| ==> free[i] != d
  {
    forall id | id in requests ensures ChainWritten(desc[d := x], requests[id]) {
      assert ChainWritten(desc, requests[id]);
    }
  }

  lemma AllocKeeps(w: World)
    requires Inv(w) && w.b.free != []
    ensures w.q.freeHead < w.q.size && w.b.place[w.q.freeHead] == Free(|w.b.free| - 1)
    ensures Inv(Alloc(w))
  {
    hide Slot, Fits;
    assert w.b.place[w.b.free[|w.b.free| - 1]] == Free(|w.b.free| - 1) && |w.b.place| == w.q.size == |w.q.desc|;
    PopPlace(w.q.size, w.b.place, w.b.free, w.b.requests);
    PopFree(w.q.freeHead, w.q.desc, w.b.free);
    hide Shape, Places, FreeList, Chains, AvailRing, HeldChains, UsedRing;
  }

  lemma ReleaseKeeps(w: World, d: nat)
    requires Inv(w) && d < w.q.size && w.b.place[d] == Taken
    ensures Inv(Release(w, d))
  {
    hide Slot, Fits;
    assert |w.b.place| == |w.q.desc| == w.q.size;
    hide Places, FreeList, Chains, AvailRing, HeldChains, UsedRing;
    UntouchedChains(w.q.size, w.b.place, w.b.free, w.b.requests, w.q.desc, w.headers, |w.ram|, d,
      Release(w, d).q.desc[d]);
    PushPlace(w.q.size, w.b.place, w.b.free, w.b.requests, d);
    PushFree(w.q.freeHead, w.q.desc, w.b.free, d);
  }

  lemma WriteDescKeeps(w: World, d: nat, x: Desc)
    requires Inv(w) && d < w.q.size && w.b.place[d] == Taken
    ensures Inv(WriteDesc(w, d, x))
  {
    hide Slot, Fits, Places, FreeList, Chains, AvailRing, HeldChains, UsedRing;
    UntouchedChains(w.q.size, w.b.place, w.b.free, w.b.requests, w.q.desc, w.headers, |w.ram|, d, x);
    WriteUsedDesc(w.q.freeHead, w.q.desc, w.b.free, d, x);
  }

  lemma NewHeaderChains(desc: seq<Desc>, headers: map<nat, Header>, ramSize: nat, requests: map<nat, Request>, p: nat,
      h: Header)
    requires Chains(desc, headers, ramSize, requests) && p !in headers
    ensures Chains(desc, headers[p := h], ramSize, requests)
  {
    hide ChainWritten;
  }

  lemma NewHeaderUsed(w: World, p: nat, h: Header)
    requires UsedRing(w.q.size, w.q.usedIdx, w.q.usedRing, w.q.seenUsed, w.b.popped, w.b.order, w.b.requests,
      w.b.phase, w.headers)
    requires p !in w.headers
    ensures UsedRing(w.q.size, w.q.usedIdx, w.q.usedRing, w.q.seenUsed, w.b.popped, w.b.order, w.b.requests, w.b.phase,
      w.headers[p := h])
  {
    hide Slot;
  }

  lemma NewHeaderKeeps(w: World, p: nat, h: Header)
    requires Inv(w) && p !in w.headers
    ensures Inv(NewHeader(w, p, h))
  {
    hide Slot, Fits, Shape, Places, FreeList, Chains, AvailRing, HeldChains, UsedRing;
    NewHeaderChains(w.q.desc, w.headers, |w.ram|, w.b.requests, p, h);
    NewHeaderUsed(w, p, h);
  }

  lemma DropHeaderChains(desc: seq<Desc>, headers: map<nat, Header>, ramSize: nat, requests: map<nat, Request>, p: nat)
    requires Chains(desc, headers, ramSize, requests) && forall id :: id in requests ==> requests[id].header != p
    ensures Chains(desc, headers - {p}, ramSize, requests)
  {
    hide ChainWritten;
  }

  lemma DropHeaderUsed(w: World, p: nat)
    requires UsedRing(w.q.size, w.q.usedIdx, w.q.usedRing, w.q.seenUsed, w.b.popped, w.b.order, w.b.requests,
      w.b.phase, w.headers)
    requires forall id :: id in w.b.requests ==> w.b.requests[id].header != p
    ensures UsedRing(w.q.size, w.q.usedIdx, w.q.usedRing, w.q.seenUsed, w.b.popped, w.b.order, w.b.requests, w.b.phase,
      w.headers - {p})
  {
    hide Slot;
  }

  lemma DropHeaderKeeps(w: World, p: nat)
    requires Inv(w) && forall id :: id in w.b.requests ==> w.b.requests[id].header != p
    ensures Inv(DropHeader(w, p))
  {
    hide Slot, Fits, Shape, Places, FreeList, Chains, AvailRing, HeldChains, UsedRing;
    DropHeaderChains(w.q.desc, w.headers, |w.ram|, w.b.requests, p);
    DropHeaderUsed(w, p);
  }

  // ----- Publishing a chain -----

  /** A 16-bit counter points at the slot of the unwrapped one. */
  lemma CounterSlot(size: nat, i: nat)
    requires size > 0
    ensures Slot(i % U16, size) == Slot(i, size)
  {
  }

  /** Two counters apart by less than the ring and than the requests that fit have different slots. */
  lemma SlotsApart(i: nat, j: nat, size: nat)
    requires 0 < size < U16 && i < j < i + size && Fits(size, j - i + 1)
    ensures Slot(i, size) != Slot(j, size)
  {
    var a, b, d := i % U16, j % U16, j - i;
    if b == a + d {
      SlotsDiffer(a, b, size);
    } else {
      assert b == a + d - U16;
      WrappedSlots(a, d, U16, size);
    }
  }

  /** The descriptors in the chains of some requests. */
  ghost function InChains(place: seq<Place>, ids: set<nat>): set<nat> {
    set d: nat | d < |place| && place[d].Chained? && place[d].id in ids
  }

  function Chain(r: Request): (s: set<nat>)
    ensures r.d0 != r.d1 && r.d0 != r.d2 && r.d1 != r.d2 ==> |s| == 3
  {
    {r.d0, r.d1, r.d2}
  }

  lemma ChainMembers(size: nat, place: seq<Place>, free: seq<nat>, requests: map<nat, Request>, id: nat)
    requires Places(size, place, free, requests) && id in requests
    ensures |Chain(requests[id])| == 3
    ensures forall d: nat :: d in Chain(requests[id]) <==> d < |place| && place[d].Chained? && place[d].id == id
  {
    forall d: nat | d < |place| && place[d].Chained? && place[d].id == id ensures d in Chain(requests[id]) {
      assert d == Part(requests[id], place[d].k);
    }
  }

  lemma OneChain(size: nat, place: seq<Place>, free: seq<nat>, requests: map<nat, Request>, ids: set<nat>, id: nat)
    requires Places(size, place, free, requests) && id in requests && id !in ids
    ensures |InChains(place, ids + {id})| == |InChains(place, ids)| + 3
  {
    hide Chain, Places;
    ChainMembers(size, place, free, requests, id);
    assert InChains(place, ids + {id}) == InChains(place, ids) + Chain(requests[id]);
    assert InChains(place, ids) !! Chain(requests[id]);
  }

  lemma {:induction false} CountChained(size: nat, place: seq<Place>, free: seq<nat>, requests: map<nat, Request>,
      ids: set<nat>)
    requires Places(size, place, free, requests) && ids <= requests.Keys
    ensures |InChains(place, ids)| == 3 * |ids|
  {
    hide Places;
    if ids == {} {
      assert InChains(place, ids) == {};
    } else {
      var id :| id in ids;
      CountChained(size, place, free, requests, ids - {id});
      OneChain(size, place, free, requests, ids - {id}, id);
      hide InChains;
      assert ids == ids - {id} + {id};
    }
  }

  /** Every request takes three descriptors, none of them in the driver's hands. */
  lemma ThreeEach(size: nat, place: seq<Place>, free: seq<nat>, requests: map<nat, Request>, hand: set<nat>)
    requires Places(size, place, free, requests) && forall d :: d in hand ==> d < size && place[d] == Taken
    ensures 3 * |requests| + |hand| <= size
  {
    CountChained(size, place, free, requests, requests.Keys);
    var chained := InChains(place, requests.Keys);
    assert |place| == size && chained !! hand;
    hide Places;
    Pigeonhole(chained + hand, size);
  }

  lemma UnreadInFlight(w: World)
    requires Inv(w)
    ensures 0 <= w.b.published - w.b.fetched <= |w.b.requests|
  {
    hide Slot, Fits, Shape, Places, FreeList, Chains, HeldChains, UsedRing;
    var n := w.b.published - w.b.fetched;
    DistinctIn(seq(n, k requires 0 <= k < n => w.b.fetched + k), w.b.requests.Keys);
  }

  lemma FewerKeys(m: map<nat, Request>, n: map<nat, Request>)
    requires n.Keys <= m.Keys
    ensures |n| <= |m|
  {
    assert |m.Keys - n.Keys| == |m.Keys| - |n.Keys|;
  }

  lemma FitsFewer(size: nat, n: nat, m: nat)
    requires size > 0 && Fits(size, m) && n <= m
    ensures Fits(size, n)
  {
  }

  lemma UnreadApart(size: nat, i: nat, j: nat)
    requires 0 < size < U16 && i <= j < i + size && Fits(size, j - i + 1)
    ensures forall k :: i <= k < j ==> Slot(k, size) != Slot(j, size)
  {
    hide Slot, Fits;
    forall k | i <= k < j ensures Slot(k, size) != Slot(j, size) {
      FitsFewer(size, j - k + 1, j - i + 1);
      SlotsApart(k, j, size);
    }
  }

  lemma SlotAvail(w: World, d: nat)
    requires AvailRing(w.q.size, w.q.availIdx, w.q.availRing, w.dev.lastAvail, w.b.published, w.b.fetched,
      w.b.requests, w.b.phase)
    requires w.b.published - w.b.fetched < w.q.size < U16 && Fits(w.q.size, w.b.published - w.b.fetched + 1)
    ensures var v := WriteSlot(w, d);
      && AvailRing(v.q.size, v.q.availIdx, v.q.availRing, v.dev.lastAvail, v.b.published, v.b.fetched, v.b.requests,
         v.b.phase)
      && v.q.availRing[Slot(v.b.published, v.q.size)] == d
  {
    UnreadApart(w.q.size, w.b.fetched, w.b.published);
    hide Slot, Fits;
    CounterSlot(w.q.size, w.b.published);
  }

  lemma WriteSlotKeeps(w: World, d: nat)
    requires Inv(w) && d < w.q.size && w.b.place[d] == Taken && Fits(w.q.size, |w.b.requests| + 1)
    ensures Inv(WriteSlot(w, d))
    ensures WriteSlot(w, d).q.availRing[Slot(w.b.published, w.q.size)] == d
  {
    hide Slot, Fits, Places, FreeList, Chains, AvailRing, HeldChains, UsedRing;
    ThreeEach(w.q.size, w.b.place, w.b.free, w.b.requests, {d});
    UnreadInFlight(w);
    FitsFewer(w.q.size, w.b.published - w.b.fetched + 1, |w.b.requests| + 1);
    SlotAvail(w, d);
  }

  /** What the driver has prepared when it bumps `avail->idx`. */
  ghost predicate Prepared(w: World, r: Request) {
    && 0 < w.q.size == |w.q.availRing| && |w.b.place| == w.q.size && Fits(w.q.size, |w.b.requests| + 1)
    && r.d0 < w.q.size && r.d1 < w.q.size && r.d2 < w.q.size && r.d0 != r.d1 && r.d0 != r.d2 && r.d1 != r.d2
    && w.b.place[r.d0] == w.b.place[r.d1] == w.b.place[r.d2] == Taken
    && ChainWritten(w.q.desc, r) && HeaderWritten(w.headers, r)
    && r.len < U32 && r.len % SECTOR == 0 && r.data + r.len <= |w.ram|
    && (forall id :: id in w.b.requests ==> w.b.requests[id].header != r.header)
    && w.q.availRing[Slot(w.b.published, w.q.size)] == r.d0
  }

  lemma ChainPlaces(size: nat, place: seq<Place>, free: seq<nat>, requests: map<nat, Request>, id: nat, r: Request)
    requires Places(size, place, free, requests) && id !in requests
    requires r.d0 < size && r.d1 < size && r.d2 < size && r.d0 != r.d1 && r.d0 != r.d2 && r.d1 != r.d2
    requires place[r.d0] == place[r.d1] == place[r.d2] == Taken
    ensures Places(size, place[r.d0 := Chained(id, 0)][r.d1 := Chained(id, 1)][r.d2 := Chained(id, 2)], free,
      requests[id := r])
  {
    var place' := place[r.d0 := Chained(id, 0)][r.d1 := Chained(id, 1)][r.d2 := Chained(id, 2)];
    assert forall d :: 0 <= d < size && place[d] != Taken ==> place'[d] == place[d];
    ChainRequests(size, place, place', free, requests, id, r);
    ChainDescs(size, place, place', free, requests, id, r);
  }

  lemma ChainRequests(size: nat, place: seq<Place>, place': seq<Place>, free: seq<nat>, requests: map<nat, Request>,
      id: nat, r: Request)
    requires Places(size, place, free, requests) && id !in requests && |place'| == size
    requires forall d :: 0 <= d < size && place[d] != Taken ==> place'[d] == place[d]
    requires r.d0 < size && r.d1 < size && r.d2 < size
    requires place'[r.d0] == Chained(id, 0) && place'[r.d1] == Chained(id, 1) && place'[r.d2] == Chained(id, 2)
    ensures forall id' :: id' in requests[id := r] ==>
              var q := requests[id := r][id'];
              && q.d0 < size && place'[q.d0] == Chained(id', 0)
              && q.d1 < size && place'[q.d1] == Chained(id', 1)
              && q.d2 < size && place'[q.d2] == Chained(id', 2)
  {
  }

  lemma ChainDescs(size: nat, place: seq<Place>, place': seq<Place>, free: seq<nat>, requests: map<nat, Request>,
      id: nat, r: Request)
    requires Places(size, place, free, requests) && id !in requests
    requires r.d0 < size && r.d1 < size && r.d2 < size
    requires place' == place[r.d0 := Chained(id, 0)][r.d1 := Chained(id, 1)][r.d2 := Chained(id, 2)]
    requires r.d0 != r.d1 && r.d0 != r.d2 && r.d1 != r.d2
    ensures forall d :: 0 <= d < size ==>
              match place'[d]
              case Free(i) => i < |free| && free[i] == d
              case Taken => true
              case Chained(id', k) => id' in requests[id := r] && k < 3 && Part(requests[id := r][id'], k) == d
  {
    forall d | 0 <= d < size
      ensures match place'[d]
        case Free(i) => i < |free| && free[i] == d
        case Taken => true
        case Chained(id', k) => id' in requests[id := r] && k < 3 && Part(requests[id := r][id'], k) == d
    {
      if d != r.d0 && d != r.d1 && d != r.d2 { assert place'[d] == place[d]; }
    }
  }

  lemma ChainNewcomer(desc: seq<Desc>, headers: map<nat, Header>, ramSize: nat, requests: map<nat, Request>, id: nat,
      r: Request)
    requires Chains(desc, headers, ramSize, requests) && id !in requests
    requires ChainWritten(desc, r) && HeaderWritten(headers, r) && r.len < U32 && r.len % SECTOR == 0
      && r.data + r.len <= ramSize
    requires forall id :: id in requests ==> requests[id].header != r.header
    ensures Chains(desc, headers, ramSize, requests[id := r])
  {
    hide ChainWritten, HeaderWritten;
  }

  lemma HeldNewcomer(held: set<nat>, holder: map<nat, nat>, requests: map<nat, Request>, phase: map<nat, Phase>,
      id: nat, r: Request)
    requires HeldChains(held, holder, requests, phase) && id !in requests
    ensures HeldChains(held, holder, requests[id := r], phase[id := Avail])
  {
  }

  lemma UsedNewcomer(w: World, id: nat, r: Request)
    requires UsedRing(w.q.size, w.q.usedIdx, w.q.usedRing, w.q.seenUsed, w.b.popped, w.b.order, w.b.requests,
      w.b.phase, w.headers)
    requires id !in w.b.requests
    ensures UsedRing(w.q.size, w.q.usedIdx, w.q.usedRing, w.q.seenUsed, w.b.popped, w.b.order,
                     w.b.requests[id := r], w.b.phase[id := Avail], w.headers)
  {
    hide Slot, Fits;
  }

  lemma PublishAvail(w: World, r: Request)
    requires AvailRing(w.q.size, w.q.availIdx, w.q.availRing, w.dev.lastAvail, w.b.published, w.b.fetched,
      w.b.requests, w.b.phase)
    requires w.q.availRing[Slot(w.b.published, w.q.size)] == r.d0
    ensures w.b.published !in w.b.requests
    ensures AvailRing(w.q.size, (w.q.availIdx + 1) % U16, w.q.availRing, w.dev.lastAvail, w.b.published + 1,
      w.b.fetched,
                      w.b.requests[w.b.published := r], w.b.phase[w.b.published := Avail])
  {
    hide Slot, Fits;
  }

  lemma PublishKeeps(w: World, r: Request)
    requires Inv(w) && Prepared(w, r)
    ensures Inv(Publish(w, r)) && w.b.published !in w.b.requests
  {
    hide Slot, Fits, Places, FreeList, Chains, AvailRing, HeldChains, UsedRing, ChainWritten, HeaderWritten;
    PublishAvail(w, r);
    var id := w.b.published;
    assert |w.b.requests[id := r]| == |w.b.requests| + 1;
    ChainPlaces(w.q.size, w.b.place, w.b.free, w.b.requests, id, r);
    ChainNewcomer(w.q.desc, w.headers, |w.ram|, w.b.requests, id, r);
    HeldNewcomer(w.dev.held, w.b.holder, w.b.requests, w.b.phase, id, r);
    UsedNewcomer(w, id, r);
  }

  // ----- Popping an answer -----

  /** The oldest unseen answer. */
  ghost predicate Answering(w: World, id: nat) {
    && w.b.popped < |w.b.order| && w.b.order[w.b.popped] == id
    && id in w.b.requests && id in w.b.phase && w.b.phase[id].Used?
    && var r := w.b.requests[id];
       r.d0 < |w.b.place| && r.d1 < |w.b.place| && r.d2 < |w.b.place|
  }

  lemma PopRequests(size: nat, place: seq<Place>, place': seq<Place>, free: seq<nat>, requests: map<nat, Request>,
      id: nat)
    requires Places(size, place, free, requests) && id in requests && |place'| == size
    requires forall d ::
      0 <= d < size ==> place'[d] == if place[d].Chained? && place[d].id == id then Taken else place[d]
    ensures Places(size, place', free, requests - {id})
  {
  }

  lemma PopPlaces(size: nat, place: seq<Place>, free: seq<nat>, requests: map<nat, Request>, id: nat)
    requires Places(size, place, free, requests) && id in requests
    ensures var r := requests[id];
      && r.d0 < size && r.d1 < size && r.d2 < size && |place| == size
      && r.d0 != r.d1 && r.d0 != r.d2 && r.d1 != r.d2
      && Places(size, place[r.d0 := Taken][r.d1 := Taken][r.d2 := Taken], free, requests - {id})
  {
    var r := requests[id];
    ChainMembers(size, place, free, requests, id);
    assert r.d0 in Chain(r) && r.d1 in Chain(r) && r.d2 in Chain(r);
    assert place[r.d0] == Chained(id, 0) && place[r.d1] == Chained(id, 1) && place[r.d2] == Chained(id, 2)
      && |place| == size;
    hide Places;
    PopRequests(size, place, place[r.d0 := Taken][r.d1 := Taken][r.d2 := Taken], free, requests, id);
  }

  lemma PopChains(desc: seq<Desc>, headers: map<nat, Header>, ramSize: nat, requests: map<nat, Request>, id: nat)
    requires Chains(desc, headers, ramSize, requests)
    ensures Chains(desc, headers, ramSize, requests - {id})
  {
    hide ChainWritten, HeaderWritten;
  }

  lemma PopHeld(held: set<nat>, holder: map<nat, nat>, requests: map<nat, Request>, phase: map<nat, Phase>, id: nat)
    requires HeldChains(held, holder, requests, phase) && id in requests && !phase[id].Held?
    ensures HeldChains(held, holder, requests - {id}, phase - {id})
  {
  }

  lemma PopAvail(size: nat, availIdx: nat, availRing: seq<nat>, lastAvail: nat, published: nat, fetched: nat,
      requests: map<nat, Request>, phase: map<nat, Phase>, id: nat)
    requires AvailRing(size, availIdx, availRing, lastAvail, published, fetched, requests, phase)
    requires id in requests && !phase[id].Avail?
    ensures AvailRing(size, availIdx, availRing, lastAvail, published, fetched, requests - {id}, phase - {id})
  {
    hide Slot, Fits;
  }

  lemma PopUsed(size: nat, usedIdx: nat, usedRing: seq<UsedElem>, seenUsed: nat, popped: nat, order: seq<nat>,
      requests: map<nat, Request>, phase: map<nat, Phase>, headers: map<nat, Header>)
    requires UsedRing(size, usedIdx, usedRing, seenUsed, popped, order, requests, phase, headers) && popped < |order|
    ensures order[popped] in requests && phase[order[popped]].Used? && phase.Keys == requests.Keys
    ensures UsedRing(size, usedIdx, usedRing, (seenUsed + 1) % U16, popped + 1, order,
                     requests - {order[popped]}, phase - {order[popped]}, headers)
  {
    hide Slot, Fits, Answered;
  }

  lemma FitsLess(size: nat, requests: map<nat, Request>, id: nat)
    requires size > 0 && Fits(size, |requests|)
    ensures Fits(size, |requests - {id}|)
  {
    assert (requests - {id}).Keys <= requests.Keys;
    FewerKeys(requests, requests - {id});
    FitsFewer(size, |requests - {id}|, |requests|);
  }

  lemma PopKeeps(w: World)
    requires Inv(w) && w.b.popped < |w.b.order|
    ensures Answering(w, w.b.order[w.b.popped])
    ensures Inv(Pop(w))
  {
    hide Slot, Fits, Places, FreeList, Chains, AvailRing, HeldChains, UsedRing;
    var id := w.b.order[w.b.popped];
    PopUsed(w.q.size, w.q.usedIdx, w.q.usedRing, w.q.seenUsed, w.b.popped, w.b.order, w.b.requests, w.b.phase,
      w.headers);
    FitsLess(w.q.size, w.b.requests, id);
    PopPlaces(w.q.size, w.b.place, w.b.free, w.b.requests, id);
    PopChains(w.q.desc, w.headers, |w.ram|, w.b.requests, id);
    PopAvail(w.q.size, w.q.availIdx, w.q.availRing, w.dev.lastAvail, w.b.published, w.b.fetched, w.b.requests,
      w.b.phase, id);
    PopHeld(w.dev.held, w.b.holder, w.b.requests, w.b.phase, id);
  }

  // ----- Steps of the device -----

  /** What a chain in the descriptor table asks for, read as the device reads it. */
  datatype Transfer = Transfer(kind: Kind, sector: nat, data: nat, len: nat, statusAddr: nat)

  ghost predicate Readable(q: Queue, headers: map<nat, Header>, h: nat) {
    && h < |q.desc| && HasNext(q.desc[h].flags) && q.desc[h].next < |q.desc| && q.desc[h].addr in headers
    && HasNext(q.desc[q.desc[h].next].flags) && q.desc[q.desc[h].next].next < |q.desc|
    && HasWrite(q.desc[q.desc[q.desc[h].next].next].flags)
    && q.desc[q.desc[q.desc[h].next].next].addr >= HEADER_SIZE
  }

  ghost function ReadChain(q: Queue, headers: map<nat, Header>, h: nat): Transfer
    requires Readable(q, headers, h)
  {
    var first := q.desc[h];
    var data := q.desc[first.next];
    Transfer(headers[first.addr].kind, headers[first.addr].sector, data.addr, data.len, q.desc[data.next].addr)
  }

  ghost function Asked(r: Request): Transfer {
    Transfer(r.kind, r.sector, r.data, r.len, r.header + HEADER_SIZE)
  }

  predicate OnDisk(t: Transfer, disk: seq<byte>) { t.sector * SECTOR + t.len <= |disk| }

  /** A read of sectors into memory, or a write of memory to sectors. */
  ghost function NewRam(t: Transfer, ram: seq<byte>, disk: seq<byte>): seq<byte>
    requires OnDisk(t, disk) && t.data + t.len <= |ram|
  {
    var at := t.sector * SECTOR;
    if t.kind.In? then Overwrite(ram, t.data, disk[at..at + t.len]) else ram
  }

  ghost function NewDisk(t: Transfer, ram: seq<byte>, disk: seq<byte>): seq<byte>
    requires OnDisk(t, disk) && t.data + t.len <= |ram|
  {
    if t.kind.Out? then Overwrite(disk, t.sector * SECTOR, ram[t.data..t.data + t.len]) else disk
  }

  /** Equal but for the bytes [at..at + len). */
  ghost predicate SameOutside(s: seq<byte>, v: seq<byte>, at: nat, len: nat) {
    |s| == |v| && forall i :: 0 <= i < |s| && (i < at || at + len <= i) ==> s[i] == v[i]
  }

  /** After an error only the target of the transfer may have changed. */
  ghost predicate Confined(t: Transfer, ram: seq<byte>, disk: seq<byte>, ram': seq<byte>, disk': seq<byte>) {
    && SameOutside(ram, ram', t.data, if t.kind.In? then t.len else 0)
    && SameOutside(disk, disk', t.sector * SECTOR, if t.kind.Out? then t.len else 0)
  }

  /** The device takes the next chain off the available ring. */
  ghost function Fetch(w: World): World
    requires 0 < w.q.size == |w.q.availRing| && w.b.fetched in w.b.phase
  {
    var h := w.q.availRing[Slot(w.dev.lastAvail, w.q.size)];
    w.(dev := Device((w.dev.lastAvail + 1) % U16, w.dev.held + {h}),
       b := w.b.(fetched := w.b.fetched + 1, holder := w.b.holder[h := w.b.fetched],
         phase := w.b.phase[w.b.fetched := Held]))
  }

  /** An answer the device may give to a chain it holds, with the memory and the disk after it. */
  ghost predicate MayAnswer(w: World, h: nat, outcome: Outcome, ram: seq<byte>, disk: seq<byte>) {
    && h in w.dev.held && Readable(w.q, w.headers, h)
    && var t := ReadChain(w.q, w.headers, h);
       && t.data + t.len <= |w.ram|
       && match outcome
          case Done => OnDisk(t, w.disk) && ram == NewRam(t, w.ram, w.disk) && disk == NewDisk(t, w.ram, w.disk)
          case Failed(status, len) => status != S_OK && len < U32 && Confined(t, w.ram, w.disk, ram, disk)
  }

  /** The length the device reports. */
  function UsedLen(outcome: Outcome, kind: Kind, len: nat): nat {
    match outcome
    case Done => (if kind.In? then FOOTER_SIZE + len else FOOTER_SIZE) % U32
    case Failed(_, reported) => reported
  }

  /** The answer: the status byte, the used element, then the counter. Chains are answered in any order. */
  ghost function Answer(w: World, h: nat, outcome: Outcome, ram: seq<byte>, disk: seq<byte>): World
    requires MayAnswer(w, h, outcome, ram, disk) && 0 < w.q.size == |w.q.usedRing|
    requires h in w.b.holder && ReadChain(w.q, w.headers, h).statusAddr - HEADER_SIZE in w.headers
  {
    var t := ReadChain(w.q, w.headers, h);
    var p := t.statusAddr - HEADER_SIZE;
    var id := w.b.holder[h];
    var e := UsedElem(h, UsedLen(outcome, t.kind, t.len));
    w.(q := w.q.(usedRing := w.q.usedRing[Slot(w.q.usedIdx, w.q.size) := e], usedIdx := (w.q.usedIdx + 1) % U16),
       dev := w.dev.(held := w.dev.held - {h}),
       headers := w.headers[p := w.headers[p].(status := if outcome.Done? then S_OK else outcome.status)],
       ram := ram, disk := disk,
       b := w.b.(holder := w.b.holder - {h}, order := w.b.order + [id],
         phase := w.b.phase[id := Used(|w.b.order|, outcome)]))
  }

  // ----- The device's steps keep the invariant -----

  /** What the device reads out of the shared memory is what the driver asked for, however many
      requests are in flight. */
  lemma ChainIsRequest(w: World, id: nat)
    requires Inv(w) && id in w.b.requests
    ensures Readable(w.q, w.headers, w.b.requests[id].d0)
    ensures ReadChain(w.q, w.headers, w.b.requests[id].d0) == Asked(w.b.requests[id])
  {
    hide Places, FreeList, AvailRing, HeldChains, UsedRing;
    assert ChainWritten(w.q.desc, w.b.requests[id]) && HeaderWritten(w.headers, w.b.requests[id]);
  }

  lemma FetchAvail(size: nat, availIdx: nat, availRing: seq<nat>, lastAvail: nat, published: nat, fetched: nat,
      requests: map<nat, Request>, phase: map<nat, Phase>)
    requires AvailRing(size, availIdx, availRing, lastAvail, published, fetched, requests, phase)
    requires 0 < size && fetched < published && Slot(lastAvail, size) == Slot(fetched, size)
    ensures fetched in requests && phase[fetched].Avail?
    ensures availRing[Slot(lastAvail, size)] == requests[fetched].d0
    ensures AvailRing(size, availIdx, availRing, (lastAvail + 1) % U16, published, fetched + 1, requests,
      phase[fetched := Held])
  {
    hide Slot, Fits;
  }

  lemma FetchHeld(size: nat, place: seq<Place>, free: seq<nat>, held: set<nat>, holder: map<nat, nat>,
      requests: map<nat, Request>, phase: map<nat, Phase>, id: nat)
    requires Places(size, place, free, requests) && HeldChains(held, holder, requests, phase)
    requires id in requests && phase[id].Avail?
    ensures var h := requests[id].d0;
      HeldChains(held + {h}, holder[h := id], requests, phase[id := Held])
  {
    var h := requests[id].d0;
    forall i | i in requests && i != id ensures requests[i].d0 != h {
      assert place[requests[i].d0] == Chained(i, 0);
    }
  }

  lemma PhaseUsed(size: nat, usedIdx: nat, usedRing: seq<UsedElem>, seenUsed: nat, popped: nat, order: seq<nat>,
      requests: map<nat, Request>, phase: map<nat, Phase>, headers: map<nat, Header>, id: nat)
    requires UsedRing(size, usedIdx, usedRing, seenUsed, popped, order, requests, phase, headers)
    requires id in requests && phase[id].Avail?
    ensures UsedRing(size, usedIdx, usedRing, seenUsed, popped, order, requests, phase[id := Held], headers)
  {
    hide Slot, Fits, Answered;
  }

  lemma FetchKeeps(w: World)
    requires Inv(w) && w.b.fetched < w.b.published
    ensures w.b.fetched in w.b.phase && w.b.phase[w.b.fetched].Avail?
    ensures Inv(Fetch(w))
  {
    hide Slot, Fits, Shape, Places, FreeList, Chains, HeldChains, UsedRing;
    CounterSlot(w.q.size, w.b.fetched);
    FetchAvail(w.q.size, w.q.availIdx, w.q.availRing, w.dev.lastAvail, w.b.published, w.b.fetched, w.b.requests,
      w.b.phase);
    PhaseKeys(w);
    FetchHeld(w.q.size, w.b.place, w.b.free, w.dev.held, w.b.holder, w.b.requests, w.b.phase, w.b.fetched);
    PhaseUsed(w.q.size, w.q.usedIdx, w.q.usedRing, w.q.seenUsed, w.b.popped, w.b.order, w.b.requests, w.b.phase,
      w.headers, w.b.fetched);
  }

  lemma PhaseKeys(w: World)
    requires Inv(w)
    ensures w.b.phase.Keys == w.b.requests.Keys && w.b.fetched <= w.b.published && w.b.popped <= |w.b.order|
    ensures w.b.holder.Keys == w.dev.held
    ensures forall h :: h in w.dev.held ==>
      w.b.holder[h] in w.b.requests && w.b.phase[w.b.holder[h]].Held? && w.b.requests[w.b.holder[h]].d0 == h
  {
  }

  lemma Counters(w: World)
    requires Inv(w)
    ensures w.dev.lastAvail == w.b.fetched % U16 && w.q.availIdx == w.b.published % U16
    ensures w.q.seenUsed == w.b.popped % U16 && w.q.usedIdx == |w.b.order| % U16
    ensures w.q.size < U16
  {
    hide Places, FreeList, Chains, HeldChains, Slot, Answered;
  }

  /** The answers not yet popped are among the requests in flight, and so is a chain not answered. */
  lemma AnsweredInFlight(w: World)
    requires Inv(w)
    ensures 0 <= |w.b.order| - w.b.popped <= |w.b.requests|
    ensures forall id :: id in w.b.requests && w.b.phase[id].Held? ==> |w.b.order| - w.b.popped < |w.b.requests|
  {
    hide Slot, Fits, Shape, Places, FreeList, Chains, HeldChains, AvailRing, Answered;
    var s := w.b.order[w.b.popped..];
    forall k | 0 <= k < |s|
      ensures s[k] in w.b.requests && w.b.phase[s[k]].Used? && w.b.phase[s[k]].at == w.b.popped + k
    {
      assert s[k] == w.b.order[w.b.popped + k];
    }
    DistinctIn(s, w.b.requests.Keys);
    forall id | id in w.b.requests && w.b.phase[id].Held? ensures |s| < |w.b.requests| {
      DistinctIn(s + [id], w.b.requests.Keys);
    }
  }

  lemma AnswerChains(desc: seq<Desc>, headers: map<nat, Header>, ramSize: nat, requests: map<nat, Request>, p: nat,
      status: byte)
    requires Chains(desc, headers, ramSize, requests) && p in headers
    ensures Chains(desc, headers[p := headers[p].(status := status)], ramSize, requests)
  {
    hide ChainWritten;
  }

  lemma AnswerAvail(size: nat, availIdx: nat, availRing: seq<nat>, lastAvail: nat, published: nat, fetched: nat,
      requests: map<nat, Request>, phase: map<nat, Phase>, id: nat, u: Phase)
    requires AvailRing(size, availIdx, availRing, lastAvail, published, fetched, requests, phase)
    requires id in requests && phase[id].Held? && u.Used?
    ensures AvailRing(size, availIdx, availRing, lastAvail, published, fetched, requests, phase[id := u])
  {
    hide Slot, Fits;
  }

  lemma AnswerHeld(held: set<nat>, holder: map<nat, nat>, requests: map<nat, Request>, phase: map<nat, Phase>, h: nat,
      u: Phase)
    requires HeldChains(held, holder, requests, phase) && h in held && u.Used?
    ensures HeldChains(held - {h}, holder - {h}, requests, phase[holder[h] := u])
  {
  }

  lemma AnswerUsed(size: nat, usedIdx: nat, usedRing: seq<UsedElem>, seenUsed: nat, popped: nat, order: seq<nat>,
      requests: map<nat, Request>, phase: map<nat, Phase>, headers: map<nat, Header>,
      id: nat, e: UsedElem, outcome: Outcome, headers': map<nat, Header>)
    requires UsedRing(size, usedIdx, usedRing, seenUsed, popped, order, requests, phase, headers)
    requires id in requests && phase[id].Held? && Slot(usedIdx, size) == Slot(|order|, size)
    requires forall i :: popped <= i < |order| ==> Slot(i, size) != Slot(|order|, size)
    requires Answered(e, headers', requests[id], outcome)
    requires forall i :: i in requests && i != id ==>
      (requests[i].header in headers <==> requests[i].header in headers')
      && (requests[i].header in headers ==> headers[requests[i].header] == headers'[requests[i].header])
    ensures UsedRing(size, (usedIdx + 1) % U16, usedRing[Slot(usedIdx, size) := e], seenUsed, popped, order + [id],
                     requests, phase[id := Used(|order|, outcome)], headers')
  {
    hide Slot, Fits;
    var ring, phase' := usedRing[Slot(usedIdx, size) := e], phase[id := Used(|order|, outcome)];
    forall i | popped <= i < |order|
      ensures order[i] in requests && order[i] != id
      ensures Answered(ring[Slot(i, size)], headers', requests[order[i]], phase'[order[i]].outcome)
    {
      assert Answered(usedRing[Slot(i, size)], headers, requests[order[i]], phase[order[i]].outcome);
    }
    hide Answered;
    var all := order + [id];
    assert all[|order|] == id && forall i :: 0 <= i < |order| ==> all[i] == order[i];
  }

  /** The request behind a chain the device holds, and that its answer goes to that request's header. */
  lemma AnswerTarget(w: World, h: nat)
    requires Inv(w) && h in w.dev.held
    ensures h in w.b.holder && w.b.holder[h] in w.b.requests && w.b.holder[h] in w.b.phase
      && w.b.phase[w.b.holder[h]].Held?
    ensures var r := w.b.requests[w.b.holder[h]];
      && Readable(w.q, w.headers, h) && ReadChain(w.q, w.headers, h) == Asked(r)
      && r.d0 == h && r.header in w.headers && r.len < U32 && r.len % SECTOR == 0
      && forall i :: i in w.b.requests && i != w.b.holder[h] ==> w.b.requests[i].header != r.header
  {
    PhaseKeys(w);
    ChainIsRequest(w, w.b.holder[h]);
    hide Places, FreeList, AvailRing, UsedRing, HeldChains, ChainWritten, Readable, ReadChain;
  }

  lemma NextUsedSlot(w: World, id: nat)
    requires Inv(w) && id in w.b.requests && w.b.phase[id].Held?
    ensures Slot(w.q.usedIdx, w.q.size) == Slot(|w.b.order|, w.q.size)
    ensures forall i :: w.b.popped <= i < |w.b.order| ==> Slot(i, w.q.size) != Slot(|w.b.order|, w.q.size)
  {
    hide Slot, Fits, Places, FreeList, AvailRing, Chains, HeldChains, UsedRing;
    ThreeEach(w.q.size, w.b.place, w.b.free, w.b.requests, {});
    AnsweredInFlight(w);
    FitsFewer(w.q.size, |w.b.order| - w.b.popped + 1, |w.b.requests|);
    Counters(w);
    CounterSlot(w.q.size, |w.b.order|);
    UnreadApart(w.q.size, w.b.popped, |w.b.order|);
  }

  lemma AnswerKeeps(w: World, h: nat, outcome: Outcome, ram: seq<byte>, disk: seq<byte>)
    requires Inv(w) && MayAnswer(w, h, outcome, ram, disk)
    ensures h in w.b.holder && w.b.holder[h] in w.b.requests
    ensures ReadChain(w.q, w.headers, h) == Asked(w.b.requests[w.b.holder[h]])
    ensures ReadChain(w.q, w.headers, h).statusAddr - HEADER_SIZE in w.headers
    ensures Inv(Answer(w, h, outcome, ram, disk))
  {
    hide Slot, Fits, Places, FreeList, Chains, AvailRing, HeldChains, UsedRing, Readable, ReadChain, MayAnswer,
      Answered;
    AnswerShape(w, h, outcome, ram, disk);
    AnswerTarget(w, h);
    var id := w.b.holder[h];
    var r := w.b.requests[id];
    NextUsedSlot(w, id);
    var status: byte := if outcome.Done? then S_OK else outcome.status;
    var headers := w.headers[r.header := w.headers[r.header].(status := status)];
    var e := UsedElem(h, UsedLen(outcome, r.kind, r.len));
    AnswerIsAnswer(w, h, outcome, headers, r, e);
    AnswerChains(w.q.desc, w.headers, |w.ram|, w.b.requests, r.header, status);
    AnswerAvail(w.q.size, w.q.availIdx, w.q.availRing, w.dev.lastAvail, w.b.published, w.b.fetched, w.b.requests,
      w.b.phase, id, Used(|w.b.order|, outcome));
    AnswerHeld(w.dev.held, w.b.holder, w.b.requests, w.b.phase, h, Used(|w.b.order|, outcome));
    AnswerUsed(w.q.size, w.q.usedIdx, w.q.usedRing, w.q.seenUsed, w.b.popped, w.b.order, w.b.requests, w.b.phase,
      w.headers, id, e, outcome, headers);
  }

  lemma AnswerShape(w: World, h: nat, outcome: Outcome, ram: seq<byte>, disk: seq<byte>)
    requires MayAnswer(w, h, outcome, ram, disk)
    ensures h in w.dev.held && |ram| == |w.ram| && |disk| == |w.disk|
    ensures outcome.Failed? ==> outcome.status != S_OK && outcome.len < U32
  {
  }

  lemma AnswerIsAnswer(w: World, h: nat, outcome: Outcome, headers: map<nat, Header>, r: Request, e: UsedElem)
    requires outcome.Failed? ==> outcome.status != S_OK && outcome.len < U32
    requires r.d0 == h && r.header in headers
      && headers[r.header].status == (if outcome.Done? then S_OK else outcome.status)
    requires r.len < U32 && r.len % SECTOR == 0
    requires e == UsedElem(h, UsedLen(outcome, r.kind, r.len))
    ensures Answered(e, headers, r, outcome)
  {
  }
}
