/** Every interleaving of the driver's and the device's steps. */
module VirtioRuns {
  import opened Bytes
  import opened Virtio

  /** A descriptor in the driver's hands. */
  ghost predicate InHand(w: World, d: nat) {
    d < w.q.size == |w.q.desc| == |w.q.availRing| && d < |w.b.place| && w.b.place[d] == Taken
  }

  ghost predicate HasFree(w: World) {
    w.b.free != [] && w.q.freeHead < |w.q.desc| && w.q.freeHead < |w.b.place|
  }

  ghost predicate HeaderUnused(w: World, p: nat) {
    forall id :: id in w.b.requests ==> w.b.requests[id].header != p
  }

  datatype Act = DoAlloc | DoRelease(d: nat) | DoWrite(d: nat, x: Desc) | DoNew(p: nat, h: Header) | DoDrop(p: nat)
               | DoSlot(d: nat) | DoPublish(r: Request) | DoPop

  /** When the driver's code takes a step. */
  ghost predicate Ready(w: World, a: Act) {
    match a
    case DoAlloc => HasFree(w)
    case DoRelease(d) => InHand(w, d)
    case DoWrite(d, _) => InHand(w, d)
    case DoNew(p, _) => p !in w.headers
    case DoDrop(p) => HeaderUnused(w, p)
    case DoSlot(d) => InHand(w, d) && Fits(w.q.size, |w.b.requests| + 1)
    case DoPublish(r) => Prepared(w, r)
    case DoPop => w.b.popped < |w.b.order| && Answering(w, w.b.order[w.b.popped])
  }

  ghost function Do(w: World, a: Act): World
    requires Ready(w, a)
  {
    match a
    case DoAlloc => Alloc(w)
    case DoRelease(d) => Release(w, d)
    case DoWrite(d, x) => WriteDesc(w, d, x)
    case DoNew(p, h) => NewHeader(w, p, h)
    case DoDrop(p) => DropHeader(w, p)
    case DoSlot(d) => WriteSlot(w, d)
    case DoPublish(r) => Publish(w, r)
    case DoPop => Pop(w)
  }

  ghost predicate DriverStep(w: World, w': World) {
    exists a :: Ready(w, a) && w' == Do(w, a)
  }

  ghost predicate AnswerStep(w: World, w': World, h: nat, outcome: Outcome) {
    && MayAnswer(w, h, outcome, w'.ram, w'.disk) && 0 < w.q.size == |w.q.usedRing|
    && h in w.b.holder && ReadChain(w.q, w.headers, h).statusAddr - HEADER_SIZE in w.headers
    && w' == Answer(w, h, outcome, w'.ram, w'.disk)
  }

  ghost predicate FetchStep(w: World, w': World) {
    w.b.fetched < w.b.published && 0 < w.q.size == |w.q.availRing| && w.b.fetched in w.b.phase && w' == Fetch(w)
  }

  ghost predicate DeviceStep(w: World, w': World) {
    FetchStep(w, w') || exists h, outcome :: AnswerStep(w, w', h, outcome)
  }

  ghost predicate Step(w: World, w': World) { DriverStep(w, w') || DeviceStep(w, w') }

  ghost predicate Run(ws: seq<World>) {
    |ws| > 0 && Inv(ws[0]) && forall i :: 0 <= i < |ws| - 1 ==> Step(ws[i], ws[i + 1])
  }

  /** With the descriptors of a chain in hand there is room for its slot, if the size fits as many chains
      as it has descriptors for. */
  lemma SlotReady(w: World, r: Request)
    requires Inv(w) && Fits(w.q.size, w.q.size / 3)
    requires InHand(w, r.d0) && InHand(w, r.d1) && InHand(w, r.d2)
    requires r.d0 != r.d1 && r.d0 != r.d2 && r.d1 != r.d2
    ensures Ready(w, DoSlot(r.d0))
  {
    hide Fits, Places, FreeList, Chains, AvailRing, HeldChains, UsedRing;
    ThreeEach(w.q.size, w.b.place, w.b.free, w.b.requests, Chain(r));
    FitsFewer(w.q.size, |w.b.requests| + 1, w.q.size / 3);
  }

  lemma DriverStepKeeps(w: World, w': World)
    requires Inv(w) && DriverStep(w, w')
    ensures Inv(w')
  {
    hide Inv, Fits, Alloc, Release, WriteDesc, NewHeader, DropHeader, WriteSlot, Publish, Pop, Prepared, Answering;
    var a :| Ready(w, a) && w' == Do(w, a);
    match a
    case DoAlloc => AllocKeeps(w);
    case DoRelease(d) => ReleaseKeeps(w, d);
    case DoWrite(d, x) => WriteDescKeeps(w, d, x);
    case DoNew(p, h) => NewHeaderKeeps(w, p, h);
    case DoDrop(p) => DropHeaderKeeps(w, p);
    case DoSlot(d) => WriteSlotKeeps(w, d);
    case DoPublish(r) => PublishKeeps(w, r);
    case DoPop => PopKeeps(w);
  }

  lemma DeviceStepKeeps(w: World, w': World)
    requires Inv(w) && DeviceStep(w, w')
    ensures Inv(w')
  {
    hide Shape, Places, FreeList, Chains, AvailRing, HeldChains, UsedRing, Fetch, Answer, Inv, MayAnswer, ReadChain;
    if FetchStep(w, w') {
      FetchKeeps(w);
    } else {
      var h, outcome :| AnswerStep(w, w', h, outcome);
      AnswerKeeps(w, h, outcome, w'.ram, w'.disk);
    }
  }

  /** In every reachable world, after any interleaving, the invariant holds. */
  lemma {:induction false} RunKeeps(ws: seq<World>, n: nat)
    requires Run(ws) && n < |ws|
    ensures Inv(ws[n])
    decreases n
  {
    hide Inv, DriverStep, DeviceStep;
    if n > 0 {
      RunKeeps(ws, n - 1);
      assert Step(ws[n - 1], ws[n - 1 + 1]);
      if DriverStep(ws[n - 1], ws[n]) {
        DriverStepKeeps(ws[n - 1], ws[n]);
      } else {
        DeviceStepKeeps(ws[n - 1], ws[n]);
      }
    }
  }

  // ----- What the invariant says -----

  /** Following the free list for n links. */
  function Walk(desc: seq<Desc>, from: nat, n: nat): nat
    decreases n
  {
    if n == 0 || from >= |desc| then from else Walk(desc, desc[from].next, n - 1)
  }

  lemma {:induction false} WalkFree(desc: seq<Desc>, free: seq<nat>, head: nat, n: nat)
    requires FreeList(head, desc, free) && |desc| < INVALID && n <= |free|
    ensures Walk(desc, head, n) == if n == |free| then INVALID else free[|free| - 1 - n]
    decreases n
  {
    if n > 0 {
      PopFree(head, desc, free);
      WalkFree(desc, free[..|free| - 1], desc[head].next, n - 1);
    }
  }

  /** The free list is acyclic, in range and ends in 0xffff: after as many links as there are free
      descriptors the walk ends, and before that it meets each free descriptor once. */
  lemma FreeListEnds(w: World)
    requires Inv(w)
    ensures Walk(w.q.desc, w.q.freeHead, |w.b.free|) == INVALID
    ensures forall n: nat :: n < |w.b.free| ==>
              var d := Walk(w.q.desc, w.q.freeHead, n);
              d < w.q.size && w.b.place[d] == Free(|w.b.free| - 1 - n)
    ensures forall d :: 0 <= d < w.q.size && w.b.place[d].Free? ==>
              w.b.place[d].depth < |w.b.free| && Walk(w.q.desc, w.q.freeHead, |w.b.free| - 1 - w.b.place[d].depth) == d
  {
    hide Chains, AvailRing, HeldChains, UsedRing, Walk;
    WalkFree(w.q.desc, w.b.free, w.q.freeHead, |w.b.free|);
    forall n: nat | n < |w.b.free| ensures Walk(w.q.desc, w.q.freeHead, n) == w.b.free[|w.b.free| - 1 - n] {
      WalkFree(w.q.desc, w.b.free, w.q.freeHead, n);
    }
    hide FreeList;
  }

  /** A descriptor is part of request id. */
  ghost predicate InChain(w: World, d: nat, id: nat) {
    id in w.b.requests && (d == w.b.requests[id].d0 || d == w.b.requests[id].d1 || d == w.b.requests[id].d2)
  }

  /** Every descriptor is once in the free list, or in the driver's hands, or in the chain of one request. */
  lemma OnePlace(w: World, d: nat)
    requires Inv(w) && d < w.q.size
    ensures d in w.b.free <==> w.b.place[d].Free?
    ensures forall i, j :: 0 <= i < |w.b.free| && 0 <= j < |w.b.free| && w.b.free[i] == w.b.free[j] ==> i == j
    ensures w.b.place[d].Chained? ==> InChain(w, d, w.b.place[d].id)
    ensures forall id :: InChain(w, d, id) ==> w.b.place[d].Chained? && w.b.place[d].id == id
  {
    hide FreeList, Chains, AvailRing, HeldChains, UsedRing, Answered, Slot;
    if w.b.place[d].Chained? {
      assert Part(w.b.requests[w.b.place[d].id], w.b.place[d].k) == d;
    }
  }

  lemma HeldStage(w: World, id: nat)
    requires Inv(w) && id in w.b.requests && w.b.requests[id].d0 in w.dev.held
    ensures id in w.b.phase && w.b.phase[id].Held?
  {
    hide FreeList, Chains, AvailRing, UsedRing;
    var o := w.b.holder[w.b.requests[id].d0];
    assert w.b.place[w.b.requests[o].d0] == Chained(o, 0) && w.b.place[w.b.requests[id].d0] == Chained(id, 0);
  }

  lemma UsedStage(w: World, id: nat)
    requires Inv(w) && id in w.b.requests
    ensures id in w.b.phase && w.b.popped <= |w.b.order|
    ensures w.b.phase[id].Used? <==> id in w.b.order[w.b.popped..]
  {
    hide Places, FreeList, Chains, AvailRing, HeldChains, Answered, Slot;
    if w.b.phase[id].Used? {
      assert w.b.order[w.b.popped..][w.b.phase[id].at - w.b.popped] == id;
    }
  }

  /** Every request is in one stage: unread in the available ring, held by the device, or in the used
      ring and not popped. */
  lemma OneStage(w: World, id: nat)
    requires Inv(w) && id in w.b.requests
    ensures id in w.b.phase && w.b.fetched <= w.b.published && w.b.popped <= |w.b.order|
    ensures w.b.phase[id].Avail? <==> w.b.fetched <= id < w.b.published
    ensures w.b.phase[id].Held? <==> w.b.requests[id].d0 in w.dev.held
    ensures w.b.phase[id].Used? <==> id in w.b.order[w.b.popped..]
  {
    hide Places, FreeList, Chains, UsedRing, Slot;
    UsedStage(w, id);
    if w.b.requests[id].d0 in w.dev.held { HeldStage(w, id); }
  }

  /** No step of the driver overwrites a slot of the available ring the device has not read. */
  lemma UnreadAvailKept(w: World, w': World)
    requires Inv(w) && DriverStep(w, w')
    ensures w'.q.size == w.q.size == |w.q.availRing| == |w'.q.availRing| > 0
    ensures w'.q.usedRing == w.q.usedRing
    ensures forall i ::
      w.b.fetched <= i < w.b.published ==> w'.q.availRing[Slot(i, w.q.size)] == w.q.availRing[Slot(i, w.q.size)]
  {
    hide Places, FreeList, Chains, AvailRing, HeldChains, UsedRing, Prepared, Answering;
    var a :| Ready(w, a) && w' == Do(w, a);
    if a.DoSlot? {
      hide Slot, Fits;
      ThreeEach(w.q.size, w.b.place, w.b.free, w.b.requests, {a.d});
      UnreadInFlight(w);
      FitsFewer(w.q.size, w.b.published - w.b.fetched + 1, |w.b.requests| + 1);
      UnreadApart(w.q.size, w.b.fetched, w.b.published);
      AvailCounter(w);
    }
  }

  lemma AvailCounter(w: World)
    requires Inv(w)
    ensures 0 < w.q.size && Slot(w.q.availIdx, w.q.size) == Slot(w.b.published, w.q.size)
  {
    hide Places, FreeList, Chains, HeldChains, UsedRing;
    CounterSlot(w.q.size, w.b.published);
  }

  /** No step of the device overwrites an answer the driver has not popped. */
  lemma UnreadUsedKept(w: World, w': World)
    requires Inv(w) && DeviceStep(w, w')
    ensures w'.q.size == w.q.size == |w.q.usedRing| == |w'.q.usedRing| > 0
    ensures w'.q.availRing == w.q.availRing && w'.q.desc == w.q.desc
    ensures forall i ::
      w.b.popped <= i < |w.b.order| ==> w'.q.usedRing[Slot(i, w.q.size)] == w.q.usedRing[Slot(i, w.q.size)]
  {
    hide Places, FreeList, Chains, AvailRing, HeldChains, UsedRing, MayAnswer, ReadChain, Slot;
    if !FetchStep(w, w') {
      var h, outcome :| AnswerStep(w, w', h, outcome);
      AnswerShape(w, h, outcome, w'.ram, w'.disk);
      AnswerTarget(w, h);
      NextUsedSlot(w, w.b.holder[h]);
    }
  }

  // ----- The data -----

  /** The chain of a request is carried out as the request says. */
  ghost predicate CarriedOut(r: Request, outcome: Outcome, ram: seq<byte>, disk: seq<byte>, ram': seq<byte>,
      disk': seq<byte>)
  {
    var t := Asked(r);
    && t.data + t.len <= |ram|
    && match outcome
       case Done => OnDisk(t, disk) && ram' == NewRam(t, ram, disk) && disk' == NewDisk(t, ram, disk)
       case Failed(_, _) => Confined(t, ram, disk, ram', disk')
  }

  /** Request id, fetched and not answered, is carried out exactly as it was published, and answered. */
  ghost predicate Performs(w: World, w': World, id: nat) {
    && id in w.b.requests && id in w'.b.requests && id in w.b.phase && id in w'.b.phase
    && w'.b.requests[id] == w.b.requests[id]
    && w.b.phase[id] == Held && w'.b.phase[id].Used?
    && CarriedOut(w.b.requests[id], w'.b.phase[id].outcome, w.ram, w.disk, w'.ram, w'.disk)
  }

  lemma AnswerPerforms(w: World, w': World, h: nat, outcome: Outcome) returns (id: nat)
    requires Inv(w) && AnswerStep(w, w', h, outcome)
    ensures h in w.b.holder && id == w.b.holder[h] && Performs(w, w', id)
  {
    hide Inv, Readable, ReadChain, NewRam, NewDisk, Confined, OnDisk;
    AnswerTarget(w, h);
    id := w.b.holder[h];
  }

  lemma DriverKeepsData(w: World, w': World)
    requires DriverStep(w, w')
    ensures w'.ram == w.ram && w'.disk == w.disk
  {
    hide Prepared, Answering;
  }

  /** Against a plain array of sectors: a step leaves memory and disk alone, or performs one request. */
  lemma DataRefines(w: World, w': World)
    requires Inv(w) && Step(w, w')
    ensures (w'.ram == w.ram && w'.disk == w.disk) || exists id :: Performs(w, w', id)
  {
    hide Inv, Performs, AnswerStep, DriverStep;
    if DriverStep(w, w') {
      DriverKeepsData(w, w');
    } else if !FetchStep(w, w') {
      var h, outcome :| AnswerStep(w, w', h, outcome);
      var id := AnswerPerforms(w, w', h, outcome);
    } else {
      assert w' == Fetch(w);
    }
  }

  // ----- The data over a run -----

  /** A request carried out: its number, what was published, how the device answered, and memory and disk
      then. */
  datatype Entry = Entry(id: nat, request: Request, outcome: Outcome, ram: seq<byte>, disk: seq<byte>)

  ghost function RamAfter(log: seq<Entry>, ram: seq<byte>): seq<byte> { if log == [] then ram else log[|log| - 1].ram }

  ghost function DiskAfter(log: seq<Entry>, disk: seq<byte>): seq<byte> {
    if log == [] then disk else log[|log| - 1].disk
  }

  /** Each request is carried out on what the ones before it have left. */
  ghost predicate AllCarriedOut(log: seq<Entry>, ram: seq<byte>, disk: seq<byte>) {
    forall j :: 0 <= j < |log| ==>
      CarriedOut(log[j].request, log[j].outcome, RamAfter(log[..j], ram), DiskAfter(log[..j], disk),
        log[j].ram, log[j].disk)
  }

  /** The log has the requests completed since order0, each as it is in w as long as it is in flight. */
  ghost predicate Logged(log: seq<Entry>, order0: seq<nat>, w: World) {
    && order0 <= w.b.order && |w.b.order| == |order0| + |log|
    && (forall j :: 0 <= j < |log| ==> log[j].id == w.b.order[|order0| + j])
    && (forall j :: 0 <= j < |log| && log[j].id in w.b.requests ==>
          && log[j].request == w.b.requests[log[j].id]
          && log[j].id in w.b.phase && w.b.phase[log[j].id].Used? && w.b.phase[log[j].id].outcome == log[j].outcome)
    && (forall j :: 0 <= j < |log| ==> log[j].id < w.b.published)
  }

  /** What a step that is not an answer does to the books. */
  ghost predicate Quietly(w: World, w': World) {
    && w'.ram == w.ram && w'.disk == w.disk && w'.b.order == w.b.order && w.b.published <= w'.b.published
    && (forall id :: id in w'.b.requests && id < w.b.published ==>
          && id in w.b.requests && w'.b.requests[id] == w.b.requests[id]
          && (id in w.b.phase && w.b.phase[id].Used? ==> id in w'.b.phase && w'.b.phase[id] == w.b.phase[id]))
  }

  lemma DriverQuiet(w: World, w': World)
    requires DriverStep(w, w')
    ensures Quietly(w, w')
  {
    hide Prepared, Answering;
  }

  lemma FetchQuiet(w: World, w': World)
    requires Inv(w) && FetchStep(w, w')
    ensures Quietly(w, w')
  {
    hide Inv;
    FetchKeeps(w);
  }

  /** An answer is the next entry. */
  lemma AnswerLogged(log: seq<Entry>, order0: seq<nat>, w: World, w': World, h: nat, outcome: Outcome)
    returns (e: Entry)
    requires Inv(w) && AnswerStep(w, w', h, outcome) && Logged(log, order0, w)
    ensures CarriedOut(e.request, e.outcome, w.ram, w.disk, e.ram, e.disk) && e.ram == w'.ram && e.disk == w'.disk
    ensures e.id in w.b.requests && e.request == w.b.requests[e.id]
    ensures Logged(log + [e], order0, w') && w'.b.requests == w.b.requests && w'.b.published == w.b.published
  {
    hide Inv, CarriedOut, Readable, ReadChain, MayAnswer;
    var id := AnswerPerforms(w, w', h, outcome);
    e := Entry(id, w.b.requests[id], outcome, w'.ram, w'.disk);
    NumberBelow(w, id);
    assert w'.b.order == w.b.order + [id];
  }

  lemma NumberBelow(w: World, id: nat)
    requires Inv(w) && id in w.b.requests
    ensures id < w.b.published
  {
    hide Places, FreeList, Chains, HeldChains, UsedRing;
  }

  lemma QuietlyLogged(log: seq<Entry>, order0: seq<nat>, w: World, w': World)
    requires Quietly(w, w') && Logged(log, order0, w)
    ensures Logged(log, order0, w') && w'.ram == w.ram && w'.disk == w.disk
  {
  }

  /** A request in flight is the one that was published under its number. */
  lemma {:induction false} RequestStays(ws: seq<World>, m: nat, n: nat, id: nat)
    requires Run(ws) && m <= n < |ws| && id in ws[n].b.requests && id in ws[m].b.requests
    ensures ws[n].b.requests[id] == ws[m].b.requests[id]
    decreases n
  {
    hide Inv, Quietly, Step;
    RunKeeps(ws, m);
    NumberBelow(ws[m], id);
    NumbersGrow(ws, m, n, id);
  }

  lemma {:induction false} NumbersGrow(ws: seq<World>, m: nat, n: nat, id: nat)
    requires Run(ws) && m <= n < |ws| && id < ws[m].b.published
    ensures ws[m].b.published <= ws[n].b.published
    ensures id in ws[n].b.requests ==> id in ws[m].b.requests && ws[n].b.requests[id] == ws[m].b.requests[id]
    decreases n
  {
    hide Inv, Step;
    if m < n {
      NumbersGrow(ws, m, n - 1, id);
      RunKeeps(ws, n - 1);
      assert Step(ws[n - 1], ws[n - 1 + 1]);
      StepNumbers(ws[n - 1], ws[n]);
    }
  }

  lemma StepNumbers(w: World, w': World)
    requires Inv(w) && Step(w, w')
    ensures w.b.published <= w'.b.published
    ensures forall id :: id in w'.b.requests && id < w.b.published ==>
              id in w.b.requests && w'.b.requests[id] == w.b.requests[id]
  {
    hide Inv, DriverStep, AnswerStep, FetchStep, Performs;
    if DriverStep(w, w') {
      DriverQuiet(w, w');
    } else if FetchStep(w, w') {
      FetchQuiet(w, w');
    } else {
      var h, outcome :| AnswerStep(w, w', h, outcome);
      AnswerBooks(w, w', h, outcome);
    }
  }

  lemma AnswerBooks(w: World, w': World, h: nat, outcome: Outcome)
    requires AnswerStep(w, w', h, outcome)
    ensures w'.b.requests == w.b.requests && w'.b.published == w.b.published
  {
    hide MayAnswer, ReadChain;
  }

  /** Over any run, memory and disk are what the completed requests make of them, carried out one after the
      other in the order of their completion, each as it was published. */
  lemma {:induction false} RunRefines(ws: seq<World>, n: nat) returns (log: seq<Entry>)
    requires Run(ws) && n < |ws|
    ensures AllCarriedOut(log, ws[0].ram, ws[0].disk)
    ensures ws[n].ram == RamAfter(log, ws[0].ram) && ws[n].disk == DiskAfter(log, ws[0].disk)
    ensures Logged(log, ws[0].b.order, ws[n]) && Published(log, ws, n)
    decreases n
  {
    hide Inv, AllCarriedOut, Logged, Quietly, DriverStep, AnswerStep, FetchStep, Published;
    if n == 0 {
      log := [];
      NothingLogged(ws);
    } else {
      var w, w' := ws[n - 1], ws[n];
      log := RunRefines(ws, n - 1);
      RunKeeps(ws, n - 1);
      assert Step(ws[n - 1], ws[n - 1 + 1]);
      if DriverStep(w, w') || FetchStep(w, w') {
        if DriverStep(w, w') { DriverQuiet(w, w'); } else { FetchQuiet(w, w'); }
        QuietlyLogged(log, ws[0].b.order, w, w');
        PublishedMore(log, ws, n);
      } else {
        var h, outcome :| AnswerStep(w, w', h, outcome);
        var e := AnswerLogged(log, ws[0].b.order, w, w', h, outcome);
        CarriedOutMore(log, e, ws[0].ram, ws[0].disk);
        NewPublished(log, e, ws, n);
        log := log + [e];
      }
    }
  }

  ghost predicate InFlight(ws: seq<World>, n: nat, id: nat)
    requires n < |ws|
  {
    exists m :: 0 <= m <= n && id in ws[m].b.requests
  }

  /** The requests of the log have been in flight, and were the same in every world of the run up to n in
      which they were. */
  ghost predicate Published(log: seq<Entry>, ws: seq<World>, n: nat)
    requires n < |ws|
  {
    && (forall j :: 0 <= j < |log| ==> InFlight(ws, n, log[j].id))
    && forall j, m :: 0 <= j < |log| && 0 <= m <= n && log[j].id in ws[m].b.requests ==>
         ws[m].b.requests[log[j].id] == log[j].request
  }

  lemma PublishedMore(log: seq<Entry>, ws: seq<World>, n: nat)
    requires 0 < n < |ws| && Published(log, ws, n - 1) && Logged(log, ws[0].b.order, ws[n])
    ensures Published(log, ws, n)
  {
    forall j | 0 <= j < |log| ensures InFlight(ws, n, log[j].id) {
      assert InFlight(ws, n - 1, log[j].id);
    }
  }

  lemma NewPublished(log: seq<Entry>, e: Entry, ws: seq<World>, n: nat)
    requires 0 < n < |ws| && Run(ws) && Published(log, ws, n - 1)
    requires e.id in ws[n - 1].b.requests && ws[n - 1].b.requests[e.id] == e.request
    requires ws[n].b.requests == ws[n - 1].b.requests
    ensures Published(log + [e], ws, n)
  {
    hide Run;
    var all := log + [e];
    forall j | 0 <= j < |all| ensures InFlight(ws, n, all[j].id) {
      if j < |log| { assert InFlight(ws, n - 1, log[j].id); } else { assert e.id in ws[n - 1].b.requests; }
    }
    hide InFlight;
    forall m | 0 <= m < n && e.id in ws[m].b.requests ensures ws[m].b.requests[e.id] == e.request {
      RequestStays(ws, m, n - 1, e.id);
    }
  }

  lemma CarriedOutMore(log: seq<Entry>, e: Entry, ram: seq<byte>, disk: seq<byte>)
    requires AllCarriedOut(log, ram, disk)
    requires CarriedOut(e.request, e.outcome, RamAfter(log, ram), DiskAfter(log, disk), e.ram, e.disk)
    ensures AllCarriedOut(log + [e], ram, disk)
  {
    hide CarriedOut;
    var all := log + [e];
    assert all[..|log|] == log;
    forall j | 0 <= j < |log| ensures all[j] == log[j] && all[..j] == log[..j] {}
  }

  lemma NothingLogged(ws: seq<World>)
    requires |ws| > 0
    ensures Logged([], ws[0].b.order, ws[0]) && Published([], ws, 0) && AllCarriedOut([], ws[0].ram, ws[0].disk)
  {
  }
}
