/** The table of RAM areas that core stores and switches (uefi/core_header_utils.c): built from the
    firmware's memory map, merging neighbours on the way. */
module RamTable {
  import opened Arith
  import opened Bytes
  import opened DumpFormat

  const PAGE: nat := 4096

  /** EFI_MEMORY_TYPE. */
  datatype MemoryType = ReservedMemoryType | LoaderCode | LoaderData | BootServicesCode | BootServicesData
    | RuntimeServicesCode | RuntimeServicesData | ConventionalMemory | UnusableMemory | ACPIReclaimMemory
    | ACPIMemoryNVS | MemoryMappedIO | MemoryMappedIOPortSpace | PalCode | PersistentMemory

  const USABLE_TYPES: seq<MemoryType> := [LoaderCode, LoaderData, BootServicesCode, BootServicesData,
    ConventionalMemory,
    ACPIReclaimMemory, PersistentMemory, RuntimeServicesCode, RuntimeServicesData]

  datatype Desc = Desc(kind: MemoryType, start: nat, pages: nat) {
    function Size(): nat { pages * PAGE }
    function End(): nat { start + pages * PAGE }
    function Area(): MemArea { MemArea(start, pages * PAGE) }
  }

  /** What the firmware promises of a memory map, in any order. */
  ghost predicate Mapped(ds: seq<Desc>) {
    && (forall i :: 0 <= i < |ds| ==> ds[i].pages > 0 && ds[i].start % PAGE == 0 && ds[i].End() < U64)
    && forall i, j :: 0 <= i < j < |ds| ==> Apart(ds[i].Area(), ds[j].Area())
  }

  predicate Usable(d: Desc) { d.kind in USABLE_TYPES }

  function UsableOf(ds: seq<Desc>): seq<Desc> {
    if ds == [] then []
    else
      var rest, last := UsableOf(ds[..|ds| - 1]), ds[|ds| - 1];
      if Usable(last) then rest + [last] else rest
  }

  // ----- One descriptor -----

  predicate Touches(a: MemArea, d: Desc) { a.start == d.End() || a.start + a.size == d.start }

  /** The first area from i on that the descriptor touches. */
  function Match(t: seq<MemArea>, d: Desc, i: nat): (k: nat)
    requires i <= |t|
    ensures i <= k <= |t| && (k < |t| ==> Touches(t[k], d)) && forall j :: i <= j < k ==> !Touches(t[j], d)
    decreases |t| - i
  {
    if i == |t| || Touches(t[i], d) then i else Match(t, d, i + 1)
  }

  /** The table after `insert_desc`: in the first case the start moves, but the size stays. */
  function Insert(t: seq<MemArea>, d: Desc): seq<MemArea> {
    var k := Match(t, d, 0);
    if k == |t| then t + [d.Area()]
    else if t[k].start == d.End() then t[k := MemArea(d.start, t[k].size)]
    else t[k := MemArea(t[k].start, t[k].size + d.Size())]
  }

  predicate Prepends(t: seq<MemArea>, d: Desc) {
    var k := Match(t, d, 0);
    k < |t| && t[k].start == d.End()
  }

  ghost predicate InTable(t: seq<MemArea>, p: int) { InSome(t, |t|, p) }

  ghost predicate InDesc(d: Desc, p: int) { d.start <= p < d.End() }

  ghost predicate InDescs(ds: seq<Desc>, p: int) { exists i :: 0 <= i < |ds| && InDesc(ds[i], p) }

  /** Whole pages, pairwise apart, and nothing but memory of the descriptors. */
  ghost predicate Sound(t: seq<MemArea>, ds: seq<Desc>) {
    && Disjoint(t)
    && WholePages(t)
    && forall p :: InTable(t, p) ==> InDescs(ds, p)
  }

  ghost predicate WholePages(t: seq<MemArea>) {
    forall i ::
      0 <= i < |t| ==> t[i].size > 0 && t[i].size % PAGE == 0 && t[i].start % PAGE == 0 && t[i].start + t[i].size < U64
  }

  ghost predicate Exact(t: seq<MemArea>, ds: seq<Desc>) {
    forall p :: InTable(t, p) <==> InDescs(ds, p)
  }

  /** A descriptor that is apart from those before is apart from the table. */
  lemma ApartFromTable(t: seq<MemArea>, ds: seq<Desc>, d: Desc, j: nat)
    requires Sound(t, ds) && Mapped(ds + [d]) && j < |t|
    ensures Apart(t[j], d.Area())
  {
    hide Mapped, Disjoint, InDescs;
    NotEmpty(ds, d);
    var p := if t[j].start < d.start then d.start else t[j].start;
    if t[j].start <= p < t[j].start + t[j].size {
      assert InTable(t, p);
      OnlyOnce(ds, d, p);
    }
  }

  /** Exactly what one insertion covers: the table and the descriptor, but when it goes in front of an
      area, without as many bytes at that area's end. */
  lemma InsertCovers(t: seq<MemArea>, ds: seq<Desc>, d: Desc, p: int)
    requires Sound(t, ds) && Mapped(ds + [d])
    ensures var k := Match(t, d, 0);
      InTable(Insert(t, d), p) <==>
        (InTable(t, p) || InDesc(d, p))
          && !(Prepends(t, d) && t[k].start + t[k].size - d.Size() <= p < t[k].start + t[k].size)
  {
    var k, t' := Match(t, d, 0), Insert(t, d);
    var all := ds + [d];
    assert all[|ds|] == d;
    forall j | 0 <= j < |t| ensures Apart(t[j], d.Area()) { ApartFromTable(t, ds, d, j); }
    if k == |t| {
      assert t'[k] == d.Area();
      assert forall j :: 0 <= j < |t| ==> t'[j] == t[j];
    } else {
      forall j | 0 <= j < |t| && j != k ensures Apart(t[j], t[k]) { ApartAt(t, j, k); }
      InUpdated(t, k, t'[k], p);
    }
  }

  lemma InUpdated(t: seq<MemArea>, k: nat, a: MemArea, p: int)
    requires k < |t| && forall j :: 0 <= j < |t| && j != k ==> Apart(t[j], t[k])
    ensures InTable(t[k := a], p) <==>
      a.start <= p < a.start + a.size || (InTable(t, p) && !(t[k].start <= p < t[k].start + t[k].size))
  {
    var t' := t[k := a];
    if InTable(t', p) {
      var j :| 0 <= j < |t'| && t'[j].start <= p < t'[j].start + t'[j].size;
      assert j != k ==> t[j] == t'[j];
    }
    if a.start <= p < a.start + a.size { assert t'[k] == a; }
    if InTable(t, p) && !(t[k].start <= p < t[k].start + t[k].size) {
      var j :| 0 <= j < |t| && t[j].start <= p < t[j].start + t[j].size;
      assert t'[j] == t[j];
    }
  }

  lemma InsertApart(t: seq<MemArea>, ds: seq<Desc>, d: Desc)
    requires Sound(t, ds) && Mapped(ds + [d])
    ensures Disjoint(Insert(t, d))
    ensures WholePages(Insert(t, d))
  {
    hide Disjoint, InTable, InDescs;
    var all, k, t' := ds + [d], Match(t, d, 0), Insert(t, d);
    assert all[|ds|] == d;
    forall j | 0 <= j < |t| ensures Apart(t[j], d.Area()) { ApartFromTable(t, ds, d, j); }
    if k == |t| {
      DisjointAppend(t, d.Area());
    } else {
      forall j | 0 <= j < |t| && j != k ensures Apart(t[j], t'[k]) { ApartAt(t, j, k); }
      DisjointUpdate(t, k, t'[k]);
    }
  }

  lemma ApartAt(t: seq<MemArea>, i: nat, j: nat)
    requires Disjoint(t) && i < |t| && j < |t| && i != j
    ensures Apart(t[i], t[j])
  {
    assert if i < j then Apart(t[i], t[j]) else Apart(t[j], t[i]);
  }

  lemma DisjointAppend(t: seq<MemArea>, a: MemArea)
    requires Disjoint(t) && forall j :: 0 <= j < |t| ==> Apart(t[j], a)
    ensures Disjoint(t + [a])
  {
  }

  lemma DisjointUpdate(t: seq<MemArea>, k: nat, a: MemArea)
    requires k < |t| && Disjoint(t) && forall j :: 0 <= j < |t| && j != k ==> Apart(t[j], a)
    ensures Disjoint(t[k := a])
  {
  }

  lemma InsertSound(t: seq<MemArea>, ds: seq<Desc>, d: Desc)
    requires Sound(t, ds) && Mapped(ds + [d])
    ensures Sound(Insert(t, d), ds + [d])
  {
    hide Insert, Mapped, Disjoint;
    InsertApart(t, ds, d);
    forall p | InTable(Insert(t, d), p) ensures InDescs(ds + [d], p) {
      InsertCovers(t, ds, d, p);
      MoreDescs(ds, d, p);
    }
  }

  lemma MoreDescs(ds: seq<Desc>, d: Desc, p: int)
    ensures InDescs(ds + [d], p) <==> InDescs(ds, p) || InDesc(d, p)
  {
    var all := ds + [d];
    assert all[|ds|] == d && forall i :: 0 <= i < |ds| ==> all[i] == ds[i];
  }

  // ----- The whole map -----

  function Filled(ds: seq<Desc>): seq<MemArea> {
    if ds == [] then [] else Insert(Filled(ds[..|ds| - 1]), ds[|ds| - 1])
  }

  lemma Split(ds: seq<Desc>)
    requires ds != []
    ensures ds == ds[..|ds| - 1] + [ds[|ds| - 1]] && (Mapped(ds) ==> Mapped(ds[..|ds| - 1]))
  {
  }

  /** Whatever the order of the memory map, the table is sound. */
  lemma {:induction false} AnyOrderSound(ds: seq<Desc>)
    requires Mapped(ds)
    ensures Sound(Filled(ds), ds)
  {
    hide Insert, Mapped, Sound;
    if ds == [] {
      NothingFilled();
    } else {
      Split(ds);
      AnyOrderSound(ds[..|ds| - 1]);
      InsertSound(Filled(ds[..|ds| - 1]), ds[..|ds| - 1], ds[|ds| - 1]);
    }
  }

  lemma NothingFilled()
    ensures Sound(Filled([]), []) && Exact(Filled([]), [])
  {
  }

  /** No descriptor was put in front of an area. */
  ghost predicate NothingPrepended(ds: seq<Desc>) {
    forall k :: 0 <= k < |ds| ==> !Prepends(Filled(ds[..k]), ds[k])
  }

  /** The table covers the descriptors exactly when no descriptor was put in front of an area: what is
      lost then never comes back. */
  lemma {:induction false} ExactUnlessPrepended(ds: seq<Desc>)
    requires Mapped(ds)
    ensures Exact(Filled(ds), ds) <==> NothingPrepended(ds)
  {
    hide Insert, Prepends, Sound, Mapped, InTable, InDescs, Filled;
    if ds == [] {
      NothingFilled();
    } else {
      var rest, d := ds[..|ds| - 1], ds[|ds| - 1];
      Split(ds);
      ExactUnlessPrepended(rest);
      AnyOrderSound(rest);
      PrependedSplit(ds);
      FilledSplit(ds);
      ExactStep(Filled(rest), rest, d);
    }
  }

  lemma FilledSplit(ds: seq<Desc>)
    requires ds != []
    ensures Filled(ds) == Insert(Filled(ds[..|ds| - 1]), ds[|ds| - 1])
  {
  }

  lemma PrependedSplit(ds: seq<Desc>)
    requires ds != []
    ensures NothingPrepended(ds) <==>
      NothingPrepended(ds[..|ds| - 1]) && !Prepends(Filled(ds[..|ds| - 1]), ds[|ds| - 1])
  {
    hide Filled, Prepends;
    var n, rest := |ds|, ds[..|ds| - 1];
    assert forall k :: 0 <= k < n - 1 ==> ds[..k] == rest[..k] && rest[k] == ds[k];
    if NothingPrepended(rest) && !Prepends(Filled(rest), ds[n - 1]) {
      forall k | 0 <= k < n ensures !Prepends(Filled(ds[..k]), ds[k]) {
        if k < n - 1 { assert ds[..k] == rest[..k] && rest[k] == ds[k]; }
      }
    }
  }

  lemma ExactStep(t: seq<MemArea>, ds: seq<Desc>, d: Desc)
    requires Sound(t, ds) && Mapped(ds + [d])
    ensures Exact(Insert(t, d), ds + [d]) <==> Exact(t, ds) && !Prepends(t, d)
  {
    hide Insert, Disjoint, InTable, InDescs, Mapped;
    forall p ensures InDescs(ds + [d], p) <==> InDescs(ds, p) || InDesc(d, p) { MoreDescs(ds, d, p); }
    if !Exact(t, ds) {
      var p :| InDescs(ds, p) && !InTable(t, p);
      OnlyOnce(ds, d, p);
      InsertCovers(t, ds, d, p);
    } else if Prepends(t, d) {
      var k := Match(t, d, 0);
      var p := t[k].start + t[k].size - 1;
      LastByte(t, ds, d, k);
      InsertCovers(t, ds, d, p);
    } else {
      forall p ensures InTable(Insert(t, d), p) <==> InDescs(ds + [d], p) { InsertCovers(t, ds, d, p); }
    }
  }

  lemma LastByte(t: seq<MemArea>, ds: seq<Desc>, d: Desc, k: nat)
    requires Sound(t, ds) && Mapped(ds + [d]) && k < |t|
    ensures InTable(t, t[k].start + t[k].size - 1) && d.Size() > 0
  {
    var all := ds + [d];
    assert all[|ds|] == d;
  }

  lemma NotEmpty(ds: seq<Desc>, d: Desc)
    requires Mapped(ds + [d])
    ensures d.pages > 0
  {
    var all := ds + [d];
    assert all[|ds|] == d;
  }

  lemma OnlyOnce(ds: seq<Desc>, d: Desc, p: int)
    requires Mapped(ds + [d]) && InDescs(ds, p)
    ensures !InDesc(d, p)
  {
    var all := ds + [d];
    var i :| 0 <= i < |ds| && InDesc(ds[i], p);
    assert all[i] == ds[i] && all[|ds|] == d;
    assert Apart(all[i].Area(), all[|ds|].Area());
  }

  /** Two neighbouring pages, the upper one first: the upper one is lost. */
  lemma PrependLoses()
    ensures var ds := [Desc(ConventionalMemory, 0x2000, 1), Desc(ConventionalMemory, 0x1000, 1)];
      Mapped(ds) && Filled(ds) == [MemArea(0x1000, 0x1000)] && InDescs(ds, 0x2000) && !InTable(Filled(ds), 0x2000)
  {
    var d, e := Desc(ConventionalMemory, 0x2000, 1), Desc(ConventionalMemory, 0x1000, 1);
    var ds := [d, e];
    assert ds[..1] == [d] && [d][..0] == [];
    assert Filled([d]) == [d.Area()];
    assert InDesc(ds[0], 0x2000);
    assert Filled(ds) == [MemArea(0x1000, 0x1000)];
  }

  // ----- In ascending order -----

  ghost predicate Ascending(ds: seq<Desc>) {
    forall i, j :: 0 <= i < j < |ds| ==> ds[i].End() <= ds[j].start
  }

  /** In order, with a gap between any two areas. */
  ghost predicate Gaps(t: seq<MemArea>) {
    forall i, j :: 0 <= i < j < |t| ==> t[i].start + t[i].size < t[j].start
  }

  ghost predicate EndsWith(t: seq<MemArea>, ds: seq<Desc>) {
    |t| > 0 ==> |ds| > 0 && t[|t| - 1].start + t[|t| - 1].size == ds[|ds| - 1].End()
  }

  /** A map in ascending order is covered exactly, with no two areas next to each other. */
  lemma {:induction false} AscendingExact(ds: seq<Desc>)
    requires Mapped(ds) && Ascending(ds)
    ensures Exact(Filled(ds), ds) && Gaps(Filled(ds)) && NothingPrepended(ds)
  {
    hide Mapped, Ascending, Exact, Gaps, EndsWith, NothingPrepended, Filled;
    AscendingGaps(ds);
    ExactUnlessPrepended(ds);
  }

  lemma {:induction false} AscendingGaps(ds: seq<Desc>)
    requires Mapped(ds) && Ascending(ds)
    ensures Gaps(Filled(ds)) && EndsWith(Filled(ds), ds) && NothingPrepended(ds)
  {
    hide Insert, Mapped, Gaps, EndsWith, NothingPrepended, Filled;
    if ds == [] {
      NoGaps();
    } else {
      var rest, d := ds[..|ds| - 1], ds[|ds| - 1];
      Split(ds);
      AscendingGaps(rest);
      AnyOrderSound(rest);
      PrependedSplit(ds);
      FilledSplit(ds);
      GapStep(Filled(rest), rest, d);
    }
  }

  lemma NoGaps()
    ensures Gaps(Filled([])) && EndsWith(Filled([]), []) && NothingPrepended([])
  {
  }

  lemma GapStep(t: seq<MemArea>, ds: seq<Desc>, d: Desc)
    requires Sound(t, ds) && Mapped(ds + [d]) && Ascending(ds + [d]) && Gaps(t) && EndsWith(t, ds)
    ensures Gaps(Insert(t, d)) && EndsWith(Insert(t, d), ds + [d]) && !Prepends(t, d)
  {
    hide Disjoint, InTable, InDescs, Gaps;
    var all, n := ds + [d], |t|;
    assert all[|ds|] == d;
    if n > 0 {
      assert all[|ds| - 1] == ds[|ds| - 1];
      OnlyTheLast(t, d);
      if Match(t, d, 0) == n { GapsAppend(t, d.Area()); } else { GapsExtend(t, d.Size()); }
    } else {
      NoGapsOne(d.Area());
    }
  }

  /** A descriptor from the end of the table on touches at most the last area, from above. */
  lemma OnlyTheLast(t: seq<MemArea>, d: Desc)
    requires Gaps(t) && WholePages(t) && |t| > 0 && t[|t| - 1].start + t[|t| - 1].size <= d.start && d.pages > 0
    ensures var k := Match(t, d, 0);
      if t[|t| - 1].start + t[|t| - 1].size == d.start then k == |t| - 1 && t[k].start != d.End() else k == |t|
  {
    assert forall j :: 0 <= j < |t| - 1 ==> t[j].start + t[j].size < t[|t| - 1].start;
    assert forall j :: 0 <= j < |t| - 1 ==> !Touches(t[j], d);
  }

  lemma GapsAppend(t: seq<MemArea>, a: MemArea)
    requires Gaps(t) && |t| > 0 && WholePages(t) && t[|t| - 1].start + t[|t| - 1].size < a.start
    ensures Gaps(t + [a])
  {
  }

  lemma GapsExtend(t: seq<MemArea>, n: nat)
    requires Gaps(t) && |t| > 0
    ensures Gaps(t[|t| - 1 := MemArea(t[|t| - 1].start, t[|t| - 1].size + n)])
  {
  }

  lemma NoGapsOne(a: MemArea)
    ensures Gaps([] + [a])
  {
  }

  // ----- What the table is for -----

  /** A table that was filled passes `is_core_header_ram_areas_valid` and every check of a store, and its
      areas are apart as storing and switching need it. */
  lemma FilledServes(ds: seq<Desc>, h: DumpHeader, vector: nat)
    requires Mapped(ds) && |Filled(ds)| <= MAX_RAM_AREAS
    ensures WholeSectors(Filled(ds)) && Disjoint(Filled(ds))
    ensures forall i ::
      0 <= i < |Filled(ds)| ==> Filled(ds)[i].size != 0 && Filled(ds)[i].start < U64 && Filled(ds)[i].size < U64
    ensures Describes(h, Filled(ds), vector) && vector != 0 && Filled(ds) != [] ==> Accepted(h, Filled(ds))
  {
    hide Filled, InTable, InDescs, Mapped, SectorOf;
    AnyOrderSound(ds);
    var t := Filled(ds);
    forall i | 0 <= i < |t| ensures t[i].size % SECTOR == 0 { PagesAreSectors(t[i].size); }
    if Describes(h, t, vector) { DescribedIsAccepted(h, t, vector); }
  }

  lemma PagesAreSectors(n: nat)
    requires n % PAGE == 0
    ensures n % SECTOR == 0
  {
    assert n == PAGE * (n / PAGE) == SECTOR * (8 * (n / PAGE));
  }

  // ----- The code -----

  /** `is_memory_desc_usable`: what a system may use as memory, or runs on. */
  method IsMemoryDescUsable(d: Desc) returns (usable: bool)
    ensures usable <==> Usable(d)
    ensures usable <==>
      || d.kind == LoaderCode || d.kind == LoaderData || d.kind == BootServicesCode || d.kind == BootServicesData
      || d.kind == ConventionalMemory || d.kind == ACPIReclaimMemory || d.kind == PersistentMemory
      || d.kind == RuntimeServicesCode || d.kind == RuntimeServicesData
  {
    UsableKinds(d);
    for i := 0 to |USABLE_TYPES|
      invariant d.kind !in USABLE_TYPES[..i]
    {
      if d.kind == USABLE_TYPES[i] { return true; }
    }
    usable := false;
  }

  /** `g_core_header.ram_areas` and its size. */
  class Table {
    const ramAreas: array<MemArea>
    var size: nat

    ghost predicate Valid() reads this { ramAreas.Length == MAX_RAM_AREAS && size <= MAX_RAM_AREAS }

    ghost function Contents(): seq<MemArea>
      reads this, ramAreas
      requires Valid()
    {
      ramAreas[..size]
    }

    constructor ()
      ensures Valid() && fresh(ramAreas) && Contents() == []
    {
      ramAreas := new MemArea[MAX_RAM_AREAS](_ => MemArea(0, 0));
      size := 0;
    }

    /** `insert_desc`. A full table refuses even a descriptor that would only extend an area. */
    method InsertDesc(d: Desc) returns (ok: bool)
      requires Valid()
      modifies this, ramAreas
      ensures Valid() && (ok <==> |old(Contents())| < MAX_RAM_AREAS)
      ensures Contents() == if ok then Insert(old(Contents()), d) else old(Contents())
    {
      ghost var t := Contents();
      if size >= ramAreas.Length { return false; }
      ok := true;
      for i := 0 to size
        invariant size == old(size) && ramAreas[..] == old(ramAreas[..]) && Match(t, d, i) == Match(t, d, 0)
      {
        var area := ramAreas[i];
        if area.start == d.End() {
          ramAreas[i] := MemArea(d.start, area.size);
          assert Contents() == t[i := MemArea(d.start, area.size)];
          return;
        } else if area.start + area.size == d.start {
          ramAreas[i] := MemArea(area.start, area.size + d.Size());
          assert Contents() == t[i := MemArea(area.start, area.size + d.Size())];
          return;
        }
      }
      ramAreas[size] := d.Area();
      size := size + 1;
      assert Contents() == t + [d.Area()];
    }

    /** `fill_ram_areas`, on the memory map that the firmware returned. */
    method FillRamAreas(memoryMap: seq<Desc>) returns (ok: bool)
      requires Valid() && Contents() == []
      modifies this, ramAreas
      ensures Valid()
      ensures ok ==> Contents() == Filled(UsableOf(memoryMap))
      ensures !ok ==>
        |Contents()| == MAX_RAM_AREAS
        && exists k :: 0 <= k < |memoryMap| && Usable(memoryMap[k]) && Contents() == Filled(UsableOf(memoryMap[..k]))
      ensures Mapped(memoryMap) ==> NoDevices(Contents(), memoryMap)
      ensures Mapped(memoryMap) && Ascending(memoryMap) && ok ==> AllMemory(Contents(), memoryMap)
    {
      hide Filled, Insert, NoDevices, AllMemory, Mapped, Ascending;
      if Mapped(memoryMap) {
        forall k: nat | k <= |memoryMap| ensures NoDevices(Filled(UsableOf(memoryMap[..k])), memoryMap) {
          DevicesLeftOut(memoryMap, k);
        }
        if Ascending(memoryMap) { MemoryCovered(memoryMap); }
      }
      NoneFilled();
      assert memoryMap[..0] == [];
      for i := 0 to |memoryMap|
        invariant Valid() && Contents() == Filled(UsableOf(memoryMap[..i]))
      {
        assert memoryMap[..i + 1][..i] == memoryMap[..i];
        var usable := IsMemoryDescUsable(memoryMap[i]);
        if !usable { continue; }
        assert UsableOf(memoryMap[..i + 1]) == UsableOf(memoryMap[..i]) + [memoryMap[i]];
        OneFilled(UsableOf(memoryMap[..i]), memoryMap[i]);
        ok := this.InsertDesc(memoryMap[i]);
        if !ok { return; }
      }
      assert memoryMap[..|memoryMap|] == memoryMap;
      ok := true;
    }
  }

  lemma NoneFilled()
    ensures Filled([]) == []
  {
  }

  lemma OneFilled(ds: seq<Desc>, d: Desc)
    ensures Filled(ds + [d]) == Insert(Filled(ds), d)
  {
    hide Insert;
    assert (ds + [d])[..|ds|] == ds;
  }

  lemma UsableKinds(d: Desc)
    ensures Usable(d) <==>
      || d.kind == LoaderCode || d.kind == LoaderData || d.kind == BootServicesCode || d.kind == BootServicesData
      || d.kind == ConventionalMemory || d.kind == ACPIReclaimMemory || d.kind == PersistentMemory
      || d.kind == RuntimeServicesCode || d.kind == RuntimeServicesData
  {
    assert USABLE_TYPES[0] == LoaderCode && USABLE_TYPES[1] == LoaderData && USABLE_TYPES[2] == BootServicesCode;
    assert USABLE_TYPES[3] == BootServicesData && USABLE_TYPES[4] == ConventionalMemory;
    assert USABLE_TYPES[5] == ACPIReclaimMemory && USABLE_TYPES[6] == PersistentMemory;
    assert USABLE_TYPES[7] == RuntimeServicesCode && USABLE_TYPES[8] == RuntimeServicesData;
  }

  /** No byte of what is not the system's to use: of reserved or broken memory, or of devices. */
  ghost predicate NoDevices(t: seq<MemArea>, ds: seq<Desc>) {
    forall i, p :: 0 <= i < |ds| && InDesc(ds[i], p) && InTable(t, p) ==>
      match ds[i].kind
      case ReservedMemoryType | UnusableMemory | ACPIMemoryNVS => false
      case MemoryMappedIO | MemoryMappedIOPortSpace | PalCode => false
      case _ => true
  }

  /** Every byte of what is. */
  ghost predicate AllMemory(t: seq<MemArea>, ds: seq<Desc>) {
    forall i, p :: 0 <= i < |ds| && InDesc(ds[i], p) && !InTable(t, p) ==>
      match ds[i].kind
      case LoaderCode | LoaderData | BootServicesCode | BootServicesData | ConventionalMemory => false
      case ACPIReclaimMemory | PersistentMemory | RuntimeServicesCode | RuntimeServicesData => false
      case _ => true
  }

  lemma NotBoth(ds: seq<Desc>, i: nat, j: nat, p: int)
    requires Mapped(ds) && i < j < |ds|
    ensures !(InDesc(ds[i], p) && InDesc(ds[j], p))
  {
    assert Apart(ds[i].Area(), ds[j].Area());
  }

  /** At whatever descriptor the filling stops, and in whatever order they come. */
  lemma DevicesLeftOut(ds: seq<Desc>, k: nat)
    requires Mapped(ds) && k <= |ds|
    ensures NoDevices(Filled(UsableOf(ds[..k])), ds)
  {
    hide Filled, Mapped, InDesc, InTable, Usable;
    var u := UsableOf(ds[..k]);
    var t := Filled(u);
    MappedPrefix(ds, k);
    UsableMapped(ds[..k]);
    AnyOrderSound(u);
    forall i, p | 0 <= i < |ds| && InDesc(ds[i], p) && InTable(t, p) ensures Usable(ds[i]) {
      assert InDescs(u, p);
      var j :| 0 <= j < |u| && InDesc(u[j], p);
      assert u[j] in ds[..k];
      var m :| 0 <= m < k && ds[m] == u[j];
      if i < m { NotBoth(ds, i, m, p); }
      if m < i { NotBoth(ds, m, i, p); }
    }
    forall i | 0 <= i < |ds| { UsableKinds(ds[i]); }
  }

  lemma MappedPrefix(ds: seq<Desc>, k: nat)
    requires Mapped(ds) && k <= |ds|
    ensures Mapped(ds[..k])
  {
  }

  lemma MemoryCovered(ds: seq<Desc>)
    requires Mapped(ds) && Ascending(ds)
    ensures AllMemory(Filled(UsableOf(ds)), ds)
  {
    hide Filled, Mapped, Ascending, InDesc, InTable, Gaps, NothingPrepended, Usable;
    var u := UsableOf(ds);
    UsableMapped(ds);
    AscendingExact(u);
    forall i, p | 0 <= i < |ds| && InDesc(ds[i], p) && Usable(ds[i]) ensures InTable(Filled(u), p) {
      assert ds[i] in u;
      var j :| 0 <= j < |u| && u[j] == ds[i];
      assert InDescs(u, p);
    }
    forall i | 0 <= i < |ds| { UsableKinds(ds[i]); }
  }

  /** The usable descriptors of a memory map are a memory map, in the same order. */
  lemma {:induction false} UsableMapped(memoryMap: seq<Desc>)
    requires Mapped(memoryMap)
    ensures Mapped(UsableOf(memoryMap)) && (Ascending(memoryMap) ==> Ascending(UsableOf(memoryMap)))
    ensures forall d :: d in UsableOf(memoryMap) <==> d in memoryMap && Usable(d)
  {
    hide Mapped, Ascending, Usable;
    if memoryMap == [] {
      NoDescs();
    } else {
      var rest, last := memoryMap[..|memoryMap| - 1], memoryMap[|memoryMap| - 1];
      Split(memoryMap);
      AscendingPart(rest, last);
      UsableMapped(rest);
      forall d ensures d in memoryMap <==> d in rest || d == last { }
      if Usable(last) { OneMoreMapped(rest, last, UsableOf(rest)); }
    }
  }

  lemma NoDescs()
    ensures Mapped([]) && Ascending([])
  {
  }

  lemma AscendingPart(ds: seq<Desc>, d: Desc)
    ensures Ascending(ds + [d]) ==> Ascending(ds)
  {
    var all := ds + [d];
    assert forall i :: 0 <= i < |ds| ==> all[i] == ds[i];
  }

  lemma OneMoreMapped(ds: seq<Desc>, d: Desc, u: seq<Desc>)
    requires Mapped(ds + [d]) && Mapped(u) && forall x :: x in u ==> x in ds
    ensures Mapped(u + [d]) && (Ascending(ds + [d]) && Ascending(u) ==> Ascending(u + [d]))
  {
    var all := ds + [d];
    assert all[|ds|] == d;
    forall i | 0 <= i < |u| ensures Apart(u[i].Area(), d.Area()) && (Ascending(all) ==> u[i].End() <= d.start) {
      assert u[i] in ds;
      var j :| 0 <= j < |ds| && ds[j] == u[i];
      assert all[j] == u[i];
    }
  }
}
