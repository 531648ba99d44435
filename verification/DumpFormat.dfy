/** The dump on disk (core/dump.c): the header in the first sectors, then one extent for each RAM
    area, one after the other. */
module DumpFormat {
  import opened Arith
  import opened Bytes

  const MAX_RAM_AREAS: nat := 64
  const DUMP_MAGIC: nat := 0xabcdef12
  const AREA_BYTES: nat := 24
  const HEADER_BYTES: nat := 2048
  const HEADER_SECTORS: nat := 4

  datatype MemArea = MemArea(start: nat, size: nat)
  datatype DiskArea = DiskArea(area: MemArea, sector: nat)

  /** `struct dump_header`. Of `areas`, only the first areasSize are in use. */
  datatype DumpHeader = DumpHeader(magic: nat, vector: nat, areasSize: nat, areas: seq<DiskArea>)

  ghost predicate InRange(h: DumpHeader) {
    && h.magic < U32 && h.vector < U32 && h.areasSize < U32 && |h.areas| == MAX_RAM_AREAS
    && forall i ::
       0 <= i < |h.areas| ==> h.areas[i].area.start < U64 && h.areas[i].area.size < U64 && h.areas[i].sector < U32
  }

  // ----- The bytes of a header -----

  function EncodeArea(d: DiskArea): (s: seq<byte>)
    ensures |s| == AREA_BYTES
  {
    Store(d.area.start, 8) + Store(d.area.size, 8) + Store(d.sector, 4) + Store(0, 4)
  }

  function DecodeArea(s: seq<byte>): DiskArea
    requires |s| == AREA_BYTES
  {
    DiskArea(MemArea(Load(s[..8]), Load(s[8..16])), Load(s[16..20]))
  }

  function EncodeAreas(areas: seq<DiskArea>): (s: seq<byte>)
    ensures |s| == AREA_BYTES * |areas|
  {
    if areas == [] then [] else EncodeAreas(areas[..|areas| - 1]) + EncodeArea(areas[|areas| - 1])
  }

  function Encode(h: DumpHeader): (s: seq<byte>)
    requires |h.areas| == MAX_RAM_AREAS
    ensures |s| == HEADER_BYTES
  {
    Store(h.magic, 4) + Store(h.vector, 4) + Store(h.areasSize, 4) + Store(0, 4) + EncodeAreas(h.areas)
      + seq(HEADER_BYTES - 16 - AREA_BYTES * MAX_RAM_AREAS, _ => 0)
  }

  function AreaBytes(s: seq<byte>, i: nat): (r: seq<byte>)
    requires |s| == HEADER_BYTES && i < MAX_RAM_AREAS
    ensures |r| == AREA_BYTES
  {
    s[AreaAt(i)..AreaAt(i) + AREA_BYTES]
  }

  function Decode(s: seq<byte>): (h: DumpHeader)
    requires |s| == HEADER_BYTES
    ensures |h.areas| == MAX_RAM_AREAS
  {
    DumpHeader(Load(s[..4]), Load(s[4..8]), Load(s[8..12]),
               seq(MAX_RAM_AREAS, i requires 0 <= i < MAX_RAM_AREAS => DecodeArea(AreaBytes(s, i))))
  }

  lemma DecodeEncodeArea(d: DiskArea)
    requires d.area.start < U64 && d.area.size < U64 && d.sector < U32
    ensures DecodeArea(EncodeArea(d)) == d
  {
    hide Store, Load, Pow256;
    Pow256Values();
    LoadStore(d.area.start, 8);
    LoadStore(d.area.size, 8);
    LoadStore(d.sector, 4);
    var s := EncodeArea(d);
    assert s[..8] == Store(d.area.start, 8) && s[8..16] == Store(d.area.size, 8) && s[16..20] == Store(d.sector, 4);
  }

  lemma {:induction false} EncodeAreasAt(areas: seq<DiskArea>, i: nat)
    requires i < |areas|
    ensures EncodeAreas(areas)[AREA_BYTES * i..AREA_BYTES * i + AREA_BYTES] == EncodeArea(areas[i])
  {
    var rest, last := areas[..|areas| - 1], EncodeArea(areas[|areas| - 1]);
    if i < |rest| {
      EncodeAreasAt(rest, i);
    }
    assert EncodeAreas(areas) == EncodeAreas(rest) + last;
  }

  /** A header written and read back is the same header. */
  lemma DecodeEncode(h: DumpHeader)
    requires InRange(h)
    ensures Decode(Encode(h)) == h
  {
    hide EncodeAreas, DecodeArea, EncodeArea, Store, Load, Pow256;
    Pow256Values();
    LoadStore(h.magic, 4);
    LoadStore(h.vector, 4);
    LoadStore(h.areasSize, 4);
    var s := Encode(h);
    assert s[..4] == Store(h.magic, 4) && s[4..8] == Store(h.vector, 4) && s[8..12] == Store(h.areasSize, 4);
    assert s[16..16 + AREA_BYTES * MAX_RAM_AREAS] == EncodeAreas(h.areas);
    forall i | 0 <= i < MAX_RAM_AREAS ensures DecodeArea(AreaBytes(s, i)) == h.areas[i] {
      EncodeAreasAt(h.areas, i);
      assert AreaBytes(s, i) == s[16..16 + AREA_BYTES * MAX_RAM_AREAS][AREA_BYTES * i..AREA_BYTES * i + AREA_BYTES];
      DecodeEncodeArea(h.areas[i]);
    }
    assert Decode(s).areas == h.areas;
  }

  // ----- One field of a header in memory -----

  const MAGIC_AT: nat := 0
  const VECTOR_AT: nat := 4
  const SIZE_AT: nat := 8

  function AreaAt(i: nat): nat { 16 + AREA_BYTES * i }

  /** The four bytes of the vector replaced, and nothing else. */
  function WithVector(s: seq<byte>, vector: nat): (r: seq<byte>)
    requires |s| == HEADER_BYTES
    ensures |r| == HEADER_BYTES
  {
    Overwrite(s, VECTOR_AT, Store(vector, 4))
  }

  /** A store inside the first 16 bytes leaves the areas alone. */
  lemma HeadLeavesAreas(s: seq<byte>, at: nat, what: seq<byte>)
    requires |s| == HEADER_BYTES && at + |what| <= 16
    ensures Decode(Overwrite(s, at, what)).areas == Decode(s).areas
  {
    hide Overwrite, DecodeArea;
    forall i | 0 <= i < MAX_RAM_AREAS ensures AreaBytes(Overwrite(s, at, what), i) == AreaBytes(s, i) {
      OverwriteApart(s, at, what, AreaAt(i), AreaAt(i) + AREA_BYTES);
    }
  }

  lemma HeadDecodes(s: seq<byte>, x: nat)
    requires |s| == HEADER_BYTES && x < U32
    ensures Decode(Overwrite(s, MAGIC_AT, Store(x, 4))) == Decode(s).(magic := x)
    ensures Decode(WithVector(s, x)) == Decode(s).(vector := x)
    ensures Decode(Overwrite(s, SIZE_AT, Store(x, 4))) == Decode(s).(areasSize := x)
  {
    hide Overwrite, Store, Load, Pow256, DecodeArea;
    HeadDecodesAt(s, MAGIC_AT, x);
    HeadDecodesAt(s, VECTOR_AT, x);
    HeadDecodesAt(s, SIZE_AT, x);
  }

  lemma HeadDecodesAt(s: seq<byte>, at: nat, x: nat)
    requires |s| == HEADER_BYTES && x < U32 && (at == MAGIC_AT || at == VECTOR_AT || at == SIZE_AT)
    ensures var h, r := Decode(s), Decode(Overwrite(s, at, Store(x, 4)));
      && r.areas == h.areas && r.magic == (if at == MAGIC_AT then x else h.magic)
      && r.vector == (if at == VECTOR_AT then x else h.vector)
      && r.areasSize == (if at == SIZE_AT then x else h.areasSize)
  {
    hide Overwrite, Store, Load, Pow256, DecodeArea;
    var r := Overwrite(s, at, Store(x, 4));
    Pow256Values();
    LoadStore(x, 4);
    HeadLeavesAreas(s, at, Store(x, 4));
    OverwriteHere(s, at, Store(x, 4));
    if at != MAGIC_AT { OverwriteApart(s, at, Store(x, 4), 0, 4); }
    if at != VECTOR_AT { OverwriteApart(s, at, Store(x, 4), 4, 8); }
    if at != SIZE_AT { OverwriteApart(s, at, Store(x, 4), 8, 12); }
    assert r[..4] == r[0..4] && s[..4] == s[0..4];
  }

  /** The three fields of area i stored; its padding stays. */
  function WithArea(s: seq<byte>, i: nat, d: DiskArea): (r: seq<byte>)
    requires |s| == HEADER_BYTES && i < MAX_RAM_AREAS
    ensures |r| == HEADER_BYTES
  {
    var a := Overwrite(s, AreaAt(i), Store(d.area.start, 8));
    var b := Overwrite(a, AreaAt(i) + 8, Store(d.area.size, 8));
    Overwrite(b, AreaAt(i) + 16, Store(d.sector, 4))
  }

  lemma WithAreaDecodes(s: seq<byte>, i: nat, d: DiskArea)
    requires |s| == HEADER_BYTES && i < MAX_RAM_AREAS && d.area.start < U64 && d.area.size < U64 && d.sector < U32
    ensures Decode(WithArea(s, i, d)) == Decode(s).(areas := Decode(s).areas[i := d])
  {
    hide WithArea, DecodeArea, Load;
    var r := WithArea(s, i, d);
    WithAreaThere(s, i, d);
    WithAreaApart(s, i, d, 0, 16);
    assert r[..4] == r[0..16][0..4] && s[..4] == s[0..16][0..4];
    assert r[4..8] == r[0..16][4..8] && s[4..8] == s[0..16][4..8];
    assert r[8..12] == r[0..16][8..12] && s[8..12] == s[0..16][8..12];
    forall j | 0 <= j < MAX_RAM_AREAS
      ensures DecodeArea(AreaBytes(r, j)) == if j == i then d else DecodeArea(AreaBytes(s, j))
    {
      if j != i { WithAreaApart(s, i, d, AreaAt(j), AreaAt(j) + AREA_BYTES); }
    }
    assert Decode(r).areas == Decode(s).areas[i := d];
  }

  lemma WithAreaApart(s: seq<byte>, i: nat, d: DiskArea, lo: nat, hi: nat)
    requires |s| == HEADER_BYTES && i < MAX_RAM_AREAS && lo <= hi <= |s|
      && (hi <= AreaAt(i) || AreaAt(i) + AREA_BYTES <= lo)
    ensures WithArea(s, i, d)[lo..hi] == s[lo..hi]
  {
    hide Overwrite, Store;
    var a := Overwrite(s, AreaAt(i), Store(d.area.start, 8));
    var b := Overwrite(a, AreaAt(i) + 8, Store(d.area.size, 8));
    OverwriteApart(s, AreaAt(i), Store(d.area.start, 8), lo, hi);
    OverwriteApart(a, AreaAt(i) + 8, Store(d.area.size, 8), lo, hi);
    OverwriteApart(b, AreaAt(i) + 16, Store(d.sector, 4), lo, hi);
  }

  lemma WithAreaThere(s: seq<byte>, i: nat, d: DiskArea)
    requires |s| == HEADER_BYTES && i < MAX_RAM_AREAS && d.area.start < U64 && d.area.size < U64 && d.sector < U32
    ensures DecodeArea(AreaBytes(WithArea(s, i, d), i)) == d
  {
    hide Overwrite, Store, Load, Pow256;
    var o := AreaAt(i);
    var a := Overwrite(s, o, Store(d.area.start, 8));
    var b := Overwrite(a, o + 8, Store(d.area.size, 8));
    var r := Overwrite(b, o + 16, Store(d.sector, 4));
    Pow256Values();
    LoadStore(d.area.start, 8);
    LoadStore(d.area.size, 8);
    LoadStore(d.sector, 4);
    OverwriteHere(s, o, Store(d.area.start, 8));
    OverwriteApart(a, o + 8, Store(d.area.size, 8), o, o + 8);
    OverwriteHere(a, o + 8, Store(d.area.size, 8));
    OverwriteApart(b, o + 16, Store(d.sector, 4), o, o + 8);
    OverwriteApart(b, o + 16, Store(d.sector, 4), o + 8, o + 16);
    OverwriteHere(b, o + 16, Store(d.sector, 4));
    SliceOfSlice(r, o, o + AREA_BYTES, 0, 8);
    SliceOfSlice(r, o, o + AREA_BYTES, 8, 16);
    SliceOfSlice(r, o, o + AREA_BYTES, 16, 20);
  }

  // ----- The layout -----

  /** Where the extent of area i begins, in bytes; for i == |table|, where the last one ends. */
  function ByteOf(table: seq<MemArea>, i: nat): nat
    requires i <= |table|
  {
    if i == 0 then HEADER_BYTES else ByteOf(table, i - 1) + table[i - 1].size
  }

  /** `next_sector` when `fill_dump_header` comes to area i. */
  function SectorOf(table: seq<MemArea>, i: nat): nat
    requires i <= |table|
  {
    if i == 0 then HEADER_SECTORS else SectorOf(table, i - 1) + table[i - 1].size / SECTOR
  }

  lemma FirstSector(table: seq<MemArea>)
    ensures SectorOf(table, 0) == HEADER_SECTORS
  {
  }

  lemma NextSector(table: seq<MemArea>, i: nat)
    requires i < |table|
    ensures SectorOf(table, i + 1) == SectorOf(table, i) + table[i].size / SECTOR
  {
  }

  ghost predicate WholeSectors(table: seq<MemArea>) {
    forall i :: 0 <= i < |table| ==> table[i].size > 0 && table[i].size % SECTOR == 0
  }

  lemma {:induction false} SectorBytes(table: seq<MemArea>, i: nat)
    requires i <= |table| && WholeSectors(table)
    ensures ByteOf(table, i) == SECTOR * SectorOf(table, i) && SectorOf(table, i) >= HEADER_SECTORS
  {
    if i > 0 { SectorBytes(table, i - 1); }
  }

  /** Extents are clear of the header, in order, and do not overlap. */
  lemma {:induction false} ExtentsInOrder(table: seq<MemArea>, i: nat, j: nat)
    requires i < j <= |table|
    ensures HEADER_BYTES <= ByteOf(table, i) && ByteOf(table, i) + table[i].size <= ByteOf(table, j)
    decreases j
  {
    if i < j - 1 { ExtentsInOrder(table, i, j - 1); }
    ExtentStart(table, i);
  }

  lemma NextExtent(table: seq<MemArea>, i: nat)
    requires i < |table|
    ensures ByteOf(table, i + 1) == ByteOf(table, i) + table[i].size && HEADER_BYTES <= ByteOf(table, i)
  {
    ExtentStart(table, i);
  }

  lemma {:induction false} ExtentStart(table: seq<MemArea>, i: nat)
    requires i <= |table|
    ensures HEADER_BYTES <= ByteOf(table, i)
  {
    if i > 0 { ExtentStart(table, i - 1); }
  }

  /** What the 32-bit fields can hold: every area is below 4 GiB, and every extent begins below sector 2^32. */
  ghost predicate Addressable(table: seq<MemArea>) {
    forall i :: 0 <= i < |table| ==> table[i].size < U32 && SectorOf(table, i) < U32
  }

  /** The header that describes the table, with a waking vector. */
  ghost predicate Describes(h: DumpHeader, table: seq<MemArea>, vector: nat) {
    && h.magic == DUMP_MAGIC && h.vector == vector && h.areasSize == |table| <= |h.areas| == MAX_RAM_AREAS
    && forall i {:trigger h.areas[i]} :: 0 <= i < |table| ==> h.areas[i] == DiskArea(table[i], SectorOf(table, i))
  }

  /** What `is_dump_header_valid` accepts. */
  ghost predicate Accepted(h: DumpHeader, table: seq<MemArea>) {
    && h.magic == DUMP_MAGIC && h.vector != 0 && h.areasSize != 0
    && h.areasSize == |table| <= |h.areas|
    && forall i {:trigger h.areas[i]} :: 0 <= i < |table| ==> h.areas[i].area.size != 0 && h.areas[i].area == table[i]
  }

  lemma DescribedIsAccepted(h: DumpHeader, table: seq<MemArea>, vector: nat)
    requires Describes(h, table, vector) && WholeSectors(table)
    ensures Accepted(h, table) <==> vector != 0 && |table| != 0
  {
  }

  // ----- Images -----

  ghost predicate InRam(table: seq<MemArea>, size: nat) {
    forall i :: 0 <= i < |table| ==> table[i].start + table[i].size <= size
  }

  /** No byte belongs to two areas. */
  ghost predicate Disjoint(table: seq<MemArea>) {
    forall i, j :: 0 <= i < j < |table| ==> Apart(table[i], table[j])
  }

  predicate Apart(a: MemArea, b: MemArea) { a.start + a.size <= b.start || b.start + b.size <= a.start }

  function Area(ram: seq<byte>, table: seq<MemArea>, i: nat): (s: seq<byte>)
    requires i < |table| && table[i].start + table[i].size <= |ram|
    ensures |s| == table[i].size
  {
    ram[table[i].start..table[i].start + table[i].size]
  }

  /** The extent of area i lies on the disk. */
  predicate ExtentFits(size: nat, table: seq<MemArea>, i: nat)
    requires i < |table|
  {
    ByteOf(table, i) + table[i].size <= size
  }

  function Extent(disk: seq<byte>, table: seq<MemArea>, i: nat): (s: seq<byte>)
    requires i < |table| && ExtentFits(|disk|, table, i)
    ensures |s| == table[i].size
  {
    disk[ByteOf(table, i)..ByteOf(table, i) + table[i].size]
  }

  /** The extents of the first n areas hold what is in memory, and the disk is otherwise as before but
      for its header sectors. */
  ghost predicate Stored(disk0: seq<byte>, disk: seq<byte>, ram: seq<byte>, table: seq<MemArea>, n: nat)
    requires n <= |table|
  {
    && |disk| == |disk0| && ByteOf(table, n) <= |disk| && InRam(table, |ram|)
    && (forall i :: 0 <= i < n ==> ExtentFits(|disk|, table, i) && Extent(disk, table, i) == Area(ram, table, i))
    && disk[ByteOf(table, n)..] == disk0[ByteOf(table, n)..]
  }

  lemma SameTail<T>(s: seq<T>, t: seq<T>, i: nat, j: nat)
    requires i <= j <= |s| == |t| && s[i..] == t[i..]
    ensures s[j..] == t[j..] == t[j..|t|]
  {
    assert s[j..] == s[i..][j - i..] && t[j..] == t[i..][j - i..];
  }

  lemma StoredStep(disk0: seq<byte>, disk: seq<byte>, ram: seq<byte>, table: seq<MemArea>, n: nat)
    requires n < |table| && Stored(disk0, disk, ram, table, n) && ByteOf(table, n) + table[n].size <= |disk|
    ensures table[n].start + table[n].size <= |ram|
    ensures Stored(disk0, Overwrite(disk, ByteOf(table, n), Area(ram, table, n)), ram, table, n + 1)
    ensures HEADER_BYTES <= |disk|
      && Overwrite(disk, ByteOf(table, n), Area(ram, table, n))[..HEADER_BYTES] == disk[..HEADER_BYTES]
  {
    hide Overwrite, ByteOf;
    var at, what := ByteOf(table, n), Area(ram, table, n);
    var disk' := Overwrite(disk, at, what);
    NextExtent(table, n);
    OverwriteHere(disk, at, what);
    OverwriteApart(disk, at, what, 0, HEADER_BYTES);
    OverwriteApart(disk, at, what, at + |what|, |disk|);
    SameTail(disk0, disk, at, at + |what|);
    assert at + |what| == ByteOf(table, n + 1);
    assert disk'[at + |what|..] == disk'[at + |what|..|disk|] && disk[at + |what|..] == disk[at + |what|..|disk|];
    assert disk'[..HEADER_BYTES] == disk'[0..HEADER_BYTES] && disk[..HEADER_BYTES] == disk[0..HEADER_BYTES];
    forall i | 0 <= i < n
      ensures ByteOf(table, i) + table[i].size <= |disk| && Extent(disk', table, i) == Area(ram, table, i)
    {
      ExtentsInOrder(table, i, n);
      OverwriteApart(disk, at, what, ByteOf(table, i), ByteOf(table, i) + table[i].size);
    }
  }

  // ----- The writes of a store, one after the other -----

  ghost predicate Fits(disk: seq<byte>, table: seq<MemArea>, k: nat)
    requires k <= |table|
  {
    forall i :: 0 <= i < k ==> ExtentFits(|disk|, table, i)
  }

  /** The disk after the first k area writes. */
  ghost function DiskAfter(disk0: seq<byte>, ram: seq<byte>, table: seq<MemArea>, k: nat): (disk: seq<byte>)
    requires k <= |table| && InRam(table, |ram|) && Fits(disk0, table, k)
    ensures |disk| == |disk0|
  {
    if k == 0 then disk0
    else
      assert ExtentFits(|disk0|, table, k - 1);
      Overwrite(DiskAfter(disk0, ram, table, k - 1), ByteOf(table, k - 1), Area(ram, table, k - 1))
  }

  lemma {:induction false} StoredAfter(disk0: seq<byte>, ram: seq<byte>, table: seq<MemArea>, k: nat)
    requires k <= |table| && InRam(table, |ram|) && Fits(disk0, table, k) && HEADER_BYTES <= |disk0|
    ensures Stored(disk0, DiskAfter(disk0, ram, table, k), ram, table, k)
    ensures DiskAfter(disk0, ram, table, k)[..HEADER_BYTES] == disk0[..HEADER_BYTES]
  {
    hide Overwrite, Stored, ByteOf, Area;
    if k > 0 {
      StoredAfter(disk0, ram, table, k - 1);
      assert Fits(disk0, table, k - 1);
      assert ExtentFits(|disk0|, table, k - 1);
      StoredStep(disk0, DiskAfter(disk0, ram, table, k - 1), ram, table, k - 1);
    } else {
      StoredNone(disk0, ram, table);
    }
  }

  lemma StoredNone(disk: seq<byte>, ram: seq<byte>, table: seq<MemArea>)
    requires InRam(table, |ram|) && HEADER_BYTES <= |disk|
    ensures Stored(disk, disk, ram, table, 0)
  {
  }

  /** The write of area i as the code makes it: sector number and length are 32-bit fields. */
  function AreaWritten(disk: seq<byte>, ram: seq<byte>, table: seq<MemArea>, i: nat): (r: seq<byte>)
    requires i < |table| && table[i].start + table[i].size <= |ram|
    requires SectorOf(table, i) % U32 * SECTOR + table[i].size % U32 <= |disk|
    ensures |r| == |disk|
  {
    Overwrite(disk, SectorOf(table, i) % U32 * SECTOR, ram[table[i].start..table[i].start + table[i].size % U32])
  }

  predicate TargetOnDisk(size: nat, table: seq<MemArea>, i: nat)
    requires i < |table|
  {
    SectorOf(table, i) % U32 * SECTOR + table[i].size % U32 <= size
  }

  ghost predicate Targets(disk: seq<byte>, table: seq<MemArea>, k: nat)
    requires k <= |table|
  {
    forall i :: 0 <= i < k ==> TargetOnDisk(|disk|, table, i)
  }

  /** The disk after the first k area writes as the code makes them. */
  ghost function WrittenAfter(disk0: seq<byte>, ram: seq<byte>, table: seq<MemArea>, k: nat): (disk: seq<byte>)
    requires k <= |table| && InRam(table, |ram|) && Targets(disk0, table, k)
    ensures |disk| == |disk0|
  {
    if k == 0 then disk0
    else
      assert TargetOnDisk(|disk0|, table, k - 1);
      AreaWritten(WrittenAfter(disk0, ram, table, k - 1), ram, table, k - 1)
  }

  /** With areas that the fields can hold they are the writes of whole areas to their extents. */
  lemma {:induction false} WrittenIsStored(disk0: seq<byte>, ram: seq<byte>, table: seq<MemArea>, k: nat)
    requires k <= |table| && InRam(table, |ram|) && WholeSectors(table) && Addressable(table)
    requires Targets(disk0, table, k)
    ensures Fits(disk0, table, k) && WrittenAfter(disk0, ram, table, k) == DiskAfter(disk0, ram, table, k)
  {
    hide Overwrite, ByteOf, SectorOf;
    if k > 0 {
      WrittenIsStored(disk0, ram, table, k - 1);
      SectorBytes(table, k - 1);
      assert TargetOnDisk(|disk0|, table, k - 1) && SectorOf(table, k - 1) < U32;
    }
  }

  /** It stores the area, whatever memory and disk hold, exactly when both fit in 32 bits. */
  lemma WrittenWhole(table: seq<MemArea>, i: nat, ramSize: nat, diskSize: nat)
    requires i < |table| && WholeSectors(table) && InRam(table, ramSize) && ExtentFits(diskSize, table, i)
    ensures SectorOf(table, i) % U32 * SECTOR + table[i].size % U32 <= diskSize
    ensures (forall ram: seq<byte>, disk: seq<byte> :: |ram| == ramSize && |disk| == diskSize ==>
               Extent(AreaWritten(disk, ram, table, i), table, i) == Area(ram, table, i))
            <==> table[i].size < U32 && SectorOf(table, i) < U32
  {
    hide AreaWritten, Extent, Area, ByteOf, SectorOf, WholeSectors;
    TargetFits(table, i, diskSize);
    if table[i].size < U32 && SectorOf(table, i) < U32 {
      forall ram: seq<byte>, disk: seq<byte> | |ram| == ramSize && |disk| == diskSize
        ensures Extent(AreaWritten(disk, ram, table, i), table, i) == Area(ram, table, i)
      {
        WrittenHere(table, i, ram, disk);
      }
    } else {
      var ram, disk := Repeated(ramSize, 1), Repeated(diskSize, 0);
      WrittenElsewhere(table, i, ram, disk);
    }
  }

  function Repeated(n: nat, b: byte): (s: seq<byte>)
    ensures |s| == n && forall i :: 0 <= i < n ==> s[i] == b
  {
    seq(n, _ => b)
  }

  lemma TargetFits(table: seq<MemArea>, i: nat, diskSize: nat)
    requires i < |table| && WholeSectors(table) && ExtentFits(diskSize, table, i)
    ensures SectorOf(table, i) % U32 * SECTOR + table[i].size % U32 <= diskSize
  {
    hide ByteOf, SectorOf;
    SectorBytes(table, i);
  }

  lemma WrittenHere(table: seq<MemArea>, i: nat, ram: seq<byte>, disk: seq<byte>)
    requires i < |table| && WholeSectors(table) && InRam(table, |ram|) && ExtentFits(|disk|, table, i)
    requires table[i].size < U32 && SectorOf(table, i) < U32
    ensures SectorOf(table, i) % U32 * SECTOR + table[i].size % U32 <= |disk|
    ensures Extent(AreaWritten(disk, ram, table, i), table, i) == Area(ram, table, i)
  {
    hide Overwrite, ByteOf, SectorOf;
    SectorBytes(table, i);
    OverwriteHere(disk, ByteOf(table, i), Area(ram, table, i));
  }

  /** Otherwise the last byte of the extent keeps what the disk held. */
  lemma WrittenElsewhere(table: seq<MemArea>, i: nat, ram: seq<byte>, disk: seq<byte>)
    requires i < |table| && WholeSectors(table) && InRam(table, |ram|) && ExtentFits(|disk|, table, i)
    requires table[i].size >= U32 || SectorOf(table, i) >= U32
    requires (forall p :: 0 <= p < |ram| ==> ram[p] == 1) && forall p :: 0 <= p < |disk| ==> disk[p] == 0
    ensures SectorOf(table, i) % U32 * SECTOR + table[i].size % U32 <= |disk|
    ensures Extent(AreaWritten(disk, ram, table, i), table, i) != Area(ram, table, i)
  {
    hide Overwrite, ByteOf, SectorOf;
    SectorBytes(table, i);
    var at, start, size, n := ByteOf(table, i), table[i].start, table[i].size, table[i].size % U32;
    var to, last := SectorOf(table, i) % U32 * SECTOR, at + size - 1;
    assert last < to || to + n <= last;
    OverwriteByte(disk, to, ram[start..start + n], last);
    var w := AreaWritten(disk, ram, table, i);
    assert w[at..at + size][size - 1] == w[last] == 0;
    assert ram[start..start + size][size - 1] == 1;
  }

  /** Writing the header last leaves the extents alone. */
  lemma StoredHeader(disk0: seq<byte>, disk: seq<byte>, ram: seq<byte>, table: seq<MemArea>, what: seq<byte>)
    requires Stored(disk0, disk, ram, table, |table|) && |what| == HEADER_BYTES <= |disk|
    ensures Stored(disk0, Overwrite(disk, 0, what), ram, table, |table|)
    ensures Overwrite(disk, 0, what)[..HEADER_BYTES] == what
  {
    hide Overwrite, ByteOf;
    var disk' := Overwrite(disk, 0, what);
    OverwriteHere(disk, 0, what);
    assert disk'[..HEADER_BYTES] == disk'[0..HEADER_BYTES];
    ExtentStart(table, |table|);
    OverwriteApart(disk, 0, what, ByteOf(table, |table|), |disk|);
    SameTail(disk0, disk, ByteOf(table, |table|), ByteOf(table, |table|));
    assert disk'[ByteOf(table, |table|)..] == disk'[ByteOf(table, |table|)..|disk|];
    forall i | 0 <= i < |table|
      ensures ByteOf(table, i) + table[i].size <= |disk| && Extent(disk', table, i) == Area(ram, table, i)
    {
      ExtentStart(table, i);
      OverwriteApart(disk, 0, what, ByteOf(table, i), ByteOf(table, i) + table[i].size);
    }
  }

  /** What a store that reports success leaves is the image of memory. */
  ghost predicate StoresAll(ram: seq<byte>, disk0: seq<byte>, table: seq<MemArea>, header: seq<byte>)
    requires InRam(table, |ram|) && Targets(disk0, table, |table|) && |header| == HEADER_BYTES <= |disk0|
    requires Fits(disk0, table, |table|)
  {
    var disk := Overwrite(WrittenAfter(disk0, ram, table, |table|), 0, header);
    forall i :: 0 <= i < |table| ==> Extent(disk, table, i) == Area(ram, table, i)
  }

  lemma TargetsFit(disk: seq<byte>, table: seq<MemArea>)
    requires WholeSectors(table) && Fits(disk, table, |table|)
    ensures Targets(disk, table, |table|)
  {
    hide WholeSectors;
    forall i | 0 <= i < |table| ensures TargetOnDisk(|disk|, table, i) {
      assert ExtentFits(|disk|, table, i);
      TargetFits(table, i, |disk|);
    }
  }

  lemma AddressableStoresAll(ram: seq<byte>, disk0: seq<byte>, table: seq<MemArea>, header: seq<byte>)
    requires WholeSectors(table) && Addressable(table) && InRam(table, |ram|) && Fits(disk0, table, |table|)
    requires |header| == HEADER_BYTES <= |disk0| && Targets(disk0, table, |table|)
    ensures StoresAll(ram, disk0, table, header)
  {
    hide Overwrite, ByteOf, DiskAfter, WrittenAfter, Addressable, WholeSectors;
    WrittenIsStored(disk0, ram, table, |table|);
    StoredAfter(disk0, ram, table, |table|);
    StoredHeader(disk0, DiskAfter(disk0, ram, table, |table|), ram, table, header);
  }

  /** Memory that holds 1 in area i and 0 elsewhere. */
  function OnlyIn(table: seq<MemArea>, i: nat, size: nat): (ram: seq<byte>)
    requires i < |table|
    ensures |ram| == size
  {
    seq(size, p => if table[i].start <= p < table[i].start + table[i].size then 1 else 0)
  }

  /** Where the fields cannot hold area i, no write of the store brings its last byte to the disk. */
  lemma {:induction false} LastByteMissing(disk0: seq<byte>, table: seq<MemArea>, i: nat, ramSize: nat, k: nat)
    requires k <= |table| && i < |table| && InRam(table, ramSize) && Targets(disk0, table, k)
    requires WholeSectors(table) && Disjoint(table) && ExtentFits(|disk0|, table, i)
    requires table[i].size >= U32 || SectorOf(table, i) >= U32
    requires disk0[ByteOf(table, i) + table[i].size - 1] == 0
    ensures WrittenAfter(disk0, OnlyIn(table, i, ramSize), table, k)[ByteOf(table, i) + table[i].size - 1] == 0
  {
    hide Overwrite, ByteOf, SectorOf, Disjoint;
    if k > 0 {
      LastByteMissing(disk0, table, i, ramSize, k - 1);
      assert TargetOnDisk(|disk0|, table, k - 1);
      LastByteStep(WrittenAfter(disk0, OnlyIn(table, i, ramSize), table, k - 1), table, i, ramSize, k - 1);
    }
  }

  lemma LastByteStep(disk: seq<byte>, table: seq<MemArea>, i: nat, ramSize: nat, j: nat)
    requires i < |table| && j < |table| && InRam(table, ramSize) && TargetOnDisk(|disk|, table, j)
    requires WholeSectors(table) && Disjoint(table) && ExtentFits(|disk|, table, i)
    requires table[i].size >= U32 || SectorOf(table, i) >= U32
    requires disk[ByteOf(table, i) + table[i].size - 1] == 0
    ensures AreaWritten(disk, OnlyIn(table, i, ramSize), table, j)[ByteOf(table, i) + table[i].size - 1] == 0
  {
    hide Overwrite, ByteOf, SectorOf;
    var ram, last := OnlyIn(table, i, ramSize), ByteOf(table, i) + table[i].size - 1;
    var to, start, n := SectorOf(table, j) % U32 * SECTOR, table[j].start, table[j].size % U32;
    OverwriteByte(disk, to, ram[start..start + n], last);
    if j == i {
      SectorBytes(table, i);
      assert last < to || to + n <= last;
    } else if to <= last < to + n {
      assert Apart(table[i], table[j]) by { if i < j { } else { assert Apart(table[j], table[i]); } }
      assert ram[start..start + n][last - to] == ram[start + (last - to)] == 0;
    }
  }

  /** A store that reports success stores everything, whatever memory and disk held, exactly for the tables
      that its 32-bit fields can hold. */
  lemma StoresAllIff(table: seq<MemArea>, ramSize: nat, diskSize: nat, header: seq<byte>)
    requires WholeSectors(table) && Disjoint(table) && InRam(table, ramSize)
    requires |header| == HEADER_BYTES <= diskSize && forall i :: 0 <= i < |table| ==> ExtentFits(diskSize, table, i)
    ensures forall disk: seq<byte> :: |disk| == diskSize ==> Targets(disk, table, |table|)
    ensures (forall ram: seq<byte>, disk: seq<byte> :: |ram| == ramSize && |disk| == diskSize ==>
               StoresAll(ram, disk, table, header))
            <==> Addressable(table)
  {
    hide WholeSectors, Disjoint, StoresAll, WrittenAfter, ByteOf, SectorOf, TargetOnDisk;
    forall disk: seq<byte> | |disk| == diskSize ensures Targets(disk, table, |table|) {
      TargetsFit(disk, table);
    }
    if Addressable(table) {
      forall ram: seq<byte>, disk: seq<byte> | |ram| == ramSize && |disk| == diskSize
        ensures StoresAll(ram, disk, table, header)
      {
        AddressableStoresAll(ram, disk, table, header);
      }
    } else {
      var i :| 0 <= i < |table| && !(table[i].size < U32 && SectorOf(table, i) < U32);
      NotAllStored(table, i, ramSize, Repeated(diskSize, 0), header);
    }
  }

  lemma NotAllStored(table: seq<MemArea>, i: nat, ramSize: nat, disk: seq<byte>, header: seq<byte>)
    requires i < |table| && WholeSectors(table) && Disjoint(table) && InRam(table, ramSize)
    requires |header| == HEADER_BYTES <= |disk| && Fits(disk, table, |table|) && Targets(disk, table, |table|)
    requires table[i].size >= U32 || SectorOf(table, i) >= U32
    requires forall p :: 0 <= p < |disk| ==> disk[p] == 0
    ensures !StoresAll(OnlyIn(table, i, ramSize), disk, table, header)
  {
    hide Overwrite, ByteOf, SectorOf, Disjoint, WrittenAfter, TargetOnDisk;
    var ram, at, size := OnlyIn(table, i, ramSize), ByteOf(table, i), table[i].size;
    assert ExtentFits(|disk|, table, i) && size > 0;
    LastByteMissing(disk, table, i, ramSize, |table|);
    ExtentStart(table, i);
    var d := WrittenAfter(disk, ram, table, |table|);
    OverwriteByte(d, 0, header, at + size - 1);
    assert Extent(Overwrite(d, 0, header), table, i)[size - 1] == 0;
    assert Area(ram, table, i)[size - 1] == ram[table[i].start + size - 1] == 1;
  }

  /** Header last: if the disk held no dump before, then after any number k of the writes of a store
      it holds one only when all of them are done, and then every extent is the RAM area. The (n+1)-st
      write is that of the header. */
  lemma HeaderLast(disk0: seq<byte>, ram: seq<byte>, table: seq<MemArea>, header: seq<byte>, k: nat)
    requires k <= |table| + 1 && InRam(table, |ram|) && HEADER_BYTES <= |disk0| && |header| == HEADER_BYTES
    requires Fits(disk0, table, if k <= |table| then k else |table|)
    requires !Accepted(Decode(disk0[..HEADER_BYTES]), table)
    ensures var disk := if k <= |table| then DiskAfter(disk0, ram, table, k)
                        else Overwrite(DiskAfter(disk0, ram, table, |table|), 0, header);
      Accepted(Decode(disk[..HEADER_BYTES]), table) ==> k == |table| + 1 && Stored(disk0, disk, ram, table, |table|)
  {
    hide Overwrite, Stored, Decode, Accepted, DiskAfter;
    if k <= |table| {
      StoredAfter(disk0, ram, table, k);
    } else {
      StoredAfter(disk0, ram, table, |table|);
      StoredHeader(disk0, DiskAfter(disk0, ram, table, |table|), ram, table, header);
    }
  }

  ghost predicate ExtentsFrom(disk: seq<byte>, ram: seq<byte>, table: seq<MemArea>, k: nat)
    requires InRam(table, |ram|) && Fits(disk, table, |table|)
  {
    forall i :: k <= i < |table| ==> Extent(disk, table, i) == Area(ram, table, i)
  }

  /** After the first k area writes, a valid header means that all extents equal the RAM areas. */
  ghost predicate ConsistentAfter(disk0: seq<byte>, ram: seq<byte>, table: seq<MemArea>, k: nat)
    requires k <= |table| && InRam(table, |ram|) && Fits(disk0, table, |table|) && HEADER_BYTES <= |disk0|
  {
    hide DiskAfter;
    FitsFewer(disk0, table, k);
    var disk := DiskAfter(disk0, ram, table, k);
    Accepted(Decode(disk[..HEADER_BYTES]), table) ==> ExtentsFrom(disk, ram, table, 0)
  }

  lemma FitsFewer(disk: seq<byte>, table: seq<MemArea>, k: nat)
    requires k <= |table| && Fits(disk, table, |table|)
    ensures Fits(disk, table, k)
  {
  }

  /** Over an older dump of the same areas it is another matter. Every prefix of a store from the n-th
      write on is consistent exactly when the disk held no dump, or when the extents that are not yet
      written equal their areas anyway. */
  lemma OldHeaderCounts(disk0: seq<byte>, ram: seq<byte>, table: seq<MemArea>, n: nat)
    requires n <= |table| && InRam(table, |ram|) && Fits(disk0, table, |table|) && HEADER_BYTES <= |disk0|
    ensures (forall k :: n <= k <= |table| ==> ConsistentAfter(disk0, ram, table, k))
       <==> !Accepted(Decode(disk0[..HEADER_BYTES]), table) || ExtentsFrom(disk0, ram, table, n)
  {
    hide Decode, Accepted, ExtentsFrom, ConsistentAfter;
    forall k | n <= k <= |table|
      ensures ConsistentAfter(disk0, ram, table, k)
         <==> !Accepted(Decode(disk0[..HEADER_BYTES]), table) || ExtentsFrom(disk0, ram, table, k)
    {
      ConsistentIs(disk0, ram, table, k);
    }
    forall k | n <= k <= |table| ensures ExtentsFrom(disk0, ram, table, n) ==> ExtentsFrom(disk0, ram, table, k) {
      ExtentsFewer(disk0, ram, table, n, k);
    }
  }

  lemma ExtentsFewer(disk: seq<byte>, ram: seq<byte>, table: seq<MemArea>, n: nat, k: nat)
    requires n <= k && InRam(table, |ram|) && Fits(disk, table, |table|)
    ensures ExtentsFrom(disk, ram, table, n) ==> ExtentsFrom(disk, ram, table, k)
  {
  }

  lemma ConsistentIs(disk0: seq<byte>, ram: seq<byte>, table: seq<MemArea>, k: nat)
    requires k <= |table| && InRam(table, |ram|) && Fits(disk0, table, |table|) && HEADER_BYTES <= |disk0|
    ensures ConsistentAfter(disk0, ram, table, k)
       <==> !Accepted(Decode(disk0[..HEADER_BYTES]), table) || ExtentsFrom(disk0, ram, table, k)
  {
    hide DiskAfter, Decode, Accepted, ByteOf, Area, Overwrite;
    FitsFewer(disk0, table, k);
    StoredAfter(disk0, ram, table, k);
    var disk := DiskAfter(disk0, ram, table, k);
    forall i | k <= i < |table| ensures Extent(disk, table, i) == Extent(disk0, table, i) {
      UnwrittenExtent(disk0, disk, table, k, i);
    }
    forall i | 0 <= i < k ensures Extent(disk, table, i) == Area(ram, table, i) { }
  }

  lemma UnwrittenExtent(disk0: seq<byte>, disk: seq<byte>, table: seq<MemArea>, k: nat, i: nat)
    requires k <= i < |table| && |disk| == |disk0| && ByteOf(table, k) <= |disk| && ExtentFits(|disk|, table, i)
    requires disk[ByteOf(table, k)..] == disk0[ByteOf(table, k)..]
    ensures Extent(disk, table, i) == Extent(disk0, table, i)
  {
    hide ByteOf;
    if k < i { ExtentsInOrder(table, k, i); }
    var b, at, n := ByteOf(table, k), ByteOf(table, i), table[i].size;
    assert disk[at..at + n] == disk[b..][at - b..at - b + n] && disk0[at..at + n] == disk0[b..][at - b..at - b + n];
  }

  const TWO_AREAS: seq<MemArea> := [MemArea(0, 512), MemArea(512, 512)]

  function OldDump(): (disk: seq<byte>)
    ensures |disk| == HEADER_BYTES + 1024
  {
    Encode(DumpHeader(DUMP_MAGIC, 1, 2, [DiskArea(MemArea(0, 512), 4), DiskArea(MemArea(512, 512), 5)]
                      + seq(MAX_RAM_AREAS - 2, _ => DiskArea(MemArea(0, 0), 0))))
      + Repeated(1024, 0)
  }

  /** Two sectors of memory stored over an old dump: after the first write the disk still counts as a
      dump, and its second extent is not the second area. */
  lemma MixedImages()
    ensures var ram := Repeated(1024, 1);
      && InRam(TWO_AREAS, |ram|) && Fits(OldDump(), TWO_AREAS, 2) && !ConsistentAfter(OldDump(), ram, TWO_AREAS, 1)
  {
    var ram := Repeated(1024, 1);
    OldDumpAccepted();
    TwoExtents();
    hide OldDump, Decode, Accepted, ConsistentAfter, ByteOf;
    ConsistentIs(OldDump(), ram, TWO_AREAS, 1);
    assert Extent(OldDump(), TWO_AREAS, 1)[0] == 0 && Area(ram, TWO_AREAS, 1)[0] == 1;
  }

  lemma TwoExtents()
    ensures ByteOf(TWO_AREAS, 0) == 2048 && ByteOf(TWO_AREAS, 1) == 2560
    ensures OldDump()[2560] == 0 && Fits(OldDump(), TWO_AREAS, 2)
    ensures SectorOf(TWO_AREAS, 0) == 4 && SectorOf(TWO_AREAS, 1) == 5
  {
    hide Encode;
    assert ByteOf(TWO_AREAS, 1) == ByteOf(TWO_AREAS, 0) + TWO_AREAS[0].size;
    assert SectorOf(TWO_AREAS, 1) == SectorOf(TWO_AREAS, 0) + TWO_AREAS[0].size / SECTOR;
  }

  lemma OldDumpAccepted()
    ensures Accepted(Decode(OldDump()[..HEADER_BYTES]), TWO_AREAS)
  {
    var h := DumpHeader(DUMP_MAGIC, 1, 2, [DiskArea(MemArea(0, 512), 4), DiskArea(MemArea(512, 512), 5)]
                        + seq(MAX_RAM_AREAS - 2, _ => DiskArea(MemArea(0, 0), 0)));
    hide Encode, Decode;
    assert OldDump()[..HEADER_BYTES] == Encode(h);
    DecodeEncode(h);
  }

  // ----- Loading -----

  ghost predicate InSome(table: seq<MemArea>, n: nat, p: int)
    requires n <= |table|
  {
    exists j :: 0 <= j < n && table[j].start <= p < table[j].start + table[j].size
  }

  /** The first n areas hold their extents, and memory is otherwise as before. */
  ghost predicate Loaded(ram0: seq<byte>, ram: seq<byte>, disk: seq<byte>, table: seq<MemArea>, n: nat)
    requires n <= |table|
  {
    && |ram| == |ram0| && InRam(table, |ram|) && Fits(disk, table, n)
    && (forall i :: 0 <= i < n ==> Area(ram, table, i) == Extent(disk, table, i))
    && (forall p :: 0 <= p < |ram| && !InSome(table, n, p) ==> ram[p] == ram0[p])
  }

  lemma LoadedNone(ram: seq<byte>, disk: seq<byte>, table: seq<MemArea>)
    requires InRam(table, |ram|)
    ensures Loaded(ram, ram, disk, table, 0)
  {
  }

  lemma LoadStep(ram0: seq<byte>, ram: seq<byte>, disk: seq<byte>, table: seq<MemArea>, n: nat)
    requires n < |table| && Disjoint(table) && Loaded(ram0, ram, disk, table, n)
      && ByteOf(table, n) + table[n].size <= |disk|
    ensures table[n].start + table[n].size <= |ram|
    ensures Loaded(ram0, Overwrite(ram, table[n].start, Extent(disk, table, n)), disk, table, n + 1)
  {
    hide Overwrite, ByteOf, InSome;
    var at, what := table[n].start, Extent(disk, table, n);
    var ram' := Overwrite(ram, at, what);
    OverwriteBytes(ram, at, what);
    OverwriteHere(ram, at, what);
    forall i | 0 <= i < n ensures Area(ram', table, i) == Extent(disk, table, i) {
      assert Apart(table[i], table[n]);
      OverwriteApart(ram, at, what, table[i].start, table[i].start + table[i].size);
    }
    forall p | 0 <= p < |ram| && !InSome(table, n + 1, p) ensures ram'[p] == ram0[p] {
      NotInSome(table, n, p);
    }
  }

  lemma NotInSome(table: seq<MemArea>, n: nat, p: int)
    requires n < |table|
    ensures InSome(table, n + 1, p) <==> InSome(table, n, p) || table[n].start <= p < table[n].start + table[n].size
  {
  }
}
