/** Storing, loading and switching a dump (core/dump.c), over the block driver. Memory is one array
    of bytes: the RAM areas, the FACS, and core's own memory, of which the header on the stack and
    the switch buffer matter here. */
module Dump {
  import opened Arith
  import opened Bytes
  import opened DumpFormat
  import opened DumpSwitch
  import V = Virtio
  import opened VirtioBlk

  /** Offset of RSV1, the word of the FACS where the hooks keep the kernel's waking vector. */
  const RSV1: nat := 40
  const FACS_BYTES: nat := 64

  /** Memory that the areas have to leave alone. */
  ghost predicate AreasAvoid(table: seq<MemArea>, at: nat, size: nat) {
    forall i :: 0 <= i < |table| ==> Apart(table[i], MemArea(at, size))
  }

  /** Outside core's own memory nothing has changed. */
  ghost predicate SameOutsideCore(ram: seq<byte>, ram': seq<byte>, headerAt: nat, bufAt: nat) {
    && |ram'| == |ram|
    && forall p ::
       0 <= p < |ram| && !(headerAt <= p < headerAt + HEADER_BYTES) && !(bufAt <= p < bufAt + SWITCH_BUF_SIZE) ==>
       ram'[p] == ram[p]
  }

  class Core {
    const dev: VirtioBlk
    /** `g_core_header.ram_areas` and `.facs`. */
    const table: seq<MemArea>
    const facs: nat
    const headerAt: nat
    const bufAt: nat

    constructor (dev: VirtioBlk, table: seq<MemArea>, facs: nat, headerAt: nat, bufAt: nat)
      ensures this.dev == dev && this.table == table && this.facs == facs && this.headerAt == headerAt
        && this.bufAt == bufAt
    {
      this.dev, this.table, this.facs, this.headerAt, this.bufAt := dev, table, facs, headerAt, bufAt;
    }

    ghost predicate Valid()
      reads dev, dev.desc, dev.availRing, dev.usedRing, dev.ram, dev.disk
    {
      && dev.Idle()
      && |table| <= MAX_RAM_AREAS && InRam(table, dev.ram.Length) && Disjoint(table)
      && (forall i :: 0 <= i < |table| ==> table[i].start < U64 && table[i].size < U64)
      && facs + FACS_BYTES <= dev.ram.Length && headerAt + HEADER_BYTES <= dev.ram.Length
      && bufAt + SWITCH_BUF_SIZE <= dev.ram.Length
      && AreasAvoid(table, facs, FACS_BYTES) && AreasAvoid(table, headerAt, HEADER_BYTES)
      && AreasAvoid(table, bufAt, SWITCH_BUF_SIZE)
      && Apart(MemArea(headerAt, HEADER_BYTES), MemArea(bufAt, SWITCH_BUF_SIZE))
      && Apart(MemArea(headerAt, HEADER_BYTES), MemArea(facs, FACS_BYTES))
      && Apart(MemArea(bufAt, SWITCH_BUF_SIZE), MemArea(facs, FACS_BYTES))
    }

    /** Since h every request has had its block and its descriptors, and has been done. */
    ghost predicate AllServed(h: History)
      reads dev
    {
      Served(dev.size, dev.blocks, h, dev.Past())
    }

    ghost function Vector(): nat
      reads dev, dev.ram
      requires facs + FACS_BYTES <= dev.ram.Length
    {
      Load(dev.ram[facs + RSV1..facs + RSV1 + 4])
    }

    /** `find_original_waking_vector`. */
    method FindOriginalWakingVector() returns (ok: bool, vector: nat)
      requires Valid()
      ensures vector == Vector() < U32 && (ok <==> vector != 0)
    {
      Pow256Values();
      StoreLoad(dev.ram[facs + RSV1..facs + RSV1 + 4]);
      vector := Load(dev.ram[facs + RSV1..facs + RSV1 + 4]);
      ok := vector != 0;
    }

    /** The bytes of the header on the stack. */
    ghost function Header(): (s: seq<byte>)
      reads dev, dev.ram
      requires headerAt + HEADER_BYTES <= dev.ram.Length
      ensures |s| == HEADER_BYTES
    {
      dev.ram[..][headerAt..headerAt + HEADER_BYTES]
    }

    /** A store to a field of the header. */
    method SetField(at: nat, x: nat, size: nat)
      requires Valid() && at + size <= HEADER_BYTES
      modifies dev.ram
      ensures Valid() && dev.disk[..] == old(dev.disk[..]) && Vector() == old(Vector())
      ensures SameOutsideCore(old(dev.ram[..]), dev.ram[..], headerAt, bufAt)
      ensures Header() == Overwrite(old(Header()), at, Store(x, size))
    {
      hide VirtioBlk.Idle, Overwrite, Store, Load;
      dev.CpuWrite(headerAt + at, Store(x, size));
      FieldStored(old(dev.ram[..]), headerAt, bufAt, facs, at, Store(x, size));
      assert dev.ram[facs + RSV1..facs + RSV1 + 4] == dev.ram[..][facs + RSV1..facs + RSV1 + 4];
    }

    method SetArea(i: nat, d: DiskArea)
      requires Valid() && i < MAX_RAM_AREAS
      modifies dev.ram
      ensures Valid() && dev.disk[..] == old(dev.disk[..]) && Vector() == old(Vector())
      ensures SameOutsideCore(old(dev.ram[..]), dev.ram[..], headerAt, bufAt)
      ensures Header() == WithArea(old(Header()), i, d)
    {
      hide VirtioBlk.Idle, Overwrite, Store, Load;
      SetField(AreaAt(i), d.area.start, 8);
      SetField(AreaAt(i) + 8, d.area.size, 8);
      SetField(AreaAt(i) + 16, d.sector, 4);
    }

    /** The fields of `fill_dump_header` before the areas. */
    method FillHead() returns (ok: bool, vector: nat)
      requires Valid()
      modifies dev.ram
      ensures Valid() && dev.disk[..] == old(dev.disk[..]) && vector == Vector() == old(Vector())
        && (ok <==> vector != 0)
      ensures SameOutsideCore(old(dev.ram[..]), dev.ram[..], headerAt, bufAt)
      ensures ok ==> var h := Decode(Header()); h.magic == DUMP_MAGIC && h.vector == vector && h.areasSize == |table|
    {
      hide VirtioBlk.Idle, Decode, Load, Store, Overwrite, SameOutsideCore;
      ghost var ram0 := dev.ram[..];
      HeadDecodes(Header(), DUMP_MAGIC);
      SetField(MAGIC_AT, DUMP_MAGIC, 4);
      ok, vector := FindOriginalWakingVector();
      if !ok { return; }
      ghost var ram1 := dev.ram[..];
      HeadDecodes(Header(), vector);
      SetField(VECTOR_AT, vector, 4);
      ghost var ram2 := dev.ram[..];
      HeadDecodes(Header(), |table|);
      SetField(SIZE_AT, |table|, 4);
      SameTwice(ram0, ram1, ram2, headerAt, bufAt);
      SameTwice(ram0, ram2, dev.ram[..], headerAt, bufAt);
    }

    /** `fill_dump_header`, field by field: the rest of the header stays what the stack held. */
    method FillDumpHeader() returns (ok: bool)
      requires Valid()
      modifies dev.ram
      ensures Valid() && dev.disk[..] == old(dev.disk[..]) && Vector() == old(Vector())
      ensures SameOutsideCore(old(dev.ram[..]), dev.ram[..], headerAt, bufAt)
      ensures ok <==> Vector() != 0 && WholeSectors(table)
      ensures ok ==>
                var h := Decode(Header());
                LaidOut(h, table) && h.vector == Vector()
    {
      hide VirtioBlk.Idle, Decode, Load, Store, SectorOf, Overwrite, WithArea, SameOutsideCore;
      ghost var ram0 := dev.ram[..];
      FirstSector(table);
      var vector;
      ok, vector := FillHead();
      if !ok { return; }
      var nextSector := HEADER_SECTORS;
      for i := 0 to |table|
        invariant Valid() && dev.disk[..] == old(dev.disk[..]) && Vector() == old(Vector()) == vector
        invariant SameOutsideCore(ram0, dev.ram[..], headerAt, bufAt) && nextSector == SectorOf(table, i)
        invariant Decode(Header()).magic == DUMP_MAGIC && Decode(Header()).vector == vector
        invariant Decode(Header()).areasSize == |table|
        invariant forall j :: 0 <= j < i ==> table[j].size > 0 && table[j].size % SECTOR == 0
        invariant forall j :: 0 <= j < i ==> Decode(Header()).areas[j] == DiskArea(table[j], SectorOf(table, j) % U32)
      {
        NextSector(table, i);
        if table[i].size == 0 { return false; }
        if table[i].size % SECTOR != 0 { return false; }
        ghost var ram3 := dev.ram[..];
        WithAreaDecodes(Header(), i, DiskArea(table[i], nextSector % U32));
        SetArea(i, DiskArea(table[i], nextSector % U32));
        SameTwice(ram0, ram3, dev.ram[..], headerAt, bufAt);
        nextSector := nextSector + table[i].size / SECTOR;
      }
      ok := true;
    }

    /** `is_dump_header_valid`. An areas_size past the 64 entries is refused whatever lies behind them. */
    method IsDumpHeaderValid(h: DumpHeader) returns (ok: bool)
      requires |table| <= MAX_RAM_AREAS == |h.areas|
      ensures ok <==> Accepted(h, table)
    {
      if h.magic != DUMP_MAGIC { return false; }
      if h.vector == 0 { return false; }
      if h.areasSize == 0 { return false; }
      for i := 0 to h.areasSize
        invariant forall j :: 0 <= j < i && j < |h.areas| ==> h.areas[j].area.size != 0
      {
        if i < |h.areas| && h.areas[i].area.size == 0 { return false; }
      }
      if h.areasSize != |table| { return false; }
      for i := 0 to h.areasSize
        invariant forall j :: 0 <= j < i ==> table[j] == h.areas[j].area
      {
        if table[i].start != h.areas[i].area.start || table[i].size != h.areas[i].area.size { return false; }
      }
      ok := true;
    }

    /** `read_virtio_blk` and `consume_response_virtio_blk`: whatever happens, nothing else changes. */
    method ReadSectors(sector: nat, data: nat, bytes: nat) returns (ok: bool)
      requires Valid() && data + bytes % U32 <= dev.ram.Length
      modifies dev, dev.desc, dev.availRing, dev.usedRing, dev.ram, dev.disk
      ensures Valid() && dev.disk[..] == old(dev.disk[..])
      ensures Later(old(dev.Past()), dev.Past())
        && dev.asked == old(dev.asked) + if bytes % SECTOR == 0 then 1 else 0
      ensures ok <==> bytes % SECTOR == 0 && AllServed(old(dev.Past()))
      ensures ok ==>
        sector * SECTOR + bytes % U32 <= dev.disk.Length
        && dev.ram[..]
           == Overwrite(old(dev.ram[..]), data, dev.disk[..][sector * SECTOR..sector * SECTOR + bytes % U32])
      ensures V.SameOutside(old(dev.ram[..]), dev.ram[..], data, bytes % U32)
    {
      hide VirtioBlk.Idle, Overwrite, V.SameOutside, Served, Replied;
      ghost var ram0, disk0 := dev.ram[..], dev.disk[..];
      ok := dev.TransferSectors(V.In, sector, data, bytes);
      if ok {
        OverwriteOutside(ram0, data, disk0[sector * SECTOR..sector * SECTOR + bytes % U32]);
      } else {
        NothingInside(disk0, dev.disk[..], sector * SECTOR);
      }
    }

    /** `write_virtio_blk` and `consume_response_virtio_blk`. */
    method WriteSectors(sector: nat, data: nat, bytes: nat) returns (ok: bool)
      requires Valid() && data + bytes % U32 <= dev.ram.Length
      modifies dev, dev.desc, dev.availRing, dev.usedRing, dev.ram, dev.disk
      ensures Valid() && dev.ram[..] == old(dev.ram[..])
      ensures Later(old(dev.Past()), dev.Past())
        && dev.asked == old(dev.asked) + if bytes % SECTOR == 0 then 1 else 0
      ensures ok <==> bytes % SECTOR == 0 && AllServed(old(dev.Past()))
      ensures ok ==>
        sector * SECTOR + bytes % U32 <= dev.disk.Length
        && dev.disk[..] == Overwrite(old(dev.disk[..]), sector * SECTOR, dev.ram[..][data..data + bytes % U32])
      ensures V.SameOutside(old(dev.disk[..]), dev.disk[..], sector * SECTOR, bytes % U32)
    {
      hide VirtioBlk.Idle, Overwrite, V.SameOutside, Served, Replied;
      ghost var ram0, disk0 := dev.ram[..], dev.disk[..];
      ok := dev.TransferSectors(V.Out, sector, data, bytes);
      if ok {
        OverwriteOutside(disk0, sector * SECTOR, ram0[data..data + bytes % U32]);
      } else {
        NothingInside(ram0, dev.ram[..], data);
      }
    }

    /** `read_dump_header`. */
    method ReadDumpHeader() returns (ok: bool, h: DumpHeader)
      requires Valid()
      modifies dev, dev.desc, dev.availRing, dev.usedRing, dev.ram, dev.disk
      ensures Valid() && dev.disk[..] == old(dev.disk[..])
      ensures SameOutsideCore(old(dev.ram[..]), dev.ram[..], headerAt, bufAt)
      ensures h == Decode(Header())
      ensures Later(old(dev.Past()), dev.Past()) && dev.asked == old(dev.asked) + 1
      ensures ok <==> AllServed(old(dev.Past()))
      ensures ok ==> HEADER_BYTES <= dev.disk.Length && Header() == dev.disk[..HEADER_BYTES]
    {
      hide VirtioBlk.Idle, Overwrite, Decode;
      ok := ReadSectors(0, headerAt, HEADER_BYTES);
      h := Decode(dev.ram[headerAt..headerAt + HEADER_BYTES]);
      assert dev.ram[headerAt..headerAt + HEADER_BYTES] == dev.ram[..][headerAt..headerAt + HEADER_BYTES];
      if ok {
        OverwriteBytes(old(dev.ram[..]), headerAt, dev.disk[..HEADER_BYTES]);
        OverwriteHere(old(dev.ram[..]), headerAt, dev.disk[..HEADER_BYTES]);
        assert old(dev.disk[..])[0..HEADER_BYTES] == dev.disk[..HEADER_BYTES];
      }
    }

    /** `write_dump_header`. */
    method WriteDumpHeader() returns (ok: bool)
      requires Valid()
      modifies dev, dev.desc, dev.availRing, dev.usedRing, dev.ram, dev.disk
      ensures Valid() && dev.ram[..] == old(dev.ram[..])
      ensures Later(old(dev.Past()), dev.Past()) && (ok <==> AllServed(old(dev.Past())))
      ensures ok ==> HEADER_BYTES <= dev.disk.Length && dev.disk[..] == Overwrite(old(dev.disk[..]), 0, Header())
      ensures V.SameOutside(old(dev.disk[..]), dev.disk[..], 0, HEADER_BYTES)
      ensures dev.asked == old(dev.asked) + 1
    {
      hide VirtioBlk.Idle, Overwrite, V.SameOutside, Served, Later;
      ok := WriteSectors(0, headerAt, HEADER_BYTES);
    }

    /** The area writes of `disk_store_dump`, with areas and sectors of any size. */
    method StoreAreas(h: DumpHeader) returns (ok: bool, ghost k: nat)
      requires Valid() && LaidOut(h, table) && WholeSectors(table)
      modifies dev, dev.desc, dev.availRing, dev.usedRing, dev.ram, dev.disk
      ensures Valid() && dev.ram[..] == old(dev.ram[..])
      ensures Later(old(dev.Past()), dev.Past()) && (ok <==> AllServed(old(dev.Past())))
      ensures k <= |table| && Targets(old(dev.disk[..]), table, k)
      ensures dev.asked == old(dev.asked) + k + if ok then 0 else 1
      ensures ok ==> k == |table| && dev.disk[..] == WrittenAfter(old(dev.disk[..]), dev.ram[..], table, k)
      ensures !ok ==>
        k < |table|
        && V.SameOutside(WrittenAfter(old(dev.disk[..]), dev.ram[..], table, k), dev.disk[..],
          SectorOf(table, k) % U32 * SECTOR, table[k].size % U32)
    {
      hide VirtioBlk.Idle, Overwrite, V.SameOutside, WrittenAfter, SectorOf, Served;
      ghost var ram0, disk0, h0 := dev.ram[..], dev.disk[..], dev.Past();
      k := 0;
      WrittenNone(disk0, ram0, table);
      NothingAsked(dev.size, dev.blocks, h0);
      for i := 0 to h.areasSize
        invariant Valid() && dev.ram[..] == ram0 && k == i && Targets(disk0, table, i)
        invariant dev.disk[..] == WrittenAfter(disk0, ram0, table, i)
        invariant Later(h0, dev.Past()) && AllServed(h0) && dev.asked == old(dev.asked) + i
      {
        ghost var h1 := dev.Past();
        ok := WriteArea(h, i);
        ServedThen(dev.size, dev.blocks, h0, h1, dev.Past());
        if !ok {
          return;
        }
        WrittenStep(disk0, ram0, table, i);
        k := i + 1;
      }
      ok := true;
    }

    /** One turn of the loop, for areas and sectors of any size. */
    method WriteArea(h: DumpHeader, i: nat) returns (ok: bool)
      requires Valid() && i < |table| <= |h.areas| && h.areas[i] == DiskArea(table[i], SectorOf(table, i) % U32)
      modifies dev, dev.desc, dev.availRing, dev.usedRing, dev.ram, dev.disk
      ensures Valid() && dev.ram[..] == old(dev.ram[..])
      ensures Later(old(dev.Past()), dev.Past())
        && dev.asked == old(dev.asked) + if table[i].size % SECTOR == 0 then 1 else 0
      ensures ok <==> table[i].size % SECTOR == 0 && AllServed(old(dev.Past()))
      ensures ok ==> SectorOf(table, i) % U32 * SECTOR + table[i].size % U32 <= dev.disk.Length
                     && dev.disk[..] == AreaWritten(old(dev.disk[..]), dev.ram[..], table, i)
      ensures !ok ==>
        V.SameOutside(old(dev.disk[..]), dev.disk[..], SectorOf(table, i) % U32 * SECTOR, table[i].size % U32)
    {
      hide VirtioBlk.Idle, Overwrite, V.SameOutside, SectorOf, Served, Later;
      ok := WriteSectors(h.areas[i].sector, h.areas[i].area.start, h.areas[i].area.size);
    }

    /** `disk_store_dump`, for areas of any size. On success the disk is the old one after the writes of
        every area and then of the header. A failure of write k leaves exactly the writes before it,
        and garbage at most in the target of write k. */
    method StoreDump() returns (ok: bool, ghost k: nat)
      requires Valid()
      modifies dev, dev.desc, dev.availRing, dev.usedRing, dev.ram, dev.disk
      ensures Valid() && SameOutsideCore(old(dev.ram[..]), dev.ram[..], headerAt, bufAt)
      ensures Later(old(dev.Past()), dev.Past())
      ensures ok <==> old(Vector()) != 0 && WholeSectors(table) && AllServed(old(dev.Past()))
      ensures k <= |table|
      ensures old(Vector()) != 0 && WholeSectors(table) ==>
        dev.asked == old(dev.asked) + 1 + if ok then |table| else k
      ensures ok ==> IsWritten(old(dev.ram[..]), old(dev.disk[..]), dev.disk[..], table, old(Vector()))
      ensures !ok ==> HalfWritten(old(dev.ram[..]), old(dev.disk[..]), dev.disk[..], table, k)
      ensures old(Vector()) == 0 || !WholeSectors(table) ==>
        !ok && dev.disk[..] == old(dev.disk[..]) && dev.asked == old(dev.asked)
    {
      hide VirtioBlk.Idle, Overwrite, Decode, Load, V.SameOutside, SameOutsideCore, AreasAvoid;
      hide WrittenAfter, TargetOnDisk, SectorOf, LaidOut, IsWritten, HalfWritten, Served;
      k := 0;
      ghost var h0 := dev.Past();
      ghost var ram0, disk0 := dev.ram[..], dev.disk[..];
      ok := FillDumpHeader();
      ghost var ram1 := dev.ram[..];
      if !ok {
        NothingWritten(ram0, disk0, table);
        return;
      }
      var h := Decode(dev.ram[headerAt..headerAt + HEADER_BYTES]);
      assert dev.ram[headerAt..headerAt + HEADER_BYTES] == Header();
      ok, k := StoreAreas(h);
      SameWritten(ram0, ram1, disk0, table, k, headerAt, bufAt);
      if !ok {
        AreaFailed(ram0, disk0, dev.disk[..], table, k);
        return;
      }
      ghost var h1 := dev.Past();
      ok := WriteDumpHeader();
      ServedThen(dev.size, dev.blocks, h0, h1, dev.Past());
      if ok {
        AllWritten(ram0, disk0, dev.disk[..], table, Header());
      } else {
        HeaderFailed(ram0, disk0, dev.disk[..], table);
      }
    }

    /** `does_disk_contain_dump`. */
    method DoesDiskContainDump() returns (ok: bool, contains: bool)
      requires Valid()
      modifies dev, dev.desc, dev.availRing, dev.usedRing, dev.ram, dev.disk
      ensures Valid() && dev.disk[..] == old(dev.disk[..])
      ensures SameOutsideCore(old(dev.ram[..]), dev.ram[..], headerAt, bufAt)
      ensures Later(old(dev.Past()), dev.Past()) && dev.asked == old(dev.asked) + 1
      ensures ok <==> AllServed(old(dev.Past()))
      ensures ok ==>
        HEADER_BYTES <= dev.disk.Length && (contains <==> Accepted(Decode(dev.disk[..HEADER_BYTES]), table))
    {
      hide VirtioBlk.Idle, Decode, Accepted, SameOutsideCore;
      var h;
      ok, h := ReadDumpHeader();
      contains := IsDumpHeaderValid(h);
    }

    /** `disk_load_dump`. Any accepted header is followed, and writes to the areas only; when it is one
        that a store wrote, every area ends up equal to its extent. */
    method LoadDump() returns (ok: bool, vector: nat)
      requires Valid()
      modifies dev, dev.desc, dev.availRing, dev.usedRing, dev.ram, dev.disk
      ensures Valid() && dev.disk[..] == old(dev.disk[..])
      ensures ok ==> HEADER_BYTES <= dev.disk.Length && Accepted(Decode(dev.disk[..HEADER_BYTES]), table)
                     && vector == Decode(dev.disk[..HEADER_BYTES]).vector
      ensures Outside(old(dev.ram[..]), dev.ram[..], table, headerAt, bufAt)
      ensures Later(old(dev.Past()), dev.Past())
      ensures ok <==>
        && AllServed(old(dev.Past())) && HEADER_BYTES <= dev.disk.Length
        && Accepted(Decode(dev.disk[..HEADER_BYTES]), table)
        && forall i :: 0 <= i < |table| ==> table[i].size % SECTOR == 0
      ensures ok && FromStore(dev.disk[..], table) ==>
        IsLoaded(old(dev.ram[..]), dev.ram[..], dev.disk[..], table, headerAt, bufAt)
    {
      hide VirtioBlk.Idle, Decode, Accepted, Overwrite, Loaded, IsLoaded, SameOutsideCore, FromStore, Describes;
      hide Outside, OnlyAreas, Served;
      ghost var ram0, h0 := dev.ram[..], dev.Past();
      var h;
      vector := 0;
      ok, h := ReadDumpHeader();
      OnlyAreasStutters(dev.ram[..], table, bufAt);
      SameKept(dev.ram[..], dev.disk[..], headerAt, bufAt);
      OutsideFrom(ram0, dev.ram[..], dev.ram[..], dev.ram[..], table, headerAt, bufAt);
      if !ok { return; }
      ok := IsDumpHeaderValid(h);
      if !ok { return; }
      AcceptedAreas(h, table);
      ghost var ram1, disk0 := dev.ram[..], dev.disk[..];
      LoadedNone(ram1, disk0, table);
      for i := 0 to h.areasSize
        invariant Valid() && dev.disk[..] == disk0 && OnlyAreas(ram1, dev.ram[..], table, bufAt)
        invariant Outside(ram0, dev.ram[..], table, headerAt, bufAt)
        invariant Later(h0, dev.Past()) && AllServed(h0)
        invariant forall j :: 0 <= j < i ==> table[j].size % SECTOR == 0
        invariant FromStore(disk0, table) ==> Loaded(ram1, dev.ram[..], disk0, table, i)
      {
        ghost var ram2, h1 := dev.ram[..], dev.Past();
        ok := LoadArea(h, i, ram1);
        ServedThen(dev.size, dev.blocks, h0, h1, dev.Past());
        OnlyAreasThis(ram1, ram2, dev.ram[..], table, i, bufAt);
        SameKept(dev.ram[..], disk0, headerAt, bufAt);
        OutsideFrom(ram0, ram1, dev.ram[..], dev.ram[..], table, headerAt, bufAt);
        if !ok { return; }
      }
      vector := h.vector;
      if FromStore(disk0, table) { AllLoaded(ram0, ram1, dev.ram[..], disk0, table, headerAt, bufAt); }
    }

    method LoadArea(h: DumpHeader, i: nat, ghost ram1: seq<byte>) returns (ok: bool)
      requires Valid() && i < |table| <= |h.areas| && h.areas[i].area == table[i]
      requires HEADER_BYTES <= dev.disk.Length && h == Decode(dev.disk[..HEADER_BYTES])
      requires FromStore(dev.disk[..], table) ==> Loaded(ram1, dev.ram[..], dev.disk[..], table, i)
      modifies dev, dev.desc, dev.availRing, dev.usedRing, dev.ram, dev.disk
      ensures Valid() && dev.disk[..] == old(dev.disk[..])
      ensures V.SameOutside(old(dev.ram[..]), dev.ram[..], table[i].start, table[i].size)
      ensures Later(old(dev.Past()), dev.Past())
      ensures ok <==> table[i].size % SECTOR == 0 && AllServed(old(dev.Past()))
      ensures ok && FromStore(dev.disk[..], table) ==> Loaded(ram1, dev.ram[..], dev.disk[..], table, i + 1)
    {
      hide VirtioBlk.Idle, Decode, Overwrite, Loaded, FromStore, ByteOf, SectorOf, V.SameOutside, Served, Later;
      hide Disjoint, AreasAvoid, Apart;
      ghost var ram0, disk0 := dev.ram[..], dev.disk[..];
      ok := ReadSectors(h.areas[i].sector, h.areas[i].area.start, h.areas[i].area.size);
      AreaOnly(ram0, dev.ram[..], table[i]);
      if ok && FromStore(disk0, table) { AreaLoaded(ram1, ram0, dev.ram[..], disk0, table, i); }
    }

    // ----- The switch -----

    /** `memcpy` (shared/include/mem.h), byte by byte: after i bytes exactly those have moved. */
    method Memcpy(dst: nat, src: nat, n: nat)
      requires Valid() && dst + n <= dev.ram.Length && src + n <= dev.ram.Length
        && Apart(MemArea(dst, n), MemArea(src, n))
      modifies dev.ram
      ensures Valid() && dev.disk[..] == old(dev.disk[..])
      ensures dev.ram[..] == Overwrite(old(dev.ram[..]), dst, old(dev.ram[..])[src..src + n])
    {
      hide VirtioBlk.Idle, Overwrite;
      ghost var ram0 := dev.ram[..];
      OverwriteNothing(ram0, dst, src);
      for i := 0 to n
        invariant Valid() && dev.disk[..] == old(dev.disk[..])
        invariant dev.ram[..] == Overwrite(ram0, dst, ram0[src..src + i])
      {
        OverwriteByte(ram0, dst, ram0[src..src + i], src + i);
        assert dev.ram[src + i] == dev.ram[..][src + i];
        OverwriteMore(ram0, dst, ram0[src..src + i], [ram0[src + i]]);
        assert ram0[src..src + i] + [ram0[src + i]] == ram0[src..src + i + 1];
        dev.CpuWrite(dst + i, [dev.ram[src + i]]);
      }
    }

    /** The chunk read from the disk into the switch buffer. */
    method FillBuffer(sector: nat, addr: nat, n: nat, ghost good: bool, ghost p: Pair, ghost ram0: seq<byte>,
        ghost disk0: seq<byte>, ghost off: nat)
      returns (ok: bool)
      requires Valid() && n <= SWITCH_BUF_SIZE && p.bufAt == bufAt
      requires good ==> sector * SECTOR == p.at + off && off + n <= p.size
      requires good ==> Exchanged(p, ram0, disk0, dev.ram[..], dev.disk[..], off)
      modifies dev, dev.desc, dev.availRing, dev.usedRing, dev.ram, dev.disk
      ensures Valid() && dev.disk[..] == old(dev.disk[..])
      ensures Later(old(dev.Past()), dev.Past()) && (ok <==> n % SECTOR == 0 && AllServed(old(dev.Past())))
      ensures OnlyPair(old(dev.ram[..]), old(dev.disk[..]), dev.ram[..], dev.disk[..], bufAt, addr, sector * SECTOR, n)
      ensures ok && good ==>
                && Exchanged(p, ram0, disk0, dev.ram[..], dev.disk[..], off) && p.at + off + n <= |disk0|
                && dev.ram[..][bufAt..bufAt + n] == disk0[p.at + off..p.at + off + n]
      ensures !ok && good ==> Rebuildable(Moment(off, 0, false, false, 0), p, ram0, disk0, dev.ram[..], dev.disk[..])
    {
      hide VirtioBlk.Idle, Overwrite, Exchanged, Rebuildable, V.SameOutside, OnlyPair, Served, Later;
      ghost var ram1, disk1 := dev.ram[..], dev.disk[..];
      ok := ReadSectors(sector, bufAt, n);
      if !ok {
        BufferFilled(ram1, disk1, dev.ram[..], bufAt, addr, sector * SECTOR, n);
        if good { BufferGarbage(p, ram0, disk0, ram1, disk1, off, dev.ram[..], n); }
        return;
      }
      OverwriteHere(ram1, bufAt, disk1[sector * SECTOR..sector * SECTOR + n]);
      BufferFilled(ram1, disk1, dev.ram[..], bufAt, addr, sector * SECTOR, n);
      if good { BufferRead(p, ram0, disk0, ram1, disk1, off, dev.ram[..], n); }
    }

    /** One turn of the loop of `switch_memory_area`. When the area and its extent are as they should
        be, a failure leaves a moment from which both images can be rebuilt. */
    method SwitchChunk(sector: nat, addr: nat, n: nat, ghost good: bool, ghost p: Pair, ghost ram0: seq<byte>,
        ghost disk0: seq<byte>, ghost off: nat)
      returns (ok: bool, ghost m: Moment)
      requires Valid() && n <= SWITCH_BUF_SIZE && addr + n <= dev.ram.Length && p.bufAt == bufAt
        && Apart(MemArea(addr, n), MemArea(bufAt, n))
      requires n % SECTOR == 0
      requires good ==> addr == p.start + off && sector * SECTOR == p.at + off && off + n <= p.size
      requires good ==> Exchanged(p, ram0, disk0, dev.ram[..], dev.disk[..], off)
      modifies dev, dev.desc, dev.availRing, dev.usedRing, dev.ram, dev.disk
      ensures Valid()
      ensures Later(old(dev.Past()), dev.Past()) && (ok <==> AllServed(old(dev.Past())))
      ensures ok && good ==> Exchanged(p, ram0, disk0, dev.ram[..], dev.disk[..], off + n)
      ensures !ok && good ==> Rebuildable(m, p, ram0, disk0, dev.ram[..], dev.disk[..])
      ensures OnlyPair(old(dev.ram[..]), old(dev.disk[..]), dev.ram[..], dev.disk[..], bufAt, addr, sector * SECTOR, n)
    {
      hide VirtioBlk.Idle, Overwrite, Exchanged, Rebuildable, V.SameOutside, OnlyPair, Served, Later;
      hide InRam, Disjoint, AreasAvoid;
      m := Moment(off, 0, false, false, 0);
      ghost var ram1, disk1, h0 := dev.ram[..], dev.disk[..], dev.Past();
      ok := FillBuffer(sector, addr, n, good, p, ram0, disk0, off);
      if !ok { return; }
      ghost var ram2, h1 := dev.ram[..], dev.Past();
      ok := WriteSectors(sector, addr, n);
      ServedThen(dev.size, dev.blocks, h0, h1, dev.Past());
      DiskGarbage(ram1, disk1, ram2, dev.disk[..], bufAt, addr, sector * SECTOR, n);
      if !ok {
        m := Moment(off, n, true, false, 0);
        if good { DiskWritten(p, ram0, disk0, ram2, disk1, off, dev.disk[..], n); }
        return;
      }
      ghost var disk2 := dev.disk[..];
      Memcpy(addr, bufAt, n);
      OverwriteOutside(ram2, addr, ram2[bufAt..bufAt + n]);
      AreaCopied(ram1, disk1, ram2, disk2, dev.ram[..], bufAt, addr, sector * SECTOR, n);
      if good { ChunkStep(p, ram0, disk0, ram2, disk1, off, n); }
    }

    /** `switch_memory_area`: the area and its extent exchanged, chunk by chunk. */
    method SwitchMemoryArea(a: DiskArea, ghost good: bool, ghost p: Pair) returns (ok: bool, ghost m: Moment)
      requires Valid() && a.area.start + a.area.size <= dev.ram.Length && Apart(a.area, MemArea(bufAt, SWITCH_BUF_SIZE))
      requires p == Pair(a.area.start, a.sector * SECTOR, a.area.size, bufAt)
      requires good ==> p.at + p.size <= dev.disk.Length && a.area.size % SECTOR == 0
      modifies dev, dev.desc, dev.availRing, dev.usedRing, dev.ram, dev.disk
      ensures Valid()
      ensures Later(old(dev.Past()), dev.Past())
      ensures ok <==> a.area.size % SECTOR == 0 && AllServed(old(dev.Past()))
      ensures ok && good ==> Exchanged(p, old(dev.ram[..]), old(dev.disk[..]), dev.ram[..], dev.disk[..], p.size)
      ensures !ok && good ==> Rebuildable(m, p, old(dev.ram[..]), old(dev.disk[..]), dev.ram[..], dev.disk[..])
      ensures OnlyPair(old(dev.ram[..]), old(dev.disk[..]), dev.ram[..], dev.disk[..], bufAt, p.start, p.at, p.size)
    {
      hide VirtioBlk.Idle, Overwrite, Exchanged, Rebuildable, OnlyPair, Served;
      ghost var ram0, disk0, h0 := dev.ram[..], dev.disk[..], dev.Past();
      NothingAsked(dev.size, dev.blocks, h0);
      var end := a.area.start + a.area.size;
      var sector, addr := a.sector, a.area.start;
      m := Moment(0, 0, false, false, 0);
      OnlyPairStutters(ram0, disk0, bufAt, p.start, p.at, p.size);
      if good { NothingExchanged(p, ram0, disk0); }
      while addr < end
        invariant Valid() && a.area.start <= addr && (addr <= end || addr - end < SWITCH_BUF_SIZE)
        invariant addr < end ==> sector * SECTOR == p.at + (addr - p.start)
        invariant good ==>
          Exchanged(p, ram0, disk0, dev.ram[..], dev.disk[..], if addr < end then addr - p.start else p.size)
        invariant OnlyPair(ram0, disk0, dev.ram[..], dev.disk[..], bufAt, p.start, p.at, p.size)
        invariant Later(h0, dev.Past()) && AllServed(h0)
        invariant if addr < end then (addr - a.area.start) % SECTOR == 0 else a.area.size % SECTOR == 0
        decreases end - addr
      {
        var n := if SWITCH_BUF_SIZE < end - addr then SWITCH_BUF_SIZE else end - addr;
        ghost var ram1, disk1, h1 := dev.ram[..], dev.disk[..], dev.Past();
        ChunkSectors(a.area.size, a.sector, sector, n);
        ChunksWhole(a.area.size, addr - a.area.start, n);
        if n % SECTOR != 0 {
          return false, m;
        }
        ok, m := SwitchChunk(sector, addr, n, good, p, ram0, disk0, addr - p.start);
        ServedThen(dev.size, dev.blocks, h0, h1, dev.Past());
        OnlyPairMore(ram0, disk0, ram1, disk1, dev.ram[..], dev.disk[..], p, addr - p.start, n);
        if !ok {
          return;
        }
        sector := sector + n / SECTOR;
        addr := addr + SWITCH_BUF_SIZE;
      }
      ok := true;
    }

    /** The loop of `disk_switch_dump` over the areas. When it stops early, the areas before i are
        exchanged, those after it are untouched, and both images of area i can be rebuilt. */
    method SwitchAreas(h: DumpHeader, ghost good: bool) returns (ok: bool, ghost stop: Stop)
      requires Valid() && |table| == h.areasSize <= |h.areas|
        && forall i :: 0 <= i < |table| ==> h.areas[i].area == table[i]
      requires good ==> Switchable(dev.disk[..], table) && h == Decode(dev.disk[..HEADER_BYTES])
      modifies dev, dev.desc, dev.availRing, dev.usedRing, dev.ram, dev.disk
      ensures Valid() && OnlyAreas(old(dev.ram[..]), dev.ram[..], table, bufAt)
      ensures Later(old(dev.Past()), dev.Past())
      ensures ok <==> (forall i :: 0 <= i < |table| ==> table[i].size % SECTOR == 0) && AllServed(old(dev.Past()))
      ensures ok && good ==> Switched(old(dev.ram[..]), old(dev.disk[..]), dev.ram[..], dev.disk[..], table, |table|)
      ensures !ok && good ==>
        StoppedAt(old(dev.ram[..]), old(dev.disk[..]), dev.ram[..], dev.disk[..], table, bufAt, stop)
    {
      hide VirtioBlk.Idle, Decode, Exchanged, Rebuildable, OnlyPair, OnlyAreas, Switchable, Switched, StoppedAt, ByteOf;
      hide Served;
      ghost var ram0, disk0, h0 := dev.ram[..], dev.disk[..], dev.Past();
      NothingAsked(dev.size, dev.blocks, h0);
      stop := Stop(0, Moment(0, 0, false, false, 0), ram0, disk0);
      OnlyAreasStutters(ram0, table, bufAt);
      if good { SwitchableStart(ram0, disk0, table); }
      for i := 0 to h.areasSize
        invariant Valid() && OnlyAreas(ram0, dev.ram[..], table, bufAt)
        invariant good ==> Switched(ram0, disk0, dev.ram[..], dev.disk[..], table, i)
        invariant Later(h0, dev.Past()) && AllServed(h0)
        invariant forall j :: 0 <= j < i ==> table[j].size % SECTOR == 0
      {
        ghost var ram1, disk1, h1 := dev.ram[..], dev.disk[..], dev.Past();
        ghost var p := Pair(h.areas[i].area.start, h.areas[i].sector * SECTOR, h.areas[i].area.size, bufAt);
        if good { SwitchableArea(disk0, table, i, bufAt); }
        ghost var m;
        ok, m := SwitchMemoryArea(h.areas[i], good, p);
        ServedThen(dev.size, dev.blocks, h0, h1, dev.Past());
        OnlyAreasMore(ram0, disk1, ram1, dev.ram[..], dev.disk[..], table, i, p);
        if !ok {
          stop := Stop(i, m, ram1, disk1);
          if good { StoppedHere(ram0, disk0, dev.ram[..], dev.disk[..], table, bufAt, stop, p); }
          return;
        }
        if good {
          OnlyPairOnlyThis(ram0, disk0, ram1, disk1, dev.ram[..], dev.disk[..], table, i, p, bufAt);
          SwitchStep(ram0, disk0, ram1, disk1, dev.ram[..], dev.disk[..], table, i, bufAt);
        }
      }
      ok := true;
    }

    /** The end of `disk_switch_dump`: the vector of the FACS goes into the header, and the header out. */
    method ReplaceVector() returns (ok: bool)
      requires Valid()
      modifies dev, dev.desc, dev.availRing, dev.usedRing, dev.ram, dev.disk
      ensures Valid() && SameOutsideCore(old(dev.ram[..]), dev.ram[..], headerAt, bufAt)
      ensures Later(old(dev.Past()), dev.Past())
      ensures ok <==> old(Vector()) != 0 && AllServed(old(dev.Past()))
      ensures ok ==> old(Vector()) < U32 && HEADER_BYTES <= dev.disk.Length
                     && dev.disk[..] == Overwrite(old(dev.disk[..]), 0, WithVector(old(Header()), old(Vector())))
      ensures V.SameOutside(old(dev.disk[..]), dev.disk[..], 0, HEADER_BYTES)
    {
      hide VirtioBlk.Idle, Overwrite, Store, Load, SameOutsideCore, V.SameOutside, Served, Later;
      SameKept(dev.ram[..], dev.disk[..], headerAt, bufAt);
      var v;
      NothingAsked(dev.size, dev.blocks, dev.Past());
      ok, v := FindOriginalWakingVector();
      if !ok { return; }
      SetField(VECTOR_AT, v, 4);
      ok := WriteDumpHeader();
    }

    /** `disk_switch_dump`. The vector that the caller passes in is replaced only once every area has
        been switched. A failure after that, of the header write, leaves anything in the header sectors,
        the old header perhaps, and the rest of the disk as the switch made it. */
    method SwitchDump(vectorIn: nat) returns (ok: bool, vector: nat, ghost end: SwitchEnd)
      requires Valid()
      modifies dev, dev.desc, dev.availRing, dev.usedRing, dev.ram, dev.disk
      ensures Valid() && (ok <==> end.Done?) && Later(old(dev.Past()), dev.Past())
      ensures EndBecause(end, AllServed(old(dev.Past())), old(dev.disk[..]), table, old(Vector()))
      ensures end.Untouched? ==> dev.asked == old(dev.asked) + 1
      ensures SwitchEnds(end, old(dev.ram[..]), old(dev.disk[..]), dev.ram[..], dev.disk[..], table, headerAt, bufAt,
        old(Vector()), vectorIn, vector)
    {
      hide VirtioBlk.Idle, Overwrite, Decode, Store, Load, Accepted, Switchable, Switched, StoppedAt, OnlyAreas;
      hide SameOutsideCore, V.SameOutside, SwitchEnds, AreasAvoid, Served, Later;
      ghost var ram0, disk0, h0 := dev.ram[..], dev.disk[..], dev.Past();
      var h;
      vector, end := vectorIn, Untouched;
      ok, h := ReadDumpHeader();
      ghost var ram1 := dev.ram[..];
      EndsUntouched(ram0, disk0, ram1, table, headerAt, bufAt, old(Vector()), vectorIn);
      if !ok { return; }
      ok := IsDumpHeaderValid(h);
      if !ok { return; }
      AcceptedAreas(h, table);
      ghost var good, h1 := Switchable(disk0, table), dev.Past();
      ghost var stop;
      ok, stop := SwitchAreas(h, good);
      ServedThen(dev.size, dev.blocks, h0, h1, dev.Past());
      ghost var ram2, disk2 := dev.ram[..], dev.disk[..];
      if !ok {
        end := Stopped(stop);
        EndsStopped(ram0, disk0, ram1, ram2, disk2, table, headerAt, bufAt, old(Vector()), vectorIn, stop);
        return;
      }
      vector := h.vector;
      end := HeaderLost;
      FacsKept(ram0, ram1, ram2, table, facs, headerAt, bufAt);
      HeaderKept(ram1, ram2, table, headerAt, bufAt);
      ghost var h2 := dev.Past();
      ok := ReplaceVector();
      ServedThen(dev.size, dev.blocks, h0, h2, dev.Past());
      if ok {
        end := Done;
        EndsDone(ram0, disk0, ram1, ram2, disk2, dev.ram[..], dev.disk[..], table, headerAt, bufAt, old(Vector()),
          vectorIn, h);
      } else {
        EndsHeaderLost(ram0, disk0, ram1, ram2, disk2, dev.ram[..], dev.disk[..], table, headerAt, bufAt,
          old(Vector()), vectorIn, h);
      }
    }
  }

  /** How a switch ends. */
  datatype SwitchEnd = Untouched | Stopped(stop: Stop) | HeaderLost | Done

  /** Why a switch ends as it does. It is done exactly when every request is served, the header is accepted,
      the areas are whole sectors and the FACS holds a vector. */
  ghost predicate EndBecause(end: SwitchEnd, served: bool, disk: seq<byte>, table: seq<MemArea>, v0: nat) {
    var accepted := HEADER_BYTES <= |disk| && Accepted(Decode(disk[..HEADER_BYTES]), table);
    var whole := forall i :: 0 <= i < |table| ==> table[i].size % SECTOR == 0;
    match end
    case Untouched => !served || !accepted
    case Stopped(_) => accepted && (!served || !whole)
    case HeaderLost => accepted && whole && (!served || v0 == 0)
    case Done => accepted && whole && served && v0 != 0
  }

  /** Every area holds what its extent held, and the other way round. */
  ghost predicate ImagesExchanged(ram0: seq<byte>, disk0: seq<byte>, ram: seq<byte>, disk: seq<byte>,
      table: seq<MemArea>)
  {
    && |ram| == |ram0| && |disk| == |disk0| && InRam(table, |ram|) && Fits(disk, table, |table|)
    && forall i ::
       0 <= i < |table| ==>
       Area(ram, table, i) == Extent(disk0, table, i) && Extent(disk, table, i) == Area(ram0, table, i)
  }

  /** Behind the last extent the disk is as before. */
  ghost predicate SameRest(disk0: seq<byte>, disk: seq<byte>, table: seq<MemArea>) {
    && ByteOf(table, |table|) <= |disk| == |disk0|
    && disk[ByteOf(table, |table|)..] == disk0[ByteOf(table, |table|)..]
  }

  /** A whole switch: the images exchanged, and in the rest of the disk only the four bytes of the vector. */
  ghost predicate IsSwitched(ram0: seq<byte>, disk0: seq<byte>, ram: seq<byte>, disk: seq<byte>, table: seq<MemArea>,
      vector: nat)
  {
    && ImagesExchanged(ram0, disk0, ram, disk, table) && HEADER_BYTES <= |disk| && ByteOf(table, |table|) <= |disk|
    && vector < U32
    && disk[..HEADER_BYTES] == WithVector(disk0[..HEADER_BYTES], vector)
    && disk[ByteOf(table, |table|)..] == disk0[ByteOf(table, |table|)..]
  }

  /** Outside the areas and core's own memory nothing has changed. */
  ghost predicate Outside(ram0: seq<byte>, ram: seq<byte>, table: seq<MemArea>, headerAt: nat, bufAt: nat) {
    && |ram| == |ram0|
    && forall p :: 0 <= p < |ram| && !InSome(table, |table|, p) && !(headerAt <= p < headerAt + HEADER_BYTES)
                   && !(bufAt <= p < bufAt + SWITCH_BUF_SIZE)
         ==> ram[p] == ram0[p]
  }

  lemma OutsideFrom(ram0: seq<byte>, ram1: seq<byte>, ram2: seq<byte>, ram: seq<byte>, table: seq<MemArea>,
      headerAt: nat, bufAt: nat)
    requires SameOutsideCore(ram0, ram1, headerAt, bufAt) && OnlyAreas(ram1, ram2, table, bufAt)
    requires SameOutsideCore(ram2, ram, headerAt, bufAt)
    ensures Outside(ram0, ram, table, headerAt, bufAt)
  {
    hide InSome;
  }

  lemma SameThenOutside(ram0: seq<byte>, ram1: seq<byte>, ram: seq<byte>, table: seq<MemArea>, headerAt: nat,
      bufAt: nat)
    requires SameOutsideCore(ram0, ram1, headerAt, bufAt) && Outside(ram1, ram, table, headerAt, bufAt)
    ensures Outside(ram0, ram, table, headerAt, bufAt)
  {
    hide InSome;
  }

  lemma SameTwice(ram0: seq<byte>, ram1: seq<byte>, ram: seq<byte>, headerAt: nat, bufAt: nat)
    requires SameOutsideCore(ram0, ram1, headerAt, bufAt) && SameOutsideCore(ram1, ram, headerAt, bufAt)
    ensures SameOutsideCore(ram0, ram, headerAt, bufAt)
  {
  }

  /** A field stored in the header leaves the FACS alone. */
  lemma FieldStored(ram: seq<byte>, headerAt: nat, bufAt: nat, facs: nat, at: nat, what: seq<byte>)
    requires at + |what| <= HEADER_BYTES && headerAt + HEADER_BYTES <= |ram| && facs + FACS_BYTES <= |ram|
    requires Apart(MemArea(headerAt, HEADER_BYTES), MemArea(facs, FACS_BYTES))
    ensures var ram' := Overwrite(ram, headerAt + at, what);
      && SameOutsideCore(ram, ram', headerAt, bufAt)
      && ram'[headerAt..headerAt + HEADER_BYTES] == Overwrite(ram[headerAt..headerAt + HEADER_BYTES], at, what)
      && ram'[facs + RSV1..facs + RSV1 + 4] == ram[facs + RSV1..facs + RSV1 + 4]
  {
    hide Overwrite;
    OverwriteBytes(ram, headerAt + at, what);
    OverwritePart(ram, headerAt, headerAt + HEADER_BYTES, at, what);
    OverwriteApart(ram, headerAt + at, what, facs + RSV1, facs + RSV1 + 4);
  }

  /** The header is in no area. */
  lemma HeaderKept(ram1: seq<byte>, ram: seq<byte>, table: seq<MemArea>, headerAt: nat, bufAt: nat)
    requires OnlyAreas(ram1, ram, table, bufAt) && AreasAvoid(table, headerAt, HEADER_BYTES)
      && headerAt + HEADER_BYTES <= |ram1|
    requires Apart(MemArea(headerAt, HEADER_BYTES), MemArea(bufAt, SWITCH_BUF_SIZE))
    ensures |ram| == |ram1| && ram[headerAt..headerAt + HEADER_BYTES] == ram1[headerAt..headerAt + HEADER_BYTES]
  {
    forall p | headerAt <= p < headerAt + HEADER_BYTES ensures ram[p] == ram1[p] {
      assert !InSome(table, |table|, p);
    }
  }

  /** Core's own memory does not matter to what a store writes. */
  lemma {:induction false} SameWritten(ram0: seq<byte>, ram: seq<byte>, disk0: seq<byte>, table: seq<MemArea>, k: nat,
      headerAt: nat, bufAt: nat)
    requires k <= |table| && InRam(table, |ram0|) && Targets(disk0, table, k)
      && SameOutsideCore(ram0, ram, headerAt, bufAt)
    requires AreasAvoid(table, headerAt, HEADER_BYTES) && AreasAvoid(table, bufAt, SWITCH_BUF_SIZE)
    ensures |ram| == |ram0| && WrittenAfter(disk0, ram, table, k) == WrittenAfter(disk0, ram0, table, k)
  {
    hide SameOutsideCore, AreasAvoid, Overwrite, SectorOf;
    SameLength(ram0, ram, headerAt, bufAt);
    if k > 0 {
      assert TargetOnDisk(|disk0|, table, k - 1);
      SameWritten(ram0, ram, disk0, table, k - 1, headerAt, bufAt);
      SameAreas(ram0, ram, table, headerAt, bufAt, k - 1);
      SamePart(ram, ram0, table[k - 1].start, table[k - 1].size, table[k - 1].size % U32);
    }
  }

  lemma SamePart(s: seq<byte>, t: seq<byte>, at: nat, size: nat, n: nat)
    requires at + size <= |s| && at + size <= |t| && s[at..at + size] == t[at..at + size] && n <= size
    ensures s[at..at + n] == t[at..at + n]
  {
    SliceOfSlice(s, at, at + size, 0, n);
    SliceOfSlice(t, at, at + size, 0, n);
  }

  lemma WrittenNone(disk0: seq<byte>, ram: seq<byte>, table: seq<MemArea>)
    requires InRam(table, |ram|)
    ensures WrittenAfter(disk0, ram, table, 0) == disk0
  {
  }

  lemma WrittenStep(disk0: seq<byte>, ram: seq<byte>, table: seq<MemArea>, i: nat)
    requires i < |table| && InRam(table, |ram|) && Targets(disk0, table, i) && TargetOnDisk(|disk0|, table, i)
    ensures Targets(disk0, table, i + 1)
    ensures WrittenAfter(disk0, ram, table, i + 1) == AreaWritten(WrittenAfter(disk0, ram, table, i), ram, table, i)
  {
  }

  /** v0 is the vector in the FACS. */
  ghost predicate SwitchEnds(end: SwitchEnd, ram0: seq<byte>, disk0: seq<byte>, ram: seq<byte>, disk: seq<byte>,
      table: seq<MemArea>,
      headerAt: nat, bufAt: nat, v0: nat, vectorIn: nat, vector: nat) {
    && Outside(ram0, ram, table, headerAt, bufAt)
    && match end
    case Untouched => disk == disk0 && SameOutsideCore(ram0, ram, headerAt, bufAt) && vector == vectorIn
    case Stopped(stop) =>
      vector == vectorIn && (Switchable(disk0, table) ==> StoppedAt(ram0, disk0, ram, disk, table, bufAt, stop))
    case HeaderLost =>
      HEADER_BYTES <= |disk0| && vector == Decode(disk0[..HEADER_BYTES]).vector
      && (Switchable(disk0, table) ==> ImagesExchanged(ram0, disk0, ram, disk, table) && SameRest(disk0, disk, table))
    case Done =>
      HEADER_BYTES <= |disk0| && v0 != 0 && vector == Decode(disk0[..HEADER_BYTES]).vector
      && Accepted(Decode(disk0[..HEADER_BYTES]), table)
                 && (Switchable(disk0, table) ==> IsSwitched(ram0, disk0, ram, disk, table, v0))
  }

  /** A chunk, full or the last one of an area of whole sectors, is whole sectors. */
  lemma ChunkSectors(size: nat, first: nat, sector: nat, n: nat)
    ensures size % SECTOR == 0 && (n == SWITCH_BUF_SIZE || n == size - (sector - first) * SECTOR) ==> n % SECTOR == 0
    ensures n % SECTOR == 0 ==> (sector + n / SECTOR) * SECTOR == sector * SECTOR + n
  {
  }

  /** The last chunk is what is left of the area. */
  lemma ChunksWhole(size: nat, off: nat, n: nat)
    requires off % SECTOR == 0 && off + n <= size && (n == SWITCH_BUF_SIZE || off + n == size)
    ensures n % SECTOR != 0 ==> size % SECTOR != 0
    ensures n % SECTOR == 0 ==> (off + n) % SECTOR == 0
  {
  }

  /** Where a switch stopped: at a moment of area i, from the memory and disk before that area. */
  datatype Stop = Stop(i: nat, m: Moment, ram: seq<byte>, disk: seq<byte>)

  /** A disk that holds a whole dump of the table. */
  ghost predicate Switchable(disk: seq<byte>, table: seq<MemArea>) {
    && HEADER_BYTES <= |disk| && WholeSectors(table)
    && Describes(Decode(disk[..HEADER_BYTES]), table, Decode(disk[..HEADER_BYTES]).vector)
    && Fits(disk, table, |table|)
  }

  ghost predicate OnlyAreas(ram: seq<byte>, ram': seq<byte>, table: seq<MemArea>, bufAt: nat) {
    && |ram'| == |ram|
    && forall p ::
       0 <= p < |ram| && !InSome(table, |table|, p) && !(bufAt <= p < bufAt + SWITCH_BUF_SIZE) ==> ram'[p] == ram[p]
  }

  ghost predicate StoppedAt(ram0: seq<byte>, disk0: seq<byte>, ram: seq<byte>, disk: seq<byte>, table: seq<MemArea>,
      bufAt: nat, stop: Stop)
  {
    && stop.i < |table| && Switched(ram0, disk0, stop.ram, stop.disk, table, stop.i)
    && Rebuildable(stop.m, PairOf(table, stop.i, bufAt), stop.ram, stop.disk, ram, disk)
    && OnlyThis(stop.ram, stop.disk, ram, disk, table, stop.i)
  }

  lemma OnlyAreasStutters(ram: seq<byte>, table: seq<MemArea>, bufAt: nat)
    ensures OnlyAreas(ram, ram, table, bufAt)
  {
  }

  /** What a transfer into an area does to memory, whether it succeeds or not. */
  lemma AreaOnly(ram0: seq<byte>, ram: seq<byte>, a: MemArea)
    requires V.SameOutside(ram0, ram, a.start, a.size % U32)
    ensures V.SameOutside(ram0, ram, a.start, a.size)
  {
  }

  lemma OnlyAreasThis(ram0: seq<byte>, ram1: seq<byte>, ram: seq<byte>, table: seq<MemArea>, i: nat, bufAt: nat)
    requires i < |table| && OnlyAreas(ram0, ram1, table, bufAt)
      && V.SameOutside(ram1, ram, table[i].start, table[i].size)
    ensures OnlyAreas(ram0, ram, table, bufAt)
  {
  }

  lemma SwitchableStart(ram: seq<byte>, disk: seq<byte>, table: seq<MemArea>)
    requires Switchable(disk, table) && InRam(table, |ram|)
    ensures Switched(ram, disk, ram, disk, table, 0)
  {
    hide Switched, Decode;
    SwitchedNone(ram, disk, table);
  }

  lemma SwitchableArea(disk: seq<byte>, table: seq<MemArea>, i: nat, bufAt: nat)
    requires Switchable(disk, table) && i < |table|
    ensures HEADER_BYTES <= |disk|
    ensures var a := Decode(disk[..HEADER_BYTES]).areas[i];
      && PairOf(table, i, bufAt) == Pair(a.area.start, a.sector * SECTOR, a.area.size, bufAt)
      && ByteOf(table, i) + table[i].size <= |disk| && table[i].size % SECTOR == 0
  {
    hide Decode, ByteOf, SectorOf;
    SectorBytes(table, i);
    assert Decode(disk[..HEADER_BYTES]).areas[i] == DiskArea(table[i], SectorOf(table, i));
    assert ExtentFits(|disk|, table, i);
  }

  lemma OnlyAreasMore(ram0: seq<byte>, disk1: seq<byte>, ram1: seq<byte>, ram: seq<byte>, disk: seq<byte>,
      table: seq<MemArea>, i: nat, p: Pair)
    requires i < |table| && OnlyAreas(ram0, ram1, table, p.bufAt)
      && OnlyPair(ram1, disk1, ram, disk, p.bufAt, p.start, p.at, p.size)
    requires p.start == table[i].start && p.size == table[i].size
    ensures OnlyAreas(ram0, ram, table, p.bufAt)
  {
    forall x | 0 <= x < |ram| && !InSome(table, |table|, x) && !(p.bufAt <= x < p.bufAt + SWITCH_BUF_SIZE)
      ensures ram[x] == ram0[x]
    {
      assert !(table[i].start <= x < table[i].start + table[i].size);
    }
  }

  lemma SameSlice(s: seq<byte>, t: seq<byte>, i: nat, j: nat)
    requires i <= j <= |s| == |t| && forall k :: i <= k < j ==> s[k] == t[k]
    ensures s[i..j] == t[i..j]
  {
  }

  lemma OnlyPairOnlyThis(ram0: seq<byte>, disk0: seq<byte>, ram1: seq<byte>, disk1: seq<byte>, ram: seq<byte>,
      disk: seq<byte>,
      table: seq<MemArea>, i: nat, p: Pair, bufAt: nat)
    requires i < |table| && p == PairOf(table, i, bufAt) && Switched(ram0, disk0, ram1, disk1, table, i)
    requires Disjoint(table) && AreasAvoid(table, bufAt, SWITCH_BUF_SIZE)
    requires OnlyPair(ram1, disk1, ram, disk, bufAt, p.start, p.at, p.size)
    ensures OnlyThis(ram1, disk1, ram, disk, table, i)
  {
    hide ByteOf, Extent, Area;
    var n := |table|;
    ExtentsInOrder(table, i, n);
    SameSlice(disk, disk1, 0, HEADER_BYTES);
    SameSlice(disk, disk1, ByteOf(table, n), |disk|);
    assert disk[ByteOf(table, n)..] == disk[ByteOf(table, n)..|disk|]
      && disk1[ByteOf(table, n)..] == disk1[ByteOf(table, n)..|disk|];
    assert disk[..HEADER_BYTES] == disk[0..HEADER_BYTES] && disk1[..HEADER_BYTES] == disk1[0..HEADER_BYTES];
    forall j | 0 <= j < n && j != i
      ensures Area(ram, table, j) == Area(ram1, table, j) && Extent(disk, table, j) == Extent(disk1, table, j)
    {
      OtherArea(ram1, ram, table, i, j, bufAt);
      OtherExtent(disk1, disk, table, i, j);
    }
  }

  lemma OtherArea(ram1: seq<byte>, ram: seq<byte>, table: seq<MemArea>, i: nat, j: nat, bufAt: nat)
    requires i < |table| && j < |table| && i != j && Disjoint(table) && AreasAvoid(table, bufAt, SWITCH_BUF_SIZE)
    requires InRam(table, |ram1|) && |ram| == |ram1|
    requires forall k ::
      0 <= k < |ram| && !(table[i].start <= k < table[i].start + table[i].size)
      && !(bufAt <= k < bufAt + SWITCH_BUF_SIZE) ==>
        ram[k] == ram1[k]
    ensures Area(ram, table, j) == Area(ram1, table, j)
  {
    assert if i < j then Apart(table[i], table[j]) else Apart(table[j], table[i]);
    SameSlice(ram, ram1, table[j].start, table[j].start + table[j].size);
  }

  lemma OtherExtent(disk1: seq<byte>, disk: seq<byte>, table: seq<MemArea>, i: nat, j: nat)
    requires i < |table| && j < |table| && i != j && Fits(disk1, table, |table|)
    requires V.SameOutside(disk1, disk, ByteOf(table, i), table[i].size)
    ensures Extent(disk, table, j) == Extent(disk1, table, j)
  {
    hide ByteOf;
    if i < j { ExtentsInOrder(table, i, j); } else { ExtentsInOrder(table, j, i); }
    assert ExtentFits(|disk|, table, j);
    SameSlice(disk, disk1, ByteOf(table, j), ByteOf(table, j) + table[j].size);
  }

  lemma StoppedHere(ram0: seq<byte>, disk0: seq<byte>, ram: seq<byte>, disk: seq<byte>, table: seq<MemArea>,
      bufAt: nat, stop: Stop, p: Pair)
    requires stop.i < |table| && p == PairOf(table, stop.i, bufAt)
      && Switched(ram0, disk0, stop.ram, stop.disk, table, stop.i)
    requires Disjoint(table) && AreasAvoid(table, bufAt, SWITCH_BUF_SIZE)
    requires OnlyPair(stop.ram, stop.disk, ram, disk, bufAt, p.start, p.at, p.size)
    requires Rebuildable(stop.m, p, stop.ram, stop.disk, ram, disk)
    ensures StoppedAt(ram0, disk0, ram, disk, table, bufAt, stop)
  {
    hide Switched, OnlyPair, Rebuildable, OnlyThis;
    OnlyPairOnlyThis(ram0, disk0, stop.ram, stop.disk, ram, disk, table, stop.i, p, bufAt);
  }

  /** Only the chunk, its sectors and the switch buffer may differ. */
  ghost predicate OnlyPair(ram: seq<byte>, disk: seq<byte>, ram': seq<byte>, disk': seq<byte>, bufAt: nat, addr: nat,
      at: nat, n: nat)
  {
    && |ram'| == |ram| && V.SameOutside(disk, disk', at, n)
    && forall i ::
       0 <= i < |ram| && !(addr <= i < addr + n) && !(bufAt <= i < bufAt + SWITCH_BUF_SIZE) ==> ram'[i] == ram[i]
  }

  lemma OnlyPairStutters(ram: seq<byte>, disk: seq<byte>, bufAt: nat, addr: nat, at: nat, n: nat)
    ensures OnlyPair(ram, disk, ram, disk, bufAt, addr, at, n)
  {
  }

  lemma OnlyPairMore(ram0: seq<byte>, disk0: seq<byte>, ram1: seq<byte>, disk1: seq<byte>, ram: seq<byte>,
      disk: seq<byte>, p: Pair, off: nat, n: nat)
    requires OnlyPair(ram0, disk0, ram1, disk1, p.bufAt, p.start, p.at, p.size) && off + n <= p.size
    requires OnlyPair(ram1, disk1, ram, disk, p.bufAt, p.start + off, p.at + off, n)
    ensures OnlyPair(ram0, disk0, ram, disk, p.bufAt, p.start, p.at, p.size)
  {
  }

  lemma NothingExchanged(p: Pair, ram: seq<byte>, disk: seq<byte>)
    requires Within(p, ram, disk)
    ensures Exchanged(p, ram, disk, ram, disk, 0)
  {
    assert ram[p.start..p.start + 0] == [] == disk[p.at..p.at + 0];
  }

  lemma BufferFilled(ram: seq<byte>, disk: seq<byte>, ram': seq<byte>, bufAt: nat, addr: nat, at: nat, n: nat)
    requires V.SameOutside(ram, ram', bufAt, n) && n <= SWITCH_BUF_SIZE
    ensures OnlyPair(ram, disk, ram', disk, bufAt, addr, at, n)
  {
  }

  lemma DiskGarbage(ram: seq<byte>, disk: seq<byte>, ram': seq<byte>, disk': seq<byte>, bufAt: nat, addr: nat, at: nat,
      n: nat)
    requires OnlyPair(ram, disk, ram', disk, bufAt, addr, at, n) && V.SameOutside(disk, disk', at, n)
    ensures OnlyPair(ram, disk, ram', disk', bufAt, addr, at, n)
  {
  }

  lemma AreaCopied(ram: seq<byte>, disk: seq<byte>, ram1: seq<byte>, disk1: seq<byte>, ram': seq<byte>, bufAt: nat,
      addr: nat, at: nat, n: nat)
    requires OnlyPair(ram, disk, ram1, disk1, bufAt, addr, at, n) && V.SameOutside(ram1, ram', addr, n)
    ensures OnlyPair(ram, disk, ram', disk1, bufAt, addr, at, n)
  {
  }

  lemma OverwriteOutside(s: seq<byte>, at: nat, what: seq<byte>)
    requires at + |what| <= |s|
    ensures V.SameOutside(s, Overwrite(s, at, what), at, |what|)
  {
  }

  lemma OverwriteNothing(s: seq<byte>, at: nat, src: nat)
    requires at <= |s| && src <= |s|
    ensures Overwrite(s, at, s[src..src + 0]) == s
  {
    assert s[src..src + 0] == [];
  }

  lemma BufferGarbage(p: Pair, ram0: seq<byte>, disk0: seq<byte>, ram: seq<byte>, disk: seq<byte>, off: nat,
      ram': seq<byte>, n: nat)
    requires Exchanged(p, ram0, disk0, ram, disk, off) && V.SameOutside(ram, ram', p.bufAt, n) && n <= SWITCH_BUF_SIZE
    ensures Rebuildable(Moment(off, 0, false, false, 0), p, ram0, disk0, ram', disk)
  {
    hide Exchanged, Rebuildable;
    BufferStep(p, ram0, disk0, ram, disk, off, ram');
    BoundaryRebuildable(p, ram0, disk0, ram', disk, off);
  }

  lemma BufferRead(p: Pair, ram0: seq<byte>, disk0: seq<byte>, ram: seq<byte>, disk: seq<byte>, off: nat,
      ram': seq<byte>, n: nat)
    requires Exchanged(p, ram0, disk0, ram, disk, off) && n <= SWITCH_BUF_SIZE && off + n <= p.size
    requires V.SameOutside(ram, ram', p.bufAt, n) && p.bufAt + n <= |ram'| && p.at + off + n <= |disk|
    requires ram'[p.bufAt..p.bufAt + n] == disk[p.at + off..p.at + off + n]
    ensures Exchanged(p, ram0, disk0, ram', disk, off)
    ensures |disk| == |disk0| && ram'[p.bufAt..p.bufAt + n] == disk0[p.at + off..p.at + off + n]
  {
    ExchangedShape(p, ram0, disk0, ram, disk, off);
    OverwriteApart(disk0, p.at, ram0[p.start..p.start + off], p.at + off, p.at + off + n);
    hide Overwrite;
    BufferStep(p, ram0, disk0, ram, disk, off, ram');
  }

  lemma DiskWritten(p: Pair, ram0: seq<byte>, disk0: seq<byte>, ram: seq<byte>, disk: seq<byte>, off: nat,
      disk': seq<byte>, n: nat)
    requires Exchanged(p, ram0, disk0, ram, disk, off) && n <= SWITCH_BUF_SIZE && off + n <= p.size
    requires p.bufAt + n <= |ram| && p.at + off + n <= |disk0|
      && ram[p.bufAt..p.bufAt + n] == disk0[p.at + off..p.at + off + n]
    requires V.SameOutside(disk, disk', p.at + off, n)
    ensures Rebuildable(Moment(off, n, true, false, 0), p, ram0, disk0, ram, disk')
  {
    hide Exchanged, Rebuildable;
    ReadRebuildable(p, ram0, disk0, ram, disk, off, n, disk');
  }

  // ----- The ends of a switch -----

  lemma SameIsOutside(ram0: seq<byte>, ram: seq<byte>, table: seq<MemArea>, headerAt: nat, bufAt: nat)
    requires SameOutsideCore(ram0, ram, headerAt, bufAt)
    ensures Outside(ram0, ram, table, headerAt, bufAt)
  {
    hide InSome;
  }

  lemma EndsUntouched(ram0: seq<byte>, disk0: seq<byte>, ram: seq<byte>, table: seq<MemArea>, headerAt: nat,
      bufAt: nat, v0: nat, vectorIn: nat)
    requires SameOutsideCore(ram0, ram, headerAt, bufAt)
    ensures SwitchEnds(Untouched, ram0, disk0, ram, disk0, table, headerAt, bufAt, v0, vectorIn, vectorIn)
  {
    hide SameOutsideCore, Outside;
    SameIsOutside(ram0, ram, table, headerAt, bufAt);
  }

  lemma SameKept(ram: seq<byte>, disk: seq<byte>, headerAt: nat, bufAt: nat)
    ensures SameOutsideCore(ram, ram, headerAt, bufAt) && V.SameOutside(disk, disk, 0, HEADER_BYTES)
  {
  }

  /** Core's own memory is in no area. */
  lemma SameAreas(ram0: seq<byte>, ram: seq<byte>, table: seq<MemArea>, headerAt: nat, bufAt: nat, i: nat)
    requires SameOutsideCore(ram0, ram, headerAt, bufAt) && i < |table| && InRam(table, |ram0|)
    requires AreasAvoid(table, headerAt, HEADER_BYTES) && AreasAvoid(table, bufAt, SWITCH_BUF_SIZE)
    ensures Area(ram, table, i) == Area(ram0, table, i)
  {
    SameSlice(ram, ram0, table[i].start, table[i].start + table[i].size);
  }

  lemma SwitchedFrom(ram0: seq<byte>, disk0: seq<byte>, ram1: seq<byte>, ram: seq<byte>, disk: seq<byte>,
      table: seq<MemArea>, n: nat, headerAt: nat, bufAt: nat)
    requires SameOutsideCore(ram0, ram1, headerAt, bufAt) && n <= |table|
    requires AreasAvoid(table, headerAt, HEADER_BYTES) && AreasAvoid(table, bufAt, SWITCH_BUF_SIZE)
    requires Switched(ram1, disk0, ram, disk, table, n)
    ensures Switched(ram0, disk0, ram, disk, table, n)
  {
    hide AreasAvoid, ByteOf, SameOutsideCore, Area, Extent;
    SameLength(ram0, ram1, headerAt, bufAt);
    forall i | 0 <= i < |table| ensures Area(ram1, table, i) == Area(ram0, table, i) {
      SameAreas(ram0, ram1, table, headerAt, bufAt, i);
    }
  }

  lemma SameLength(ram0: seq<byte>, ram: seq<byte>, headerAt: nat, bufAt: nat)
    requires SameOutsideCore(ram0, ram, headerAt, bufAt)
    ensures |ram| == |ram0|
  {
  }

  lemma EndsStopped(ram0: seq<byte>, disk0: seq<byte>, ram1: seq<byte>, ram: seq<byte>, disk: seq<byte>,
      table: seq<MemArea>, headerAt: nat, bufAt: nat,
      v0: nat, vectorIn: nat, stop: Stop)
    requires SameOutsideCore(ram0, ram1, headerAt, bufAt) && AreasAvoid(table, headerAt, HEADER_BYTES)
      && AreasAvoid(table, bufAt, SWITCH_BUF_SIZE)
    requires OnlyAreas(ram1, ram, table, bufAt)
      && (Switchable(disk0, table) ==> StoppedAt(ram1, disk0, ram, disk, table, bufAt, stop))
    ensures SwitchEnds(Stopped(stop), ram0, disk0, ram, disk, table, headerAt, bufAt, v0, vectorIn, vectorIn)
  {
    hide Switchable, Switched, SameOutsideCore, AreasAvoid, Rebuildable, OnlyThis, Outside, OnlyAreas;
    SameKept(ram, disk, headerAt, bufAt);
    OutsideFrom(ram0, ram1, ram, ram, table, headerAt, bufAt);
    if Switchable(disk0, table) {
      SwitchedFrom(ram0, disk0, ram1, stop.ram, stop.disk, table, stop.i, headerAt, bufAt);
    }
  }

  /** The FACS is in no area and not in core's own memory. */
  lemma FacsKept(ram0: seq<byte>, ram1: seq<byte>, ram: seq<byte>, table: seq<MemArea>, facs: nat, headerAt: nat,
      bufAt: nat)
    requires SameOutsideCore(ram0, ram1, headerAt, bufAt) && OnlyAreas(ram1, ram, table, bufAt)
    requires AreasAvoid(table, facs, FACS_BYTES) && facs + FACS_BYTES <= |ram0|
    requires Apart(MemArea(headerAt, HEADER_BYTES), MemArea(facs, FACS_BYTES))
      && Apart(MemArea(bufAt, SWITCH_BUF_SIZE), MemArea(facs, FACS_BYTES))
    ensures |ram| == |ram0| && ram[facs + RSV1..facs + RSV1 + 4] == ram0[facs + RSV1..facs + RSV1 + 4]
  {
    forall p | facs <= p < facs + FACS_BYTES ensures ram[p] == ram0[p] {
      assert !InSome(table, |table|, p);
    }
    SameSlice(ram, ram0, facs + RSV1, facs + RSV1 + 4);
  }

  /** A write to the header sectors and to core's own memory leaves the images alone. */
  lemma ImagesKept(ram0: seq<byte>, disk0: seq<byte>, ram1: seq<byte>, ram2: seq<byte>, disk2: seq<byte>,
      ram: seq<byte>, disk: seq<byte>,
      table: seq<MemArea>, headerAt: nat, bufAt: nat)
    requires SameOutsideCore(ram0, ram1, headerAt, bufAt) && AreasAvoid(table, headerAt, HEADER_BYTES)
      && AreasAvoid(table, bufAt, SWITCH_BUF_SIZE)
    requires Switched(ram1, disk0, ram2, disk2, table, |table|)
    requires SameOutsideCore(ram2, ram, headerAt, bufAt) && V.SameOutside(disk2, disk, 0, HEADER_BYTES)
    ensures ImagesExchanged(ram0, disk0, ram, disk, table) && ByteOf(table, |table|) <= |disk| == |disk0|
    ensures disk[ByteOf(table, |table|)..] == disk0[ByteOf(table, |table|)..]
  {
    hide SameOutsideCore, AreasAvoid, ByteOf, Area;
    SwitchedFrom(ram0, disk0, ram1, ram2, disk2, table, |table|, headerAt, bufAt);
    SameLength(ram2, ram, headerAt, bufAt);
    ExtentStart(table, |table|);
    SameSlice(disk, disk2, ByteOf(table, |table|), |disk|);
    assert disk[ByteOf(table, |table|)..] == disk[ByteOf(table, |table|)..|disk|]
      && disk2[ByteOf(table, |table|)..] == disk2[ByteOf(table, |table|)..|disk|];
    forall i | 0 <= i < |table|
      ensures Area(ram, table, i) == Extent(disk0, table, i) && Extent(disk, table, i) == Area(ram0, table, i)
    {
      SameAreas(ram2, ram, table, headerAt, bufAt, i);
      ExtentStart(table, i);
      assert ExtentFits(|disk|, table, i);
      SameSlice(disk, disk2, ByteOf(table, i), ByteOf(table, i) + table[i].size);
    }
  }

  lemma EndsHeaderLost(ram0: seq<byte>, disk0: seq<byte>, ram1: seq<byte>, ram2: seq<byte>, disk2: seq<byte>,
      ram: seq<byte>, disk: seq<byte>,
      table: seq<MemArea>, headerAt: nat, bufAt: nat, v0: nat, vectorIn: nat, h: DumpHeader)
    requires SameOutsideCore(ram0, ram1, headerAt, bufAt) && AreasAvoid(table, headerAt, HEADER_BYTES)
      && AreasAvoid(table, bufAt, SWITCH_BUF_SIZE)
    requires HEADER_BYTES <= |disk0| && h == Decode(disk0[..HEADER_BYTES]) && OnlyAreas(ram1, ram2, table, bufAt)
    requires Switchable(disk0, table) ==> Switched(ram1, disk0, ram2, disk2, table, |table|)
    requires SameOutsideCore(ram2, ram, headerAt, bufAt) && V.SameOutside(disk2, disk, 0, HEADER_BYTES)
    ensures SwitchEnds(HeaderLost, ram0, disk0, ram, disk, table, headerAt, bufAt, v0, vectorIn, h.vector)
  {
    hide Switchable, Switched, SameOutsideCore, AreasAvoid, V.SameOutside, Decode, ImagesExchanged, ByteOf, Outside,
      OnlyAreas;
    OutsideFrom(ram0, ram1, ram2, ram, table, headerAt, bufAt);
    if Switchable(disk0, table) {
      ImagesKept(ram0, disk0, ram1, ram2, disk2, ram, disk, table, headerAt, bufAt);
    }
  }

  lemma EndsDone(ram0: seq<byte>, disk0: seq<byte>, ram1: seq<byte>, ram2: seq<byte>, disk2: seq<byte>, ram: seq<byte>,
      disk: seq<byte>,
      table: seq<MemArea>, headerAt: nat, bufAt: nat, v0: nat, vectorIn: nat, h: DumpHeader)
    requires SameOutsideCore(ram0, ram1, headerAt, bufAt) && AreasAvoid(table, headerAt, HEADER_BYTES)
      && AreasAvoid(table, bufAt, SWITCH_BUF_SIZE)
    requires HEADER_BYTES <= |disk0| && h == Decode(disk0[..HEADER_BYTES]) && Accepted(h, table) && 0 < v0 < U32
    requires Switchable(disk0, table) ==> Switched(ram1, disk0, ram2, disk2, table, |table|)
    requires OnlyAreas(ram1, ram2, table, bufAt) && SameOutsideCore(ram2, ram, headerAt, bufAt)
    requires HEADER_BYTES <= |disk2| && disk == Overwrite(disk2, 0, WithVector(disk0[..HEADER_BYTES], v0))
    ensures SwitchEnds(Done, ram0, disk0, ram, disk, table, headerAt, bufAt, v0, vectorIn, h.vector)
  {
    hide Switchable, Switched, SameOutsideCore, AreasAvoid, V.SameOutside, Decode, Overwrite, Accepted,
      ImagesExchanged, ByteOf;
    hide Outside, OnlyAreas, WithVector;
    OutsideFrom(ram0, ram1, ram2, ram, table, headerAt, bufAt);
    if Switchable(disk0, table) {
      var header := WithVector(disk0[..HEADER_BYTES], v0);
      OverwriteOutside(disk2, 0, header);
      ImagesKept(ram0, disk0, ram1, ram2, disk2, ram, disk, table, headerAt, bufAt);
      OverwriteHere(disk2, 0, header);
      assert disk[..HEADER_BYTES] == disk[0..HEADER_BYTES];
    }
  }

  // ----- What a store and a switch leave on the disk -----

  /** A whole store leaves a disk that is switched and loaded as a whole, with the image of memory and
      the vector; it is accepted unless the table is empty. */
  lemma StoredIsDump(ram: seq<byte>, disk0: seq<byte>, disk: seq<byte>, table: seq<MemArea>, vector: nat)
    requires IsStored(ram, disk0, disk, table, vector) && Addressable(table)
    ensures Switchable(disk, table) && FromStore(disk, table) && Decode(disk[..HEADER_BYTES]).vector == vector
    ensures Accepted(Decode(disk[..HEADER_BYTES]), table) <==> |table| != 0
    ensures forall i :: 0 <= i < |table| ==> Extent(disk, table, i) == Area(ram, table, i)
    ensures Stored(disk0, disk, ram, table, |table|)
  {
    hide WholeSectors, Addressable, Describes, DiskAfter, Overwrite, Decode, Accepted, ByteOf, Area, Extent;
    var header := disk[..HEADER_BYTES];
    StoredAfter(disk0, ram, table, |table|);
    StoredHeader(disk0, DiskAfter(disk0, ram, table, |table|), ram, table, header);
    DescribedIsAccepted(Decode(header), table, vector);
    DescribedVector(Decode(header), table, vector);
  }

  lemma DescribedVector(h: DumpHeader, table: seq<MemArea>, vector: nat)
    requires Describes(h, table, vector)
    ensures h.vector == vector
  {
  }

  /** A dump is still one after a switch, and is accepted as before: on and on. */
  lemma SwitchedIsDump(ram0: seq<byte>, disk0: seq<byte>, ram: seq<byte>, disk: seq<byte>, table: seq<MemArea>,
      vector: nat)
    requires Switchable(disk0, table) && IsSwitched(ram0, disk0, ram, disk, table, vector) && vector != 0
    requires Accepted(Decode(disk0[..HEADER_BYTES]), table)
    ensures Switchable(disk, table) && Decode(disk[..HEADER_BYTES]).vector == vector
    ensures Accepted(Decode(disk[..HEADER_BYTES]), table)
  {
    hide WholeSectors, Addressable, Decode, ByteOf, Area, Extent, SectorOf, WithVector;
    HeadDecodes(disk0[..HEADER_BYTES], vector);
  }

  /** Two switches in a row, whatever the vectors: memory and disk are back, but for the vector in the
      header, which is that of the second. */
  lemma SwitchTwiceIsIdentity(ram0: seq<byte>, disk0: seq<byte>, ram1: seq<byte>, disk1: seq<byte>, ram2: seq<byte>,
      disk2: seq<byte>,
      table: seq<MemArea>, v1: nat, v2: nat)
    requires IsSwitched(ram0, disk0, ram1, disk1, table, v1) && IsSwitched(ram1, disk1, ram2, disk2, table, v2)
    ensures forall i ::
      0 <= i < |table| ==>
      Area(ram2, table, i) == Area(ram0, table, i) && Extent(disk2, table, i) == Extent(disk0, table, i)
    ensures disk2 == Overwrite(disk0, VECTOR_AT, Store(v2, 4))
    ensures v2 == Decode(disk0[..HEADER_BYTES]).vector ==> disk2 == disk0
  {
    var d := Overwrite(disk0, VECTOR_AT, Store(v2, 4));
    var b := ByteOf(table, |table|);
    assert d[..HEADER_BYTES] == WithVector(disk0[..HEADER_BYTES], v2) == disk2[..HEADER_BYTES];
    ExtentStart(table, |table|);
    hide ByteOf, Decode, Store, Load;
    forall i | 0 <= i < |table| ensures Extent(d, table, i) == Extent(disk0, table, i) {
      ExtentStart(table, i);
      assert ExtentFits(|disk0|, table, i);
      OverwriteApart(disk0, VECTOR_AT, Store(v2, 4), ByteOf(table, i), ByteOf(table, i) + table[i].size);
    }
    OverwriteApart(disk0, VECTOR_AT, Store(v2, 4), b, |disk0|);
    assert d[b..] == d[b..|disk0|] && disk0[b..] == disk0[b..|disk0|];
    hide Overwrite, Extent, Area;
    SameExtents(d, disk2, table, |table|);
    assert disk2 == disk2[..b] + disk2[b..] && d == d[..b] + d[b..];
    if v2 == Decode(disk0[..HEADER_BYTES]).vector { SameVector(disk0, v2); }
  }

  lemma SameVector(disk: seq<byte>, vector: nat)
    requires HEADER_BYTES <= |disk| && vector == Decode(disk[..HEADER_BYTES]).vector
    ensures Overwrite(disk, VECTOR_AT, Store(vector, 4)) == disk
  {
    hide Store, Load;
    assert disk[..HEADER_BYTES][4..8] == disk[4..8];
    StoreLoad(disk[4..8]);
  }

  /** On and on: before[i] and after[i] are memory at the i-th switch, disks[i] and disks[i + 1] the disk. */
  lemma {:induction false} SwitchesKeepDump(before: seq<seq<byte>>, after: seq<seq<byte>>, disks: seq<seq<byte>>,
      table: seq<MemArea>, vectors: seq<nat>, n: nat)
    requires n <= |before| == |after| == |vectors| && |disks| == |vectors| + 1
    requires Switchable(disks[0], table) && Accepted(Decode(disks[0][..HEADER_BYTES]), table)
    requires forall i ::
      0 <= i < |vectors| ==>
      vectors[i] != 0 && IsSwitched(before[i], disks[i], after[i], disks[i + 1], table, vectors[i])
    ensures Switchable(disks[n], table) && Accepted(Decode(disks[n][..HEADER_BYTES]), table)
  {
    hide Switchable, Accepted, Decode, IsSwitched;
    SwitchableSize(disks[0], table);
    if n > 0 {
      SwitchesKeepDump(before, after, disks, table, vectors, n - 1);
      SwitchableSize(disks[n - 1], table);
      SwitchedIsDump(before[n - 1], disks[n - 1], after[n - 1], disks[n], table, vectors[n - 1]);
    }
  }

  lemma SwitchableSize(disk: seq<byte>, table: seq<MemArea>)
    requires Switchable(disk, table)
    ensures HEADER_BYTES <= |disk|
  {
  }

  /** A store that stopped in the write of an area has not touched the header. */
  lemma HalfStoredHeader(ram: seq<byte>, disk0: seq<byte>, disk: seq<byte>, table: seq<MemArea>, k: nat)
    requires HalfStored(ram, disk0, disk, table, k) && k < |table| && HEADER_BYTES <= |disk0|
    ensures |disk| == |disk0| && disk[..HEADER_BYTES] == disk0[..HEADER_BYTES]
  {
    hide DiskAfter, ByteOf;
    StoredAfter(disk0, ram, table, k);
    ExtentStart(table, k);
    var d := DiskAfter(disk0, ram, table, k);
    SameSlice(disk, d, 0, HEADER_BYTES);
    assert disk[..HEADER_BYTES] == disk[0..HEADER_BYTES] && d[..HEADER_BYTES] == d[0..HEADER_BYTES];
  }

  /** The disk's header is one that a store of this table writes. */
  ghost predicate FromStore(disk: seq<byte>, table: seq<MemArea>) {
    && HEADER_BYTES <= |disk| && WholeSectors(table) && Addressable(table)
    && Describes(Decode(disk[..HEADER_BYTES]), table, Decode(disk[..HEADER_BYTES]).vector)
  }

  /** Every area holds its extent, and outside the areas and core's own memory nothing has changed. */
  ghost predicate IsLoaded(ram0: seq<byte>, ram: seq<byte>, disk: seq<byte>, table: seq<MemArea>, headerAt: nat,
      bufAt: nat)
  {
    && InRam(table, |ram|) && Fits(disk, table, |table|) && Outside(ram0, ram, table, headerAt, bufAt)
    && forall i :: 0 <= i < |table| ==> Area(ram, table, i) == Extent(disk, table, i)
  }

  lemma AllLoaded(ram0: seq<byte>, ram1: seq<byte>, ram: seq<byte>, disk: seq<byte>, table: seq<MemArea>,
      headerAt: nat, bufAt: nat)
    requires SameOutsideCore(ram0, ram1, headerAt, bufAt) && Loaded(ram1, ram, disk, table, |table|)
    ensures IsLoaded(ram0, ram, disk, table, headerAt, bufAt)
  {
    hide InSome, ByteOf;
  }

  /** Store then load: whatever happens to memory in between, loading from the disk that a store left
      brings every area back. */
  lemma StoreThenLoad(ram: seq<byte>, disk0: seq<byte>, disk: seq<byte>, table: seq<MemArea>, vector: nat,
      ram1: seq<byte>, ram2: seq<byte>,
      headerAt: nat, bufAt: nat)
    requires IsStored(ram, disk0, disk, table, vector) && Addressable(table)
    requires FromStore(disk, table) ==> IsLoaded(ram1, ram2, disk, table, headerAt, bufAt)
    ensures InRam(table, |ram|) && InRam(table, |ram2|) && Decode(disk[..HEADER_BYTES]).vector == vector
    ensures forall i :: 0 <= i < |table| ==> Area(ram2, table, i) == Area(ram, table, i)
  {
    hide Addressable, Decode, Area, Extent, InSome, Stored, Accepted, FromStore;
    StoredIsDump(ram, disk0, disk, table, vector);
  }

  lemma AcceptedAreas(h: DumpHeader, table: seq<MemArea>)
    requires Accepted(h, table)
    ensures h.areasSize == |table| <= |h.areas| && forall i :: 0 <= i < |table| ==> h.areas[i].area == table[i]
  {
  }

  /** One read as the header that a store wrote asks for it. */
  lemma AreaLoaded(ram1: seq<byte>, ram0: seq<byte>, ram: seq<byte>, disk: seq<byte>, table: seq<MemArea>, i: nat)
    requires FromStore(disk, table) && i < |table| && Disjoint(table) && Loaded(ram1, ram0, disk, table, i)
    requires HEADER_BYTES <= |disk| && i < |Decode(disk[..HEADER_BYTES]).areas|
    requires var a := Decode(disk[..HEADER_BYTES]).areas[i];
      && a.sector * SECTOR + a.area.size % U32 <= |disk| && a.area.start + a.area.size % U32 <= |ram0|
      && ram == Overwrite(ram0, a.area.start, disk[a.sector * SECTOR..a.sector * SECTOR + a.area.size % U32])
    ensures Loaded(ram1, ram, disk, table, i + 1)
  {
    hide Decode, Overwrite, Loaded, FromStore, ByteOf, SectorOf, Disjoint;
    FromStoreArea(disk, table, i);
    LoadStep(ram1, ram0, disk, table, i);
  }

  lemma FromStoreArea(disk: seq<byte>, table: seq<MemArea>, i: nat)
    requires FromStore(disk, table) && i < |table|
    ensures var h := Decode(disk[..HEADER_BYTES]);
      && h.areas[i].area == table[i] && h.areas[i].sector * SECTOR == ByteOf(table, i)
      && table[i].size < U32 && table[i].size % SECTOR == 0
  {
    hide Decode;
    SectorBytes(table, i);
  }

  /** The header that `fill_dump_header` fills in: sector numbers are cut to 32 bits. */
  ghost predicate LaidOut(h: DumpHeader, table: seq<MemArea>) {
    && h.magic == DUMP_MAGIC && h.areasSize == |table| <= |h.areas| == MAX_RAM_AREAS
    && forall i {:trigger h.areas[i]} :: 0 <= i < |table| ==> h.areas[i] == DiskArea(table[i], SectorOf(table, i) % U32)
  }

  /** A store that has succeeded, as its 32-bit fields make it. */
  ghost predicate IsWritten(ram: seq<byte>, disk0: seq<byte>, disk: seq<byte>, table: seq<MemArea>, vector: nat) {
    && WholeSectors(table) && vector != 0 && |disk| == |disk0| && HEADER_BYTES <= |disk| && InRam(table, |ram|)
    && Targets(disk0, table, |table|)
    && LaidOut(Decode(disk[..HEADER_BYTES]), table) && Decode(disk[..HEADER_BYTES]).vector == vector
    && disk == Overwrite(WrittenAfter(disk0, ram, table, |table|), 0, disk[..HEADER_BYTES])
  }

  /** The store stopped at write k, the last one being that of the header. */
  ghost predicate HalfWritten(ram: seq<byte>, disk0: seq<byte>, disk: seq<byte>, table: seq<MemArea>, k: nat) {
    && k <= |table| && InRam(table, |ram|) && Targets(disk0, table, k)
    && if k < |table| then
         V.SameOutside(WrittenAfter(disk0, ram, table, k), disk, SectorOf(table, k) % U32 * SECTOR, table[k].size % U32)
       else V.SameOutside(WrittenAfter(disk0, ram, table, k), disk, 0, HEADER_BYTES)
  }

  /** A whole store: the header describes the table with the vector, and every extent is its area. */
  ghost predicate IsStored(ram: seq<byte>, disk0: seq<byte>, disk: seq<byte>, table: seq<MemArea>, vector: nat) {
    && WholeSectors(table) && vector != 0 && |disk| == |disk0| && HEADER_BYTES <= |disk| && InRam(table, |ram|)
    && Fits(disk0, table, |table|)
    && Describes(Decode(disk[..HEADER_BYTES]), table, vector)
    && disk == Overwrite(DiskAfter(disk0, ram, table, |table|), 0, disk[..HEADER_BYTES])
  }

  ghost predicate HalfStored(ram: seq<byte>, disk0: seq<byte>, disk: seq<byte>, table: seq<MemArea>, k: nat) {
    && k <= |table| && InRam(table, |ram|) && Fits(disk0, table, k)
    && if k < |table| then V.SameOutside(DiskAfter(disk0, ram, table, k), disk, ByteOf(table, k), table[k].size)
       else V.SameOutside(DiskAfter(disk0, ram, table, k), disk, 0, HEADER_BYTES)
  }

  /** With areas that the fields can hold the areas are stored as a whole. */
  lemma WrittenWholly(ram: seq<byte>, disk0: seq<byte>, disk: seq<byte>, table: seq<MemArea>, vector: nat)
    requires IsWritten(ram, disk0, disk, table, vector) && Addressable(table)
    ensures IsStored(ram, disk0, disk, table, vector)
  {
    hide WholeSectors, Decode, Overwrite, WrittenAfter, DiskAfter, TargetOnDisk, SectorOf;
    WrittenIsStored(disk0, ram, table, |table|);
  }

  lemma HalfWrittenWholly(ram: seq<byte>, disk0: seq<byte>, disk: seq<byte>, table: seq<MemArea>, k: nat)
    requires HalfWritten(ram, disk0, disk, table, k) && WholeSectors(table) && Addressable(table)
    ensures HalfStored(ram, disk0, disk, table, k)
  {
    hide V.SameOutside, WrittenAfter, DiskAfter, TargetOnDisk, SectorOf, ByteOf;
    WrittenIsStored(disk0, ram, table, k);
    if k < |table| { SectorBytes(table, k); }
  }

  lemma NothingWritten(ram: seq<byte>, disk: seq<byte>, table: seq<MemArea>)
    requires InRam(table, |ram|)
    ensures HalfWritten(ram, disk, disk, table, 0)
  {
  }

  lemma AreaFailed(ram: seq<byte>, disk0: seq<byte>, disk: seq<byte>, table: seq<MemArea>, k: nat)
    requires k < |table| && InRam(table, |ram|) && Targets(disk0, table, k)
    requires V.SameOutside(WrittenAfter(disk0, ram, table, k), disk, SectorOf(table, k) % U32 * SECTOR,
      table[k].size % U32)
    ensures HalfWritten(ram, disk0, disk, table, k)
  {
  }

  lemma HeaderFailed(ram: seq<byte>, disk0: seq<byte>, disk: seq<byte>, table: seq<MemArea>)
    requires InRam(table, |ram|) && Targets(disk0, table, |table|)
    requires V.SameOutside(WrittenAfter(disk0, ram, table, |table|), disk, 0, HEADER_BYTES)
    ensures HalfWritten(ram, disk0, disk, table, |table|)
  {
  }

  lemma AllWritten(ram: seq<byte>, disk0: seq<byte>, disk: seq<byte>, table: seq<MemArea>, header: seq<byte>)
    requires |header| == HEADER_BYTES <= |disk0| && InRam(table, |ram|) && Targets(disk0, table, |table|)
    requires WholeSectors(table) && Decode(header).vector != 0 && LaidOut(Decode(header), table)
    requires disk == Overwrite(WrittenAfter(disk0, ram, table, |table|), 0, header)
    ensures IsWritten(ram, disk0, disk, table, Decode(header).vector)
  {
    hide Overwrite, Decode, WrittenAfter, LaidOut, WholeSectors;
    OverwriteHere(WrittenAfter(disk0, ram, table, |table|), 0, header);
    assert disk[..HEADER_BYTES] == disk[0..HEADER_BYTES];
  }

  lemma NothingInside(s: seq<byte>, v: seq<byte>, at: nat)
    requires V.SameOutside(s, v, at, 0)
    ensures s == v
  {
  }
}
