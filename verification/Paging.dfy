/** The identity page tables (core/pm/paging.c): one PML4 and 512 PDPTs of 1 GiB pages, one after the
    other in one region. The walk is that of section 4.5 of the Intel SDM, volume 3A. */
module Paging {
  import opened Arith
  import opened Bits

  /** PT_ENTRIES_NUM, PT_SIZE and the entries of PAGE_TABLE_SIZE (core/pm/script.ld). */
  const N: nat := 512
  const PT_SIZE: nat := 4096
  const ENTRIES: nat := 512 + 512 * 512
  const GB: nat := 0x4000_0000
  const PRESENT: nat := 1
  const RW: nat := 2
  const PAGE_SIZE_BIT: nat := 128

  function Pml4Entry(pdptAddr: nat): nat { Or(Or(pdptAddr, PRESENT), RW) }

  function PdptEntry(pageAddr: nat): nat { Or(Or(Or(pageAddr, PRESENT), RW), PAGE_SIZE_BIT) }

  lemma TwelfthPower()
    ensures Pow2(12) == PT_SIZE
  {
    assert Pow2(4) == 2 * Pow2(3) && Pow2(3) == 2 * Pow2(2) && Pow2(2) == 2 * Pow2(1) && Pow2(1) == 2;
    assert Pow2(8) == 2 * Pow2(7) && Pow2(7) == 2 * Pow2(6) && Pow2(6) == 2 * Pow2(5) && Pow2(5) == 2 * Pow2(4);
    assert Pow2(12) == 2 * Pow2(11) && Pow2(11) == 2 * Pow2(10) && Pow2(10) == 2 * Pow2(9) && Pow2(9) == 2 * Pow2(8);
  }

  /** With the low twelve bits clear, setting the flags is adding them. */
  lemma FlagsAdd(addr: nat)
    requires addr % PT_SIZE == 0
    ensures Pml4Entry(addr) == addr + PRESENT + RW
    ensures PdptEntry(addr) == addr + PRESENT + RW + PAGE_SIZE_BIT
  {
    TwelfthPower();
    var y := addr / PT_SIZE;
    assert addr == y * PT_SIZE;
    SmallOrs();
    hide Or, Pow2;
    OrLow(y, 0, PRESENT, 12);
    OrLow(y, PRESENT, RW, 12);
    OrLow(y, PRESENT + RW, PAGE_SIZE_BIT, 12);
  }

  lemma SmallOrs()
    ensures Or(0, PRESENT) == 1 && Or(PRESENT, RW) == 3 && Or(3, PAGE_SIZE_BIT) == 131
  {
    assert Or(1, 2) == 1 + 2 * Or(0, 1);
    assert Or(3, 128) == 1 + 2 * Or(1, 64) && Or(1, 64) == 1 + 2 * Or(0, 32);
  }

  // ----- The region -----

  /** Entry k of the region at base: first the PML4, then PDPT after PDPT. */
  function Entry(base: nat, k: nat): nat {
    if k < N then base + PT_SIZE * (k + 1) + PRESENT + RW else GB * (k - N) + PRESENT + RW + PAGE_SIZE_BIT
  }

  /** The region lies on a page boundary below 4 GiB. */
  predicate Placed(base: nat) { base % PT_SIZE == 0 && base + 8 * ENTRIES <= U32 }

  ghost predicate Filled(mem: seq<nat>, base: nat, lo: nat, hi: nat) {
    hi <= |mem| && forall k :: lo <= k < hi ==> mem[k] == Entry(base, k)
  }

  /** `setup_pdpt`, for the PDPT at entry `at` of the region. */
  method SetupPdpt(mem: array<nat>, at: nat, pdptIdx: nat, ghost base: nat)
    requires mem.Length == ENTRIES && pdptIdx < N && at == N * (pdptIdx + 1)
    modifies mem
    ensures Filled(mem[..], base, at, at + N)
    ensures forall k :: 0 <= k < ENTRIES && !(at <= k < at + N) ==> mem[k] == old(mem[k])
  {
    for i := 0 to N
      invariant forall k :: at <= k < at + i ==> mem[k] == Entry(base, k)
      invariant forall k :: 0 <= k < ENTRIES && !(at <= k < at + N) ==> mem[k] == old(mem[k])
    {
      var pageAddr := GB * (pdptIdx * N + i);
      PageAligned(pdptIdx * N + i);
      FlagsAdd(pageAddr);
      mem[at + i] := PdptEntry(pageAddr);
    }
  }

  lemma PageAligned(n: nat)
    ensures (GB * n) % PT_SIZE == 0
  {
    assert GB * n == PT_SIZE * (262144 * n);
  }

  /** `setup_pml4`: the whole region, and nothing outside it. */
  method SetupPml4(mem: array<nat>, base: nat)
    requires mem.Length == ENTRIES && Placed(base)
    modifies mem
    ensures Filled(mem[..], base, 0, ENTRIES)
  {
    hide Or;
    for i := 0 to N
      invariant Filled(mem[..], base, 0, i) && Filled(mem[..], base, N, N * (i + 1))
    {
      var pdptAddr := base + PT_SIZE * (i + 1);
      SetupPdpt(mem, (pdptAddr - base) / 8, i, base);
      FlagsAdd(pdptAddr);
      mem[i] := Pml4Entry(pdptAddr);
    }
  }

  // ----- The walk -----

  datatype Access = Fault | Physical(addr: nat, writable: bool)

  /** An 8-byte entry read by its physical address; a read outside the region is a fault here. */
  function Read(mem: seq<nat>, base: nat, addr: nat): (e: nat)
    requires |mem| == ENTRIES
  {
    if base <= addr < base + 8 * ENTRIES && (addr - base) % 8 == 0 then mem[(addr - base) / 8] else 0
  }

  // The fields of an address and of the entries: bit 0 of an entry is present, bit 1 writable; bit 7 has to
  // be 0 in the PML4, and 1 in a PDPT for a 1 GiB page, with the bits below its address reserved.

  function Index4(va: nat): (i: nat)
    ensures i < N
  {
    va / (N * GB) % N
  }

  function Index3(va: nat): (i: nat)
    ensures i < N
  {
    va / GB % N
  }

  predicate PointsToPdpt(e: nat) { e % 2 == 1 && e / 128 % 2 == 0 }

  predicate MapsPage(e: nat) { e % 2 == 1 && e / 128 % 2 == 1 && e / 8192 % 131072 == 0 }

  predicate Writable(e: nat) { e / 2 % 2 == 1 }

  function PdptOf(e: nat): nat { e / PT_SIZE % 0x100_0000_0000 * PT_SIZE }

  function PageOf(e: nat): nat { e / GB % 0x40_0000 * GB }

  /** Four-level paging, as far as the PDPT and its 1 GiB pages. */
  function Walk(mem: seq<nat>, cr3: nat, va: nat): Access
    requires |mem| == ENTRIES
  {
    var e4 := Read(mem, cr3, cr3 + 8 * Index4(va));
    if !PointsToPdpt(e4) then Fault
    else
      var e3 := Read(mem, cr3, PdptOf(e4) + 8 * Index3(va));
      if !MapsPage(e3) then Fault
      else Physical(PageOf(e3) + va % GB, Writable(e4) && Writable(e3))
  }

  /** Every 48-bit address is mapped to itself, writable. */
  lemma WalkIsIdentity(mem: seq<nat>, base: nat, va: nat)
    requires |mem| == ENTRIES && Placed(base) && Filled(mem, base, 0, ENTRIES) && va < N * N * GB
    ensures Walk(mem, base, va) == Physical(va, true)
  {
    hide PointsToPdpt, MapsPage, Writable, PdptOf, PageOf, Index4, Index3, Read;
    var i, j := Index4(va), Index3(va);
    Indices(va);
    ReadAt(mem, base, i);
    Pml4Fields(base, i);
    ReadAt(mem, base, N * (i + 1) + j);
    PdptFields(N * i + j);
  }

  lemma ReadAt(mem: seq<nat>, base: nat, k: nat)
    requires |mem| == ENTRIES && k < ENTRIES
    ensures Read(mem, base, base + 8 * k) == mem[k]
  {
    SameResidue(k, 0, 8);
  }

  lemma Indices(va: nat)
    requires va < N * N * GB
    ensures va == (N * Index4(va) + Index3(va)) * GB + va % GB
  {
    var page := va / GB;
    assert va == page * GB + va % GB;
    assert page == page / N * N + page % N;
    SameResidue(page / N, page % N * GB + va % GB, N * GB);
    assert va / (N * GB) == page / N < N;
  }

  lemma Pml4Fields(base: nat, i: nat)
    requires Placed(base) && i < N
    ensures var e := Entry(base, i);
      PointsToPdpt(e) && Writable(e) && PdptOf(e) == base + 8 * (N * (i + 1))
  {
    var q := base / PT_SIZE + i + 1;
    assert base == base / PT_SIZE * PT_SIZE;
    SameResidue(q, 3, PT_SIZE);
    SameResidue(32 * q, 3, 128);
    SameResidue(16 * q, 0, 2);
    SameResidue(2048 * q + 1, 1, 2);
    SameResidue(1024 * q, 1, 2);
    SameResidue(0, q, 0x100_0000_0000);
  }

  lemma PdptFields(page: nat)
    requires page < N * N
    ensures var e := GB * page + PRESENT + RW + PAGE_SIZE_BIT;
      MapsPage(e) && Writable(e) && PageOf(e) == page * GB
  {
    SameResidue(page, 131, GB);
    SameResidue(131072 * page, 131, 8192);
    SameResidue(page, 0, 131072);
    SameResidue(8388608 * page + 1, 3, 128);
    SameResidue(4194304 * page, 1, 2);
    SameResidue(536870912 * page + 65, 1, 2);
    SameResidue(268435456 * page + 32, 1, 2);
    SameResidue(0, page, 0x40_0000);
  }
}
