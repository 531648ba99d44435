/** Finding, renaming and appending AML methods in the DSDT (uefi/acpi/patch/method.c and dsdt.c). */
module AmlMethod {
  import opened Arith
  import opened Bytes
  import opened PkgLength
  import opened AcpiTable

  const METHOD_OP: nat := 0x14

  // ----- What the scan sees -----
  // aml are the bytes of the definition block, of which the table counts n; at least one more is readable.

  function ParseAt(aml: seq<byte>, n: nat, i: nat): Parsed
    requires i < n < |aml|
  {
    Parse(aml[i + 1..], n - i - 1)
  }

  /** A MethodOp with something that parses as a PkgLength behind it. */
  predicate Candidate(aml: seq<byte>, n: nat, i: nat)
    requires n < |aml|
  {
    i < n && aml[i] == METHOD_OP && ParseAt(aml, n, i).Parsed?
  }

  function NameAt(aml: seq<byte>, n: nat, i: nat): nat
    requires n < |aml| && Candidate(aml, n, i)
  {
    i + 1 + ParseAt(aml, n, i).value.encodedSize
  }

  predicate FitsAt(aml: seq<byte>, n: nat, i: nat)
    requires n < |aml|
  {
    Candidate(aml, n, i) ==> NameAt(aml, n, i) + NAME <= n
  }

  /** The declaration of a method of this name. */
  predicate Declares(aml: seq<byte>, n: nat, i: nat, name: seq<byte>)
    requires n < |aml|
  {
    Candidate(aml, n, i) && FitsAt(aml, n, i) && aml[NameAt(aml, n, i)..NameAt(aml, n, i) + NAME] == name
  }

  ghost predicate NoneFrom(aml: seq<byte>, n: nat, lo: nat, hi: nat)
    requires n < |aml|
  {
    forall i :: lo <= i < hi ==> !Candidate(aml, n, i)
  }

  /** After the first k bytes: where the name was found, and the last PkgLength that was parsed, that of
      the candidate `last`. */
  ghost predicate Scanned(aml: seq<byte>, n: nat, name: seq<byte>, k: nat, start: int, last: int, pkg: Encoding)
    requires k <= n < |aml|
  {
    && (forall i :: 0 <= i < k ==> FitsAt(aml, n, i))
    && -1 <= start <= last < k
    && (start >= 0 ==> Declares(aml, n, start, name))
    && (forall i :: 0 <= i < k && i != start ==> !Declares(aml, n, i, name))
    && (last >= 0 ==> Candidate(aml, n, last) && pkg == ParseAt(aml, n, last).value)
    && NoneFrom(aml, n, last + 1, k)
  }

  ghost predicate Findable(aml: seq<byte>, n: nat, name: seq<byte>)
    requires n < |aml|
  {
    && (forall i :: 0 <= i < n ==> FitsAt(aml, n, i))
    && exists s ::
       0 <= s < n && Declares(aml, n, s, name) && forall i :: 0 <= i < n && i != s ==> !Declares(aml, n, i, name)
  }

  /** `find_method`, on the definition block. It succeeds exactly when every candidate fits and exactly one
      declares the name; the PkgLength that it hands out is that of the last candidate. */
  method FindMethod(aml: seq<byte>, n: nat, name: seq<byte>)
      returns (ok: bool, start: int, pkg: Encoding, ghost last: int)
    requires n < |aml| && |name| == NAME
    ensures ok <==> Findable(aml, n, name)
    ensures ok ==> start >= 0 && Scanned(aml, n, name, n, start, last, pkg)
  {
    hide Parse, Scanned, Candidate, Findable;
    start, pkg, last := -1, Encoding(0, 0, []), -1;
    NothingScanned(aml, n, name, pkg);
    for i := 0 to n
      invariant Scanned(aml, n, name, i, start, last, pkg)
    {
      ScanStep(aml, n, name, i, start, last, pkg);
      if aml[i] != METHOD_OP { continue; }
      var p := ParsePkgLength(aml[i + 1..], n - i - 1);
      if p.Failed? { continue; }
      pkg := p.value;
      if i + 1 + pkg.encodedSize + NAME > n {
        return false, start, pkg, last;
      }
      last := i;
      if aml[i + 1 + pkg.encodedSize..i + 1 + pkg.encodedSize + NAME] != name { continue; }
      if start != -1 { return false, start, pkg, last; }
      start := i;
    }
    ScanDone(aml, n, name, start, last, pkg);
    ok := start != -1;
  }

  lemma NothingScanned(aml: seq<byte>, n: nat, name: seq<byte>, pkg: Encoding)
    requires n < |aml|
    ensures Scanned(aml, n, name, 0, -1, -1, pkg)
  {
  }

  lemma ScanDone(aml: seq<byte>, n: nat, name: seq<byte>, start: int, last: int, pkg: Encoding)
    requires n < |aml| && Scanned(aml, n, name, n, start, last, pkg)
    ensures Findable(aml, n, name) <==> start != -1
  {
    hide Declares, FitsAt, NoneFrom, Candidate;
  }

  /** What the byte at i adds. */
  lemma ScanStep(aml: seq<byte>, n: nat, name: seq<byte>, i: nat, start: int, last: int, pkg: Encoding)
    requires i < n < |aml| && Scanned(aml, n, name, i, start, last, pkg)
    ensures if aml[i] != METHOD_OP || ParseAt(aml, n, i).Failed? then Scanned(aml, n, name, i + 1, start, last, pkg)
            else
              var p := ParseAt(aml, n, i).value;
              var at := i + 1 + p.encodedSize;
              if at + NAME > n then !Findable(aml, n, name)
              else if aml[at..at + NAME] != name then Scanned(aml, n, name, i + 1, start, i, p)
              else if start != -1 then !Findable(aml, n, name)
              else Scanned(aml, n, name, i + 1, i, i, p)
  {
    hide Parse, Scanned, Findable;
    if !Candidate(aml, n, i) {
      ScanPasses(aml, n, name, i, start, last, pkg);
    } else {
      ScanTakes(aml, n, name, i, start, last, pkg);
    }
  }

  lemma ScanPasses(aml: seq<byte>, n: nat, name: seq<byte>, i: nat, start: int, last: int, pkg: Encoding)
    requires i < n < |aml| && Scanned(aml, n, name, i, start, last, pkg) && !Candidate(aml, n, i)
    ensures Scanned(aml, n, name, i + 1, start, last, pkg)
  {
    assert FitsAt(aml, n, i) && !Declares(aml, n, i, name);
    hide Candidate, FitsAt, Declares, NoneFrom;
    NoneMore(aml, n, last + 1, i);
  }

  lemma ScanTakes(aml: seq<byte>, n: nat, name: seq<byte>, i: nat, start: int, last: int, pkg: Encoding)
    requires i < n < |aml| && Scanned(aml, n, name, i, start, last, pkg) && Candidate(aml, n, i)
    ensures
      var p := ParseAt(aml, n, i).value;
      if !FitsAt(aml, n, i) then !Findable(aml, n, name)
      else if !Declares(aml, n, i, name) then Scanned(aml, n, name, i + 1, start, i, p)
      else if start != -1 then !Findable(aml, n, name)
      else Scanned(aml, n, name, i + 1, i, i, p)
  {
    hide Candidate, FitsAt, Declares, NoneFrom;
    NoneMore(aml, n, last + 1, i);
  }

  lemma NoneMore(aml: seq<byte>, n: nat, lo: nat, i: nat)
    requires i < n < |aml| && NoneFrom(aml, n, lo, i)
    ensures !Candidate(aml, n, i) ==> NoneFrom(aml, n, lo, i + 1)
    ensures NoneFrom(aml, n, i + 1, i + 1)
  {
    hide Candidate;
  }

  /** The byte past the table, that a PkgLength may be read from, never decides anything. */
  lemma PastIsIgnored(aml: seq<byte>, aml': seq<byte>, n: nat, name: seq<byte>)
    requires n < |aml| && n < |aml'| && aml[..n] == aml'[..n] && |name| == NAME
    ensures Findable(aml, n, name) <==> Findable(aml', n, name)
  {
    forall i | 0 <= i < n
      ensures Candidate(aml, n, i) == Candidate(aml', n, i) && FitsAt(aml, n, i) == FitsAt(aml', n, i)
        && Declares(aml, n, i, name) == Declares(aml', n, i, name)
    {
      PastIsIgnoredAt(aml, aml', n, name, i);
    }
    hide Candidate, FitsAt, Declares;
    if Findable(aml, n, name) {
      var s :| 0 <= s < n && Declares(aml, n, s, name)
        && forall i :: 0 <= i < n && i != s ==> !Declares(aml, n, i, name);
      assert Declares(aml', n, s, name);
    }
    if Findable(aml', n, name) {
      var s :| 0 <= s < n && Declares(aml', n, s, name)
        && forall i :: 0 <= i < n && i != s ==> !Declares(aml', n, i, name);
      assert Declares(aml, n, s, name);
    }
  }

  lemma PastIsIgnoredAt(aml: seq<byte>, aml': seq<byte>, n: nat, name: seq<byte>, i: nat)
    requires i < n < |aml| && n < |aml'| && aml[..n] == aml'[..n] && |name| == NAME
    ensures Candidate(aml, n, i) == Candidate(aml', n, i) && FitsAt(aml, n, i) == FitsAt(aml', n, i)
      && Declares(aml, n, i, name) == Declares(aml', n, i, name)
  {
    hide Parse;
    SamePart(aml, aml', n, i, i + 1);
    assert aml[i] == aml[i..i + 1][0] && aml'[i] == aml'[i..i + 1][0];
    SamePart(aml, aml', n, i + 1, n);
    assert aml[i + 1..][..n - i - 1] == aml[i + 1..n] && aml'[i + 1..][..n - i - 1] == aml'[i + 1..n];
    OnlyCounted(aml[i + 1..], aml'[i + 1..], n - i - 1);
    if Candidate(aml, n, i) && NameAt(aml, n, i) + NAME <= n {
      SamePart(aml, aml', n, NameAt(aml, n, i), NameAt(aml, n, i) + NAME);
    }
  }

  /** The byte at i once the name is written at `at`. */
  function Named(c: seq<byte>, at: nat, name: seq<byte>, i: nat): byte
    requires |name| == NAME && i < |c|
  {
    if at <= i < at + NAME then name[i - at] else c[i]
  }

  /** Under both names, the one written at a and the one written at b, every byte comes out the same: what
      one write leaves alone is already what the other writes there, and where they overlap they agree. */
  ghost predicate Blends(c: seq<byte>, a: nat, b: nat, name: seq<byte>)
    requires |name| == NAME && a + NAME <= |c| && b + NAME <= |c|
  {
    forall i :: a <= i < a + NAME || b <= i < b + NAME ==> Named(c, a, name, i) == Named(c, b, name, i)
  }

  lemma RenamedSame(c: seq<byte>, a: nat, b: nat, name: seq<byte>)
    requires |name| == NAME && HEADER <= a && HEADER <= b && a + NAME <= |c| && b + NAME <= |c|
    ensures Renamed(c, a, name) == Renamed(c, b, name) <==> Blends(c, a, b, name)
  {
    var s, t := Renamed(c, a, name), Renamed(c, b, name);
    hide Sum, Overwrite;
    forall i | 0 <= i < |c| && i != CHECKSUM_AT
      ensures s[i] == Overwrite(c, a, name)[i] == Named(c, a, name, i)
        && t[i] == Overwrite(c, b, name)[i] == Named(c, b, name, i)
    {
      OverwriteByte(c, a, name, i);
      OverwriteByte(c, b, name, i);
    }
    hide Renamed;
    if Blends(c, a, b, name) {
      forall i | 0 <= i < |c| && i != CHECKSUM_AT ensures Overwrite(c, a, name)[i] == Overwrite(c, b, name)[i] {
        assert Named(c, a, name, i) == Named(c, b, name, i);
      }
      FixedSame(Overwrite(c, a, name), Overwrite(c, b, name));
      RenamedIs(c, a, name);
      RenamedIs(c, b, name);
    }
  }

  lemma RenamedIs(c: seq<byte>, at: nat, name: seq<byte>)
    requires HEADER <= at && at + |name| <= |c|
    ensures Renamed(c, at, name) == Fixed(Overwrite(c, at, name))
  {
  }

  /** Names that differ in the first and in the last byte do not blend at another place. */
  lemma NoBlend(c: seq<byte>, a: nat, b: nat, name: seq<byte>, modified: seq<byte>)
    requires |name| == NAME == |modified| && a + NAME <= |c| && b + NAME <= |c| && c[a..a + NAME] == name && a != b
    requires name[0] != modified[0] && name[3] != modified[3]
    ensures !Blends(c, a, b, modified)
  {
    assert c[a] == c[a..a + NAME][0] && c[a + 3] == c[a..a + NAME][3];
    var i := if a < b then a else a + 3;
    assert Named(c, a, modified, i) != Named(c, b, modified, i);
  }

  ghost predicate LastCandidate(aml: seq<byte>, n: nat, l: nat)
    requires n < |aml|
  {
    Candidate(aml, n, l) && NoneFrom(aml, n, l + 1, n)
  }

  function SizeAt(aml: seq<byte>, n: nat, i: nat): nat
    requires n < |aml| && Candidate(aml, n, i)
  {
    ParseAt(aml, n, i).value.encodedSize
  }

  /** What a rename makes of the table c: it writes behind the only declaration s of the name, but as far
      behind it as the last candidate l would have its name. That is the rename of the name at s exactly
      when both PkgLengths are encoded in as many bytes, or when the two writes happen to blend. */
  ghost predicate RenameOutcome(c: seq<byte>, aml: seq<byte>, n: nat, name: seq<byte>, modified: seq<byte>,
      c': seq<byte>, s: nat, l: nat)
  {
    && |modified| == NAME && n < |aml| && |c| == HEADER + n && Declares(aml, n, s, name) && LastCandidate(aml, n, l)
    && (forall i :: 0 <= i < n && i != s ==> !Declares(aml, n, i, name))
    && s + 1 + SizeAt(aml, n, l) + NAME <= n && NameAt(aml, n, s) + NAME <= n
    && var at, there := HEADER + NameAt(aml, n, s), HEADER + s + 1 + SizeAt(aml, n, l);
    && c' == Renamed(c, there, modified)
    && (c' == Renamed(c, at, modified) <==> SizeAt(aml, n, l) == SizeAt(aml, n, s) || Blends(c, at, there, modified))
    && (|name| == NAME && name[0] != modified[0] && name[3] != modified[3] ==>
          (c' == Renamed(c, at, modified) <==> SizeAt(aml, n, l) == SizeAt(aml, n, s)))
  }

  lemma BehindHeader(c: seq<byte>, aml: seq<byte>, n: nat, at: nat)
    requires |c| == HEADER + n && n <= |aml| && c[HEADER..] == aml[..n] && at + NAME <= n
    ensures c[HEADER + at..HEADER + at + NAME] == aml[at..at + NAME]
  {
    var here, there := c[HEADER + at..HEADER + at + NAME], aml[at..at + NAME];
    forall k | 0 <= k < NAME ensures here[k] == there[k] {
      assert c[HEADER + at + k] == c[HEADER..][at + k] == aml[..n][at + k];
    }
  }

  lemma RenameHits(c: seq<byte>, aml: seq<byte>, n: nat, name: seq<byte>, modified: seq<byte>, s: nat, l: nat,
      pkg: Encoding)
    requires n < |aml| && |name| == NAME == |modified| && Scanned(aml, n, name, n, s, l, pkg)
    requires |c| == HEADER + n && c[HEADER..] == aml[..n]
    ensures s + 1 + pkg.encodedSize + NAME <= n
    ensures RenameOutcome(c, aml, n, name, modified, Renamed(c, HEADER + s + 1 + pkg.encodedSize, modified), s, l)
  {
    hide Parse, Renamed, Blends;
    assert FitsAt(aml, n, l) && FitsAt(aml, n, s);
    var at, there := HEADER + NameAt(aml, n, s), HEADER + s + 1 + SizeAt(aml, n, l);
    RenamedSame(c, at, there, modified);
    BehindHeader(c, aml, n, at - HEADER);
    if at != there && name[0] != modified[0] && name[3] != modified[3] { NoBlend(c, at, there, name, modified); }
  }

  /** When it hits, the declaration is one of the new name. */
  lemma RenamedDeclares(aml: seq<byte>, n: nat, start: nat, name: seq<byte>, modified: seq<byte>)
    requires n < |aml| && |modified| == NAME && Declares(aml, n, start, name)
    ensures Declares(Overwrite(aml, NameAt(aml, n, start), modified), n, start, modified)
  {
    hide Parse, Overwrite;
    var at := NameAt(aml, n, start);
    var aml' := Overwrite(aml, at, modified);
    OverwriteByte(aml, at, modified, start);
    OverwriteHere(aml, at, modified);
    OverwriteApart(aml, at, modified, start + 1, at);
    var e := at - start - 1;
    SameParse(aml[start + 1..], aml'[start + 1..], n - start - 1, e, aml[start + 1..at], aml'[start + 1..at]);
  }

  lemma SameParse(a: seq<byte>, b: seq<byte>, n: nat, e: nat, a0: seq<byte>, b0: seq<byte>)
    requires n < |a| == |b| && Parse(a, n).Parsed? && e == Parse(a, n).value.encodedSize == |a0| <= n && a0 == a[..e]
      && b0 == b[..e] && a0 == b0
    ensures Parse(b, n) == Parse(a, n)
  {
    hide Load;
    assert b[0] == b0[0] == a0[0] == a[0];
    if a[0] > 63 { assert a[1..e] == a0[1..e] && b[1..e] == b0[1..e]; }
  }

  const SHADOWED: seq<byte> := [0x14, 0x40, 0x01, 0x41, 0x42, 0x43, 0x44, 0x00, 0x14, 0x06, 0x45, 0x46, 0x47, 0x48,
    0x00, 0x00]

  /** It can miss: behind a declaration whose PkgLength takes two bytes comes one that takes one byte, and
      the rename goes to the second byte of the PkgLength and not to the name behind it. */
  lemma RenameMisses(start: int, last: int, pkg: Encoding)
    ensures var name := [0x41, 0x42, 0x43, 0x44];
      && Findable(SHADOWED, 15, name)
      && (Scanned(SHADOWED, 15, name, 15, start, last, pkg) && start >= 0 ==>
          start == 0 && NameAt(SHADOWED, 15, 0) == 3 && start + 1 + pkg.encodedSize == 2)
  {
    var name: seq<byte> := [0x41, 0x42, 0x43, 0x44];
    ShadowedCandidates();
    hide Parse, NameAt, ParseAt, Candidate;
    assert forall i :: 0 <= i < 15 ==> FitsAt(SHADOWED, 15, i);
    assert Declares(SHADOWED, 15, 0, name);
    assert forall i :: 0 <= i < 15 && i != 0 ==> !Declares(SHADOWED, 15, i, name);
    assert Findable(SHADOWED, 15, name);
    if Scanned(SHADOWED, 15, name, 15, start, last, pkg) && start >= 0 {
      assert Declares(SHADOWED, 15, start, name);
      assert Candidate(SHADOWED, 15, 8) && Candidate(SHADOWED, 15, last);
      assert last == 8;
    }
  }

  lemma ShadowedCandidates()
    ensures forall i :: 0 <= i < 15 ==> (Candidate(SHADOWED, 15, i) <==> i == 0 || i == 8)
    ensures ParseAt(SHADOWED, 15, 8).value.encodedSize == 1 && NameAt(SHADOWED, 15, 0) == 3
      && NameAt(SHADOWED, 15, 8) == 10
    ensures SHADOWED[3..7] == [0x41, 0x42, 0x43, 0x44] && SHADOWED[10..14] != [0x41, 0x42, 0x43, 0x44]
  {
    ParsesTwo(SHADOWED[1..]);
    ParsesOne(SHADOWED[9..]);
    hide Parse;
    assert forall i :: 0 <= i < 15 && i != 0 && i != 8 ==> SHADOWED[i] != METHOD_OP;
    assert SHADOWED[10..14][0] == 0x45;
  }

  lemma ParsesTwo(a: seq<byte>)
    requires |a| == 15 && a[0] == 0x40
    ensures Parse(a, 14).Parsed? && Parse(a, 14).value.encodedSize == 2
  {
    hide Load;
  }

  lemma ParsesOne(b: seq<byte>)
    requires |b| == 7 && b[0] == 6
    ensures Parse(b, 6).Parsed? && Parse(b, 6).value.encodedSize == 1
  {
  }

  // ----- The tables -----

  const FADT_DSDT: nat := 40
  const FADT_X_DSDT: nat := 140
  const FADT_BYTES: nat := 148

  /** A table in memory, with its address. There is always a readable byte past it. */
  class Table {
    const addr: nat
    const mem: array<byte>

    constructor (addr: nat, size: nat)
      ensures this.addr == addr && fresh(mem) && mem.Length == size
    {
      this.addr := addr;
      mem := new byte[size];
    }

    ghost predicate Valid() reads mem { HEADER <= mem.Length && HEADER <= LengthOf(mem[..]) < mem.Length
        && LengthOf(mem[..]) < U32 }

    ghost function Contents(): (c: seq<byte>)
      reads mem
      requires Valid()
      ensures IsTable(c)
    {
      var n := LengthOf(mem[..]);
      assert mem[..n][LENGTH_AT..LENGTH_AT + 4] == mem[..][LENGTH_AT..LENGTH_AT + 4];
      mem[..n]
    }
  }

  /** `fix_table_checksum`. */
  method FixTableChecksum(mem: array<byte>)
    requires HEADER <= mem.Length && HEADER <= LengthOf(mem[..]) <= mem.Length
    modifies mem
    ensures var n := old(LengthOf(mem[..]));
      mem[..] == Fixed(old(mem[..n])) + old(mem[n..])
  {
    hide Sum, Load;
    ghost var m := mem[..];
    mem[CHECKSUM_AT] := 0;
    ghost var z := mem[..];
    assert z == m[CHECKSUM_AT := 0] && z[LENGTH_AT..LENGTH_AT + 4] == m[LENGTH_AT..LENGTH_AT + 4];
    assert mem[LENGTH_AT..LENGTH_AT + 4] == z[LENGTH_AT..LENGTH_AT + 4];
    var n := Load(mem[LENGTH_AT..LENGTH_AT + 4]);
    var checksum: nat := 0;
    SumNone();
    for i := 0 to n
      invariant mem[..] == z && checksum == Sum(z[..i]) % 256 < 256
    {
      SumMore(z, i);
      checksum := (checksum + mem[i]) % 256;
    }
    assert z[..n] == m[..n][CHECKSUM_AT := 0];
    mem[CHECKSUM_AT] := (256 - checksum) % 256;
    NegatedModulo(Sum(z[..n]));
    assert mem[..] == Fixed(m[..n]) + m[n..];
  }

  lemma SumNone()
    ensures Sum([]) == 0
  {
  }

  lemma SumMore(s: seq<byte>, i: nat)
    requires i < |s|
    ensures Sum(s[..i + 1]) == Sum(s[..i]) + s[i] && (Sum(s[..i]) % 256 + s[i]) % 256 == Sum(s[..i + 1]) % 256
  {
    assert s[..i + 1][..i] == s[..i];
    ModuloAdd(Sum(s[..i]), s[i]);
  }

  lemma ModuloAdd(x: nat, y: nat)
    ensures (x % 256 + y) % 256 == (x + y) % 256
  {
  }

  lemma NegatedModulo(sum: nat)
    ensures Negated(sum) == Negated(sum % 256) == (256 - sum % 256) % 256
  {
    var r := sum % 256;
    assert r % 256 == r;
  }

  /** The bytes of the FADT after its redirection: both pointers, and a checksum that counts. */
  ghost predicate FadtPoints(m: seq<byte>, m': seq<byte>, addr: nat) {
    && FADT_BYTES <= |m| == |m'| && addr < U32 && HEADER <= LengthOf(m) <= |m|
    && m' == Fixed(Pointing(m, addr)[..LengthOf(m)]) + Pointing(m, addr)[LengthOf(m)..]
  }

  /** The FADT with both DSDT pointers set. */
  function Pointing(m: seq<byte>, addr: nat): (r: seq<byte>)
    requires FADT_BYTES <= |m|
    ensures |r| == |m|
  {
    Overwrite(Overwrite(m, FADT_X_DSDT, Store(addr, 8)), FADT_DSDT, Store(addr % U32, 4))
  }

  lemma PointsThere(m: seq<byte>, addr: nat)
    requires FADT_BYTES <= |m| && addr < U32
    ensures var r := Pointing(m, addr);
      && Load(r[FADT_X_DSDT..FADT_X_DSDT + 8]) == addr == Load(r[FADT_DSDT..FADT_DSDT + 4])
      && forall i ::
         0 <= i < |m| && !(FADT_DSDT <= i < FADT_DSDT + 4) && !(FADT_X_DSDT <= i < FADT_X_DSDT + 8) ==> r[i] == m[i]
  {
    hide Overwrite, Store, Load, Pow256;
    var x := Overwrite(m, FADT_X_DSDT, Store(addr, 8));
    Pow256Values();
    LoadStore(addr, 8);
    LoadStore(addr, 4);
    OverwriteHere(m, FADT_X_DSDT, Store(addr, 8));
    OverwriteHere(x, FADT_DSDT, Store(addr, 4));
    OverwriteApart(x, FADT_DSDT, Store(addr, 4), FADT_X_DSDT, FADT_X_DSDT + 8);
    OverwriteBytes(m, FADT_X_DSDT, Store(addr, 8));
    OverwriteBytes(x, FADT_DSDT, Store(addr, 4));
  }

  lemma SameLength(m: seq<byte>, addr: nat)
    requires FADT_BYTES <= |m|
    ensures LengthOf(Pointing(m, addr)) == LengthOf(m)
  {
    hide Overwrite, Store, Load;
    var x := Overwrite(m, FADT_X_DSDT, Store(addr, 8));
    OverwriteApart(m, FADT_X_DSDT, Store(addr, 8), LENGTH_AT, LENGTH_AT + 4);
    OverwriteApart(x, FADT_DSDT, Store(addr % U32, 4), LENGTH_AT, LENGTH_AT + 4);
  }

  /** The FADT m against the one m0 that the firmware made: only checksum and DSDT pointers may differ, and
      once the DSDT is patched both name the current table and the bytes sum to 0. */
  ghost predicate FadtKept(m0: seq<byte>, m: seq<byte>, patched: bool, addr: nat) {
    && FADT_BYTES <= |m0| == |m| && LengthOf(m) == LengthOf(m0) && HEADER <= LengthOf(m0) <= |m0|
    && (forall i ::
          0 <= i < |m| && i != CHECKSUM_AT
          && !(FADT_DSDT <= i < FADT_DSDT + 4) && !(FADT_X_DSDT <= i < FADT_X_DSDT + 8) ==>
            m[i] == m0[i])
    && if patched then
         && Load(m[FADT_X_DSDT..FADT_X_DSDT + 8]) == addr == Load(m[FADT_DSDT..FADT_DSDT + 4])
         && Sum(m[..LengthOf(m)]) % 256 == 0
       else m == m0
  }

  lemma FadtKeeps(m0: seq<byte>, m: seq<byte>, patched: bool, before: nat, m': seq<byte>, addr: nat)
    requires FadtKept(m0, m, patched, before) && FadtPoints(m, m', addr)
    ensures FadtKept(m0, m', true, addr)
  {
    FadtPointsThere(m, m', addr);
    hide Sum, Load, LengthOf, Pointing, Fixed;
    SameLength(m, addr);
    FixedPrefix(m', Pointing(m, addr), LengthOf(m));
  }

  /** What the firmware answers to its n-th request for pages, for so many bytes: 0 for none, or their
      address, below 4 GiB as the request asks. */
  type Pages = (nat, nat) -> nat

  ghost predicate BelowFourGiB(pages: Pages) {
    forall n, size :: pages(n, size) == 0 || pages(n, size) + size <= U32
  }

  /** Whether part i of a method can be appended to a table of `size` bytes that has had the others. */
  ghost predicate Granted(pages: Pages, asked: nat, size: nat, parts: seq<seq<byte>>, i: nat)
    requires i < |parts|
  {
    pages(asked + i, size + |Concat(parts[..i + 1])|) != 0
  }

  /** `g_dsdt`, `g_fadt`, `g_is_dsdt_patched`, and the tables that were allocated and freed. */
  class Acpi {
    var dsdt: Table
    const fadt: Table
    var patched: bool
    ghost const original: Table
    ghost const fadt0: seq<byte>
    const pages: Pages
    /** How often pages have been asked for. */
    var asked: nat
    ghost var owned: set<Table>
    ghost var freed: set<Table>

    ghost predicate Valid()
      reads this, dsdt.mem, fadt.mem
    {
      && dsdt.Valid() && fadt.Valid() && FADT_BYTES <= fadt.mem.Length && fadt.mem != dsdt.mem
      && original !in owned && fadt !in owned && Held() && FadtKept(fadt0, fadt.mem[..], patched, dsdt.addr)
      && BelowFourGiB(pages)
    }

    /** Of the tables that it allocated, all but the current one have been freed, and no others; the
        original is current until the first append. */
    ghost predicate Held()
      reads this
    {
      if patched then dsdt in owned && freed == owned - {dsdt} else dsdt == original && owned == {} == freed
    }

    constructor (dsdt: Table, fadt: Table, pages: Pages)
      requires dsdt.Valid() && fadt.Valid() && FADT_BYTES <= fadt.mem.Length && fadt.mem != dsdt.mem
      requires BelowFourGiB(pages)
      ensures Valid() && this.dsdt == dsdt && this.fadt == fadt && original == dsdt && fadt0 == fadt.mem[..] && !patched
      ensures this.pages == pages && asked == 0
    {
      this.dsdt, this.fadt, original, patched, owned, freed := dsdt, fadt, dsdt, false, {}, {};
      fadt0 := fadt.mem[..];
      this.pages, asked := pages, 0;
    }

    /** `alloc_patched_dsdt`: pages below 4 GiB, many more than asked for, or none. */
    method AllocPatchedDsdt(size: nat) returns (ok: bool, t: Table?)
      requires BelowFourGiB(pages)
      modifies `asked
      ensures asked == old(asked) + 1 && (ok <==> pages(old(asked), size) != 0)
      ensures ok ==>
        && t != null && fresh(t) && fresh(t.mem) && size < t.mem.Length
        && t.addr == pages(old(asked), size) && t.addr + size <= U32
    {
      t := null;
      var addr := pages(asked, size);
      asked := asked + 1;
      if addr == 0 { return false, t; }
      ok := true;
      t := new Table(addr, size + 1);
    }

    /** `redirect_dsdt`. */
    method RedirectDsdt(addr: nat)
      requires Valid() && addr < U32
      modifies fadt.mem
      ensures fadt.Valid() && dsdt.Valid() && dsdt.Contents() == old(dsdt.Contents())
      ensures FadtPoints(old(fadt.mem[..]), fadt.mem[..], addr)
    {
      hide Sum, Load, Store, Overwrite, LengthOf, Fixed, FadtPoints, FadtKept;
      ghost var m := fadt.mem[..];
      SameLength(m, addr);
      Poke(fadt.mem, FADT_X_DSDT, Store(addr, 8));
      Poke(fadt.mem, FADT_DSDT, Store(addr % U32, 4));
      assert fadt.mem[..] == Pointing(m, addr);
      FixTableChecksum(fadt.mem);
      Pointed(m, fadt.mem[..], addr);
    }

    /** `append_dsdt`. */
    method AppendDsdt(aml: seq<byte>) returns (ok: bool)
      requires Valid()
      modifies this, fadt.mem
      ensures Valid() && asked == old(asked) + 1
      ensures ok <==> pages(old(asked), |old(dsdt.Contents())| + |aml|) != 0
      ensures ok ==> fresh(dsdt) && fresh(dsdt.mem) && patched && dsdt.Contents() == Appended(old(dsdt.Contents()), aml)
      ensures ok ==> owned == old(owned) + {dsdt} && Sum(dsdt.Contents()) % 256 == 0
      ensures ok ==> dsdt.addr == pages(old(asked), |old(dsdt.Contents())| + |aml|)
      ensures !ok ==>
        && unchanged(`dsdt) && unchanged(`patched) && unchanged(`owned) && unchanged(`freed)
        && unchanged(fadt.mem) && dsdt.Contents() == old(dsdt.Contents())
    {
      hide Sum, Load, Store, Overwrite, Appended, LengthOf, FadtPoints, FadtKept;
      var n := LengthOf(dsdt.mem[..]);
      ghost var c, m := dsdt.Contents(), fadt.mem[..];
      var t;
      ok, t := AllocPatchedDsdt(n + |aml|);
      if !ok { return; }
      FillTable(t.mem, dsdt.mem, n, aml);
      AppendedIsTable(c, aml);
      RedirectDsdt(t.addr);
      FadtKeeps(fadt0, m, patched, dsdt.addr, fadt.mem[..], t.addr);
      if patched {
        freed := freed + {dsdt};
      }
      dsdt, patched, owned := t, true, owned + {t};
    }

    /** `append_method`: stops exactly at the first part that there are no pages for. */
    method AppendMethod(parts: seq<seq<byte>>) returns (ok: bool, ghost k: nat)
      requires Valid()
      modifies this, fadt.mem
      ensures Valid() && k <= |parts| && (ok <==> k == |parts|)
      ensures forall i :: 0 <= i < k ==> Granted(pages, old(asked), |old(dsdt.Contents())|, parts, i)
      ensures !ok ==> !Granted(pages, old(asked), |old(dsdt.Contents())|, parts, k)
      ensures dsdt.Contents() == AppendedParts(old(dsdt.Contents()), parts[..k])
      ensures k == 0 ==> dsdt == old(dsdt)
      ensures k > 0 ==> patched && fresh(dsdt.mem) && Sum(dsdt.Contents()) % 256 == 0
      ensures old(owned) <= owned && fresh(owned - old(owned))
    {
      hide Sum, Appended, FadtKept, LengthOf, BelowFourGiB, Granted, Concat, AppendedParts;
      k := 0;
      NoParts(dsdt.Contents(), parts);
      ghost var size := |dsdt.Contents()|;
      for i := 0 to |parts|
        invariant Valid() && k == i && dsdt.Contents() == AppendedParts(old(dsdt.Contents()), parts[..i])
        invariant asked == old(asked) + i && |dsdt.Contents()| == size + |Concat(parts[..i])|
        invariant forall j :: 0 <= j < i ==> Granted(pages, old(asked), size, parts, j)
        invariant k == 0 ==> dsdt == old(dsdt)
        invariant k > 0 ==> patched && fresh(dsdt.mem) && Sum(dsdt.Contents()) % 256 == 0
        invariant old(owned) <= owned && fresh(owned - old(owned))
      {
        OnePart(old(dsdt.Contents()), dsdt.Contents(), pages, old(asked), size, parts, i);
        ok := AppendDsdt(parts[i]);
        if !ok { return; }
        k := k + 1;
      }
      assert parts[..|parts|] == parts;
      ok := true;
    }

    /** `rename_method`, in place. The check that it makes before it writes cannot fail any more. */
    method RenameMethod(name: seq<byte>, modified: seq<byte>)
        returns (ok: bool, start: int, pkg: Encoding, ghost last: int)
      requires Valid()
      modifies dsdt.mem
      ensures Valid() && |dsdt.Contents()| == |old(dsdt.Contents())|
      ensures ok <==>
        |name| == NAME == |modified| && Findable(old(dsdt.mem[HEADER..]), |old(dsdt.Contents())| - HEADER, name)
      ensures ok ==>
                && start >= 0 && last >= 0
                && RenameOutcome(old(dsdt.Contents()), old(dsdt.mem[HEADER..]), |old(dsdt.Contents())| - HEADER, name,
                   modified, dsdt.Contents(), start, last)
                && Sum(dsdt.Contents()) % 256 == 0
      ensures !ok ==> dsdt.mem[..] == old(dsdt.mem[..])
    {
      hide Sum, Load, Overwrite, LengthOf, Fixed, Findable, Scanned, FadtKept, RenameOutcome;
      start, pkg, last := -1, Encoding(0, 0, []), -1;
      if |name| != NAME { return false, start, pkg, last; }
      if |modified| != NAME { return false, start, pkg, last; }
      var aml, n := dsdt.mem[HEADER..], LengthOf(dsdt.mem[..]) - HEADER;
      ok, start, pkg, last := FindMethod(aml, n, name);
      if !ok { return; }
      ghost var m, c := dsdt.mem[..], dsdt.Contents();
      ScannedLast(aml, n, name, start, last, pkg);
      assert c[HEADER..] == aml[..n];
      RenameHits(c, aml, n, name, modified, start, last, pkg);
      var offset := start + 1 + pkg.encodedSize;
      if offset + NAME > n { return false, start, pkg, last; }
      RenamedIsTable(c, HEADER + offset, modified);
      Poke(dsdt.mem, HEADER + offset, modified);
      PokedPrefix(m, HEADER + offset, modified, HEADER + n);
      FixTableChecksum(dsdt.mem);
      FixedPrefix(dsdt.mem[..], Overwrite(m, HEADER + offset, modified), HEADER + n);
    }

    /** `hook_method`: c is the table between the rename and the appends, of which the first k succeed. */
    method HookMethod(name: seq<byte>, modified: seq<byte>, parts: seq<seq<byte>>)
      returns (ok: bool, start: int, pkg: Encoding, ghost last: int, ghost c: seq<byte>, ghost k: nat)
      requires Valid()
      modifies this, dsdt.mem, fadt.mem
      ensures Valid() && k <= |parts|
      ensures var n := |old(dsdt.Contents())| - HEADER;
              var found := |name| == NAME == |modified| && Findable(old(dsdt.mem[HEADER..]), n, name);
              && (ok <==> found && k == |parts|)
              && (found ==>
                    && start >= 0 && last >= 0
                    && RenameOutcome(old(dsdt.Contents()), old(dsdt.mem[HEADER..]), n, name, modified, c, start, last)
                    && |c| == n + HEADER && dsdt.Contents() == AppendedParts(c, parts[..k])
                    && (forall i :: 0 <= i < k ==> Granted(pages, old(asked), |c|, parts, i))
                    && (k < |parts| ==> !Granted(pages, old(asked), |c|, parts, k))
                    && Sum(dsdt.Contents()) % 256 == 0)
              && (!found ==> dsdt == old(dsdt) && dsdt.mem[..] == old(dsdt.mem[..]))
      ensures k > 0 ==> patched
    {
      hide Sum, Load, Overwrite, LengthOf, Fixed, Findable, FadtKept, RenameOutcome;
      k := 0;
      ok, start, pkg, last := RenameMethod(name, modified);
      c := dsdt.Contents();
      if !ok { return; }
      ok, k := AppendMethod(parts);
    }
  }

  lemma NoParts(c: seq<byte>, parts: seq<seq<byte>>)
    requires HEADER <= |c|
    ensures AppendedParts(c, parts[..0]) == c && Concat(parts[..0]) == []
  {
    assert parts[..0] == [];
  }

  /** The next part, appended to the table that has had those before it. */
  lemma OnePart(c0: seq<byte>, c: seq<byte>, pages: Pages, asked: nat, size: nat, parts: seq<seq<byte>>, i: nat)
    requires i < |parts| && HEADER <= |c0| && HEADER <= |c| && c == AppendedParts(c0, parts[..i])
    ensures AppendedParts(c0, parts[..i + 1]) == Appended(c, parts[i]) && |Appended(c, parts[i])| == |c| + |parts[i]|
    ensures |Concat(parts[..i + 1])| == |Concat(parts[..i])| + |parts[i]|
    ensures Granted(pages, asked, size, parts, i)
      <==> pages(asked + i, size + |Concat(parts[..i])| + |parts[i]|) != 0
  {
    hide Appended, AppendedParts, Concat;
    AppendedSize(c, parts[i]);
    PartJoined(parts, i);
    PartAppended(c0, parts, i);
  }

  lemma PartJoined(parts: seq<seq<byte>>, i: nat)
    requires i < |parts|
    ensures Concat(parts[..i + 1]) == Concat(parts[..i]) + parts[i]
  {
    assert parts[..i + 1][..i] == parts[..i];
  }

  lemma PartAppended(c0: seq<byte>, parts: seq<seq<byte>>, i: nat)
    requires i < |parts| && HEADER <= |c0|
    ensures AppendedParts(c0, parts[..i + 1]) == Appended(AppendedParts(c0, parts[..i]), parts[i])
  {
    hide Appended;
    assert parts[..i + 1][..i] == parts[..i];
  }

  lemma AppendedSize(c: seq<byte>, aml: seq<byte>)
    requires HEADER <= |c|
    ensures |Appended(c, aml)| == |c| + |aml|
  {
    hide Sum, Store, Overwrite;
  }

  // ----- What the methods write -----

  /** A run of bytes copied in. */
  method Poke(mem: array<byte>, at: nat, what: seq<byte>)
    requires at + |what| <= mem.Length
    modifies mem
    ensures mem[..] == Overwrite(old(mem[..]), at, what)
  {
    hide Overwrite;
    ghost var m := mem[..];
    forall i | 0 <= i < |what| { mem[at + i] := what[i]; }
    Overwritten(m, at, what, mem[..]);
  }

  /** The copy of the old table, its new length, the new bytes and the checksum. */
  method FillTable(to: array<byte>, from: array<byte>, n: nat, aml: seq<byte>)
    requires to != from && HEADER <= n <= from.Length && n + |aml| < to.Length && n + |aml| < U32
    modifies to
    ensures LengthOf(to[..]) == n + |aml| && to[..n + |aml|] == Appended(from[..n], aml)
  {
    hide Sum, Load, Store, Overwrite, LengthOf, Fixed;
    ghost var m := to[..];
    ghost var c := from[..n];
    Poke(to, 0, from[..n]);
    ghost var m0 := to[..];
    assert m0[..n] == c by { OverwriteHere(m, 0, c); assert m0[..n] == m0[0..n]; }
    Poke(to, LENGTH_AT, Store((n + |aml|) % U32, 4));
    Poke(to, n, aml);
    ghost var m2 := to[..];
    Filled(m0, c, aml, m2);
    FixTableChecksum(to);
    FixedPrefix(to[..], m2, n + |aml|);
  }

  lemma Filled(m0: seq<byte>, c: seq<byte>, aml: seq<byte>, m2: seq<byte>)
    requires HEADER <= |c| && |c| + |aml| < |m0| && |c| + |aml| < U32 && m0[..|c|] == c
    requires m2 == Overwrite(Overwrite(m0, LENGTH_AT, Store(|c| + |aml|, 4)), |c|, aml)
    ensures LengthOf(m2) == |c| + |aml| && m2[..|c| + |aml|] == WithLength(c + aml, |c| + |aml|)
  {
    hide Overwrite, Store, Load, WithLength;
    var n := |c| + |aml|;
    var w := WithLength(c + aml, n);
    forall i | 0 <= i < n ensures m2[i] == w[i] { FilledByte(m0, c, aml, i); }
    assert m2[..n] == w;
    WithLengthIs(c + aml, n);
    assert m2[LENGTH_AT..LENGTH_AT + 4] == m2[..n][LENGTH_AT..LENGTH_AT + 4];
  }

  lemma FilledByte(m0: seq<byte>, c: seq<byte>, aml: seq<byte>, i: nat)
    requires HEADER <= |c| && i < |c| + |aml| < |m0| && m0[..|c|] == c
    ensures Overwrite(Overwrite(m0, LENGTH_AT, Store(|c| + |aml|, 4)), |c|, aml)[i]
      == WithLength(c + aml, |c| + |aml|)[i]
  {
    hide Overwrite, Store;
    var l := Store(|c| + |aml|, 4);
    OverwriteByte(m0, LENGTH_AT, l, i);
    OverwriteByte(Overwrite(m0, LENGTH_AT, l), |c|, aml, i);
    OverwriteByte(c + aml, LENGTH_AT, l, i);
    assert i < |c| ==> m0[i] == m0[..|c|][i];
  }

  /** A checksum fixed in a longer memory is fixed in the table. */
  lemma FixedPrefix(m': seq<byte>, m: seq<byte>, n: nat)
    requires HEADER <= n <= |m| && n == LengthOf(m) && m' == Fixed(m[..n]) + m[n..]
    ensures |m'| == |m| && m'[..n] == Fixed(m[..n]) && LengthOf(m') == n
  {
    hide Sum, Load;
    FixedLength(m[..n]);
    assert m[..n][LENGTH_AT..LENGTH_AT + 4] == m[LENGTH_AT..LENGTH_AT + 4];
    assert m'[..n][LENGTH_AT..LENGTH_AT + 4] == m'[LENGTH_AT..LENGTH_AT + 4];
  }

  lemma PokedPrefix(m: seq<byte>, at: nat, what: seq<byte>, n: nat)
    requires HEADER <= at && at + |what| <= n <= |m|
    ensures Overwrite(m, at, what)[..n] == Overwrite(m[..n], at, what)
      && LengthOf(Overwrite(m, at, what)) == LengthOf(m)
  {
    hide Load;
    OverwriteApart(m, at, what, LENGTH_AT, LENGTH_AT + 4);
  }

  lemma Pointed(m: seq<byte>, m': seq<byte>, addr: nat)
    requires FADT_BYTES <= |m| && addr < U32 && HEADER <= LengthOf(m) <= |m|
    requires m' == Fixed(Pointing(m, addr)[..LengthOf(m)]) + Pointing(m, addr)[LengthOf(m)..]
    ensures FadtPoints(m, m', addr) && LengthOf(m') == LengthOf(m) && |m'| == |m|
  {
    hide Sum, Load, Fixed, Pointing, LengthOf;
    SameLength(m, addr);
    FixedPrefix(m', Pointing(m, addr), LengthOf(m));
  }

  /** After the redirection both pointers of the FADT name the new table, its sum is 0, and the rest of it
      but the checksum is as before. */
  lemma FadtPointsThere(m: seq<byte>, m': seq<byte>, addr: nat)
    requires FadtPoints(m, m', addr)
    ensures Load(m'[FADT_X_DSDT..FADT_X_DSDT + 8]) == addr == Load(m'[FADT_DSDT..FADT_DSDT + 4])
    ensures Sum(m'[..LengthOf(m)]) % 256 == 0
    ensures forall i ::
      0 <= i < |m| && i != CHECKSUM_AT && !(FADT_DSDT <= i < FADT_DSDT + 4) && !(FADT_X_DSDT <= i < FADT_X_DSDT + 8) ==>
      m'[i] == m[i]
  {
    hide Sum, Load, Pointing, LengthOf;
    var p, n := Pointing(m, addr), LengthOf(m);
    PointsThere(m, addr);
    FixedSum(p[..n]);
    assert forall i :: 0 <= i < |m| && i != CHECKSUM_AT ==> m'[i] == p[i];
    assert m'[FADT_X_DSDT..FADT_X_DSDT + 8] == p[FADT_X_DSDT..FADT_X_DSDT + 8];
    assert m'[FADT_DSDT..FADT_DSDT + 4] == p[FADT_DSDT..FADT_DSDT + 4];
    assert m'[..n] == Fixed(p[..n]);
  }

  lemma ScannedLast(aml: seq<byte>, n: nat, name: seq<byte>, start: int, last: int, pkg: Encoding)
    requires n < |aml| && start >= 0 && Scanned(aml, n, name, n, start, last, pkg)
    ensures last >= 0
  {
  }
}
