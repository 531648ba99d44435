/** ACPI tables as bytes: checksum, appending and renaming (uefi/acpi/patch), as values. */
module AcpiTable {
  import opened Arith
  import opened Bytes

  /** Offsets in the header that all tables share, and its size. */
  const LENGTH_AT: nat := 4
  const CHECKSUM_AT: nat := 9
  const HEADER: nat := 36
  const NAME: nat := 4

  function Sum(s: seq<byte>): nat {
    if s == [] then 0 else Sum(s[..|s| - 1]) + s[|s| - 1]
  }

  lemma {:induction false} SumSet(s: seq<byte>, i: nat, x: byte)
    requires i < |s|
    ensures Sum(s[i := x]) == Sum(s) - s[i] + x
  {
    var n := |s| - 1;
    if i < n {
      SumSet(s[..n], i, x);
      assert s[i := x][..n] == s[..n][i := x];
    } else {
      assert s[i := x][..n] == s[..n];
    }
  }

  /** The byte that makes a sum 0 modulo 256. */
  function Negated(sum: nat): byte { (256 - sum % 256) % 256 }

  /** `fix_table_checksum`. */
  function Fixed(c: seq<byte>): (r: seq<byte>)
    requires CHECKSUM_AT < |c|
    ensures |r| == |c|
  {
    c[CHECKSUM_AT := Negated(Sum(c[CHECKSUM_AT := 0]))]
  }

  lemma FixedSum(c: seq<byte>)
    requires CHECKSUM_AT < |c|
    ensures Sum(Fixed(c)) % 256 == 0
  {
    hide Sum;
    var z := c[CHECKSUM_AT := 0];
    SumSet(z, CHECKSUM_AT, Negated(Sum(z)));
    assert Fixed(c) == z[CHECKSUM_AT := Negated(Sum(z))];
    NegatedCancels(Sum(z));
  }

  lemma NegatedCancels(sum: nat)
    ensures (sum + Negated(sum)) % 256 == 0
  {
  }

  /** The old checksum does not count. */
  lemma FixedSame(c: seq<byte>, d: seq<byte>)
    requires CHECKSUM_AT < |c| == |d| && forall i :: 0 <= i < |c| && i != CHECKSUM_AT ==> c[i] == d[i]
    ensures Fixed(c) == Fixed(d)
  {
    assert c[CHECKSUM_AT := 0] == d[CHECKSUM_AT := 0];
  }

  function LengthOf(c: seq<byte>): nat
    requires HEADER <= |c|
  {
    Load(c[LENGTH_AT..LENGTH_AT + 4])
  }

  function WithLength(c: seq<byte>, n: nat): (r: seq<byte>)
    requires HEADER <= |c|
    ensures |r| == |c|
  {
    Overwrite(c, LENGTH_AT, Store(n, 4))
  }

  lemma WithLengthIs(c: seq<byte>, n: nat)
    requires HEADER <= |c| && n < U32
    ensures LengthOf(WithLength(c, n)) == n
  {
    hide Overwrite, Store, Load, Pow256;
    OverwriteHere(c, LENGTH_AT, Store(n, 4));
    Pow256Values();
    LoadStore(n, 4);
  }

  /** The bytes of a table, as many as its length says. */
  ghost predicate IsTable(c: seq<byte>) { HEADER <= |c| < U32 && LengthOf(c) == |c| }

  // ----- Appending -----

  function Appended(c: seq<byte>, aml: seq<byte>): (r: seq<byte>)
    requires HEADER <= |c|
    ensures |r| == |c| + |aml|
  {
    Fixed(WithLength(c + aml, |c| + |aml|))
  }

  /** Only length and checksum of what was there change. */
  lemma AppendedBytes(c: seq<byte>, aml: seq<byte>, i: nat)
    requires HEADER <= |c| && i < |c| + |aml| && !(LENGTH_AT <= i < LENGTH_AT + 4) && i != CHECKSUM_AT
    ensures Appended(c, aml)[i] == (c + aml)[i]
  {
    hide Sum, Overwrite, Store;
    OverwriteByte(c + aml, LENGTH_AT, Store(|c| + |aml|, 4), i);
  }

  lemma AppendedIsTable(c: seq<byte>, aml: seq<byte>)
    requires HEADER <= |c| && |c| + |aml| < U32
    ensures IsTable(Appended(c, aml)) && Sum(Appended(c, aml)) % 256 == 0
  {
    hide Sum, Load, WithLength;
    var w := WithLength(c + aml, |c| + |aml|);
    WithLengthIs(c + aml, |c| + |aml|);
    FixedSum(w);
    FixedLength(w);
  }

  lemma FixedLength(c: seq<byte>)
    requires HEADER <= |c|
    ensures LengthOf(Fixed(c)) == LengthOf(c)
  {
    hide Sum, Load;
    assert Fixed(c)[LENGTH_AT..LENGTH_AT + 4] == c[LENGTH_AT..LENGTH_AT + 4];
  }

  /** Two appends are one append of both. */
  lemma AppendTwice(c: seq<byte>, a: seq<byte>, b: seq<byte>)
    requires HEADER <= |c|
    ensures Appended(Appended(c, a), b) == Appended(c, a + b)
  {
    hide Appended, Overwrite, Store, Sum;
    var d, n := Appended(c, a), |c| + |a| + |b|;
    forall i | 0 <= i < n && i != CHECKSUM_AT ensures WithLength(d + b, n)[i] == WithLength(c + (a + b), n)[i] {
      OverwriteByte(d + b, LENGTH_AT, Store(n, 4), i);
      OverwriteByte(c + (a + b), LENGTH_AT, Store(n, 4), i);
      if !(LENGTH_AT <= i < LENGTH_AT + 4) && i < |c| + |a| { AppendedBytes(c, a, i); }
    }
    FixedSame(WithLength(d + b, n), WithLength(c + (a + b), n));
    AppendedIs(d, b);
    AppendedIs(c, a + b);
  }

  lemma AppendedIs(c: seq<byte>, aml: seq<byte>)
    requires HEADER <= |c|
    ensures Appended(c, aml) == Fixed(WithLength(c + aml, |c| + |aml|))
  {
  }

  /** `append_method`: one append for each part. */
  function AppendedParts(c: seq<byte>, parts: seq<seq<byte>>): (r: seq<byte>)
    requires HEADER <= |c|
    ensures |r| >= |c|
  {
    if parts == [] then c else Appended(AppendedParts(c, parts[..|parts| - 1]), parts[|parts| - 1])
  }

  function Concat(parts: seq<seq<byte>>): seq<byte> {
    if parts == [] then [] else Concat(parts[..|parts| - 1]) + parts[|parts| - 1]
  }

  /** Appending in parts is appending the parts joined. */
  lemma {:induction false} PartsAreOne(c: seq<byte>, parts: seq<seq<byte>>)
    requires HEADER <= |c| && parts != []
    ensures AppendedParts(c, parts) == Appended(c, Concat(parts))
  {
    hide Appended;
    var rest, last := parts[..|parts| - 1], parts[|parts| - 1];
    if rest == [] {
      assert Concat(parts) == last;
    } else {
      PartsAreOne(c, rest);
      AppendTwice(c, Concat(rest), last);
    }
  }

  // ----- Renaming -----

  function Renamed(c: seq<byte>, at: nat, name: seq<byte>): (r: seq<byte>)
    requires HEADER <= at && at + |name| <= |c|
    ensures |r| == |c|
  {
    Fixed(Overwrite(c, at, name))
  }

  lemma RenamedBytes(c: seq<byte>, at: nat, name: seq<byte>, i: nat)
    requires HEADER <= at && at + |name| <= |c| && i < |c| && i != CHECKSUM_AT
    ensures Renamed(c, at, name)[i] == if at <= i < at + |name| then name[i - at] else c[i]
  {
    hide Sum, Overwrite;
    OverwriteByte(c, at, name, i);
  }

  lemma RenamedIsTable(c: seq<byte>, at: nat, name: seq<byte>)
    requires HEADER <= at && at + |name| <= |c| && IsTable(c)
    ensures IsTable(Renamed(c, at, name)) && Sum(Renamed(c, at, name)) % 256 == 0
  {
    hide Sum, Load, Overwrite;
    FixedSum(Overwrite(c, at, name));
    FixedLength(Overwrite(c, at, name));
    OverwriteApart(c, at, name, LENGTH_AT, LENGTH_AT + 4);
  }

  // ----- Sequences of patches -----

  datatype Patch = Append(aml: seq<byte>) | Rename(at: nat, name: seq<byte>)

  ghost predicate Possible(c: seq<byte>, p: Patch) {
    match p
    case Append(aml) => HEADER <= |c| && |c| + |aml| < U32
    case Rename(at, name) => HEADER <= at && at + |name| <= |c|
  }

  function Patched(c: seq<byte>, p: Patch): seq<byte>
    requires Possible(c, p)
  {
    match p
    case Append(aml) => Appended(c, aml)
    case Rename(at, name) => Renamed(c, at, name)
  }

  /** cs[i + 1] is cs[i] after the i-th patch. */
  ghost predicate Patching(cs: seq<seq<byte>>, ps: seq<Patch>) {
    && |cs| == |ps| + 1 && IsTable(cs[0])
    && forall i :: 0 <= i < |ps| ==> Possible(cs[i], ps[i]) && cs[i + 1] == Patched(cs[i], ps[i])
  }

  lemma PatchKeeps(c: seq<byte>, p: Patch)
    requires IsTable(c) && Possible(c, p)
    ensures IsTable(Patched(c, p)) && Sum(Patched(c, p)) % 256 == 0 && |c| <= |Patched(c, p)|
  {
    hide IsTable, Sum, Appended, Renamed;
    if p.Append? { AppendedIsTable(c, p.aml); } else { RenamedIsTable(c, p.at, p.name); }
  }

  ghost predicate InName(ps: seq<Patch>, n: nat, at: nat)
    requires n <= |ps|
  {
    exists i :: 0 <= i < n && ps[i].Rename? && ps[i].at <= at < ps[i].at + |ps[i].name|
  }

  /** Whatever is patched in whatever order: a table of the right length whose bytes sum to 0, and of the
      original only length, checksum and the bytes under the names have changed. */
  lemma {:induction false} PatchesKeep(cs: seq<seq<byte>>, ps: seq<Patch>, n: nat)
    requires Patching(cs, ps) && n <= |ps|
    ensures IsTable(cs[n]) && |cs[0]| <= |cs[n]|
    ensures n > 0 || Sum(cs[0]) % 256 == 0 ==> Sum(cs[n]) % 256 == 0
    ensures forall i ::
      0 <= i < |cs[0]| && !(LENGTH_AT <= i < LENGTH_AT + 4) && i != CHECKSUM_AT && !InName(ps, n, i) ==>
      cs[n][i] == cs[0][i]
  {
    hide Sum, Appended, Renamed, LengthOf;
    if n > 0 {
      PatchesKeep(cs, ps, n - 1);
      var c, p := cs[n - 1], ps[n - 1];
      PatchKeeps(c, p);
      assert cs[n] == Patched(c, p);
      forall i | 0 <= i < |cs[0]| && !(LENGTH_AT <= i < LENGTH_AT + 4) && i != CHECKSUM_AT && !InName(ps, n, i)
        ensures cs[n][i] == cs[0][i]
      {
        assert !InName(ps, n - 1, i);
        if p.Append? { AppendedBytes(c, p.aml, i); } else { RenamedBytes(c, p.at, p.name, i); }
      }
    }
  }
}
