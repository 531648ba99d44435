/** Bytes, little-endian numbers in memory, and the size of a disk sector. */
module Bytes {

  type byte = x: int | 0 <= x < 256

  const SECTOR: nat := 512

  function Pow256(k: nat): (p: nat)
    ensures p > 0
  {
    if k == 0 then 1 else 256 * Pow256(k - 1)
  }

  /** The low k bytes of x, least significant first. */
  function Store(x: nat, k: nat): (s: seq<byte>)
    ensures |s| == k
  {
    if k == 0 then [] else [x % 256] + Store(x / 256, k - 1)
  }

  function Load(s: seq<byte>): nat {
    if s == [] then 0 else s[0] + 256 * Load(s[1..])
  }

  lemma {:induction false} LoadStore(x: nat, k: nat)
    requires x < Pow256(k)
    ensures Load(Store(x, k)) == x
  {
    if k > 0 {
      LoadStore(x / 256, k - 1);
      assert Store(x, k)[1..] == Store(x / 256, k - 1);
    }
  }

  lemma {:induction false} StoreLoad(s: seq<byte>)
    ensures Load(s) < Pow256(|s|) && Store(Load(s), |s|) == s
  {
    if s != [] {
      StoreLoad(s[1..]);
      LowByte(s[0], Load(s[1..]));
      assert Store(Load(s), |s|) == [s[0]] + Store(Load(s[1..]), |s| - 1);
    }
  }

  lemma LowByte(b: byte, x: nat)
    ensures (b + 256 * x) % 256 == b && (b + 256 * x) / 256 == x
  {
  }

  lemma Pow256Values()
    ensures Pow256(4) == 0x1_0000_0000 && Pow256(8) == 0x1_0000_0000_0000_0000
  {
    assert Pow256(1) == 256 && Pow256(2) == 256 * Pow256(1) && Pow256(3) == 256 * Pow256(2)
      && Pow256(4) == 256 * Pow256(3);
    assert Pow256(5) == 256 * Pow256(4) && Pow256(6) == 256 * Pow256(5) && Pow256(7) == 256 * Pow256(6)
      && Pow256(8) == 256 * Pow256(7);
  }

  /** The bytes [at..at + |what|) of s replaced. */
  function Overwrite(s: seq<byte>, at: nat, what: seq<byte>): (r: seq<byte>)
    requires at + |what| <= |s|
    ensures |r| == |s|
  {
    s[..at] + what + s[at + |what|..]
  }

  lemma Overwritten(s: seq<byte>, at: nat, what: seq<byte>, v: seq<byte>)
    requires at + |what| <= |s| == |v|
    requires forall i :: 0 <= i < |what| ==> v[at + i] == what[i]
    requires forall i :: 0 <= i < |s| && (i < at || at + |what| <= i) ==> v[i] == s[i]
    ensures v == Overwrite(s, at, what)
  {
    forall i | at <= i < at + |what| ensures v[i] == what[i - at] {
      assert v[at + (i - at)] == what[i - at];
    }
  }

  lemma OverwriteBytes(s: seq<byte>, at: nat, what: seq<byte>)
    requires at + |what| <= |s|
    ensures var r := Overwrite(s, at, what);
      && r[at..at + |what|] == what
      && forall i :: 0 <= i < |s| ==> r[i] == if at <= i < at + |what| then what[i - at] else s[i]
  {
  }

  lemma SliceOfSlice(s: seq<byte>, from: nat, to: nat, lo: nat, hi: nat)
    requires from <= to <= |s| && lo <= hi <= to - from
    ensures s[from..to][lo..hi] == s[from + lo..from + hi]
  {
    var t := s[from..to];
    forall k | 0 <= k < hi - lo ensures t[lo..hi][k] == s[from + lo..from + hi][k] {
      assert t[lo..hi][k] == t[lo + k] == s[from + lo + k];
    }
  }

  lemma OverwriteHere(s: seq<byte>, at: nat, what: seq<byte>)
    requires at + |what| <= |s|
    ensures Overwrite(s, at, what)[at..at + |what|] == what
  {
  }

  lemma OverwriteApart(s: seq<byte>, at: nat, what: seq<byte>, lo: nat, hi: nat)
    requires at + |what| <= |s| && lo <= hi <= |s| && (hi <= at || at + |what| <= lo)
    ensures Overwrite(s, at, what)[lo..hi] == s[lo..hi]
  {
  }

  lemma OverwriteByte(s: seq<byte>, at: nat, what: seq<byte>, i: nat)
    requires at + |what| <= |s| && i < |s|
    ensures Overwrite(s, at, what)[i] == if at <= i < at + |what| then what[i - at] else s[i]
  {
  }

  /** A part of s that holds all that is replaced. */
  lemma OverwritePart(s: seq<byte>, lo: nat, hi: nat, at: nat, what: seq<byte>)
    requires lo <= hi <= |s| && at + |what| <= hi - lo
    ensures Overwrite(s, lo + at, what)[lo..hi] == Overwrite(s[lo..hi], at, what)
  {
    hide Overwrite;
    forall i | 0 <= i < hi - lo ensures Overwrite(s, lo + at, what)[lo..hi][i] == Overwrite(s[lo..hi], at, what)[i] {
      OverwriteByte(s, lo + at, what, lo + i);
      OverwriteByte(s[lo..hi], at, what, i);
    }
  }
}
