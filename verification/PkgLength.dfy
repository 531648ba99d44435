/** The AML PkgLength codec (uefi/acpi/patch/pkg_length.c), section 20.2.4 of the ACPI 6.5 specification. */
module PkgLength {
  import opened Bits
  import opened Bytes

  /** MAX_PKG_LENGTH_SIZE. */
  const TOO_LARGE: nat := 0x1000_0000
  const MAX_ENCODED: nat := 4

  datatype Encoding = Encoding(size: nat, encodedSize: nat, aml: seq<byte>)

  datatype Parsed = Failed | Parsed(value: Encoding)

  // ----- The encoders -----

  /** The bytes of n, as many as it takes. */
  function Following(n: nat): seq<byte> {
    if n == 0 then [] else [n % 256] + Following(n / 256)
  }

  /** What the comments describe: the number of following bytes in bits 6-7 of the lead byte, and the low
      four bits of the size in bits 0-3. */
  function Intended(size: nat): (aml: seq<byte>)
    requires size < TOO_LARGE
    ensures 1 <= |aml| <= MAX_ENCODED
  {
    FollowingLength(size / 16, 3);
    Pow256Small();
    if size <= 63 then [size] else [64 * |Following(size / 16)| + size % 16] + Following(size / 16)
  }

  /** What the code writes: the last assignment to the lead byte loses the low four bits. */
  function Literal(size: nat): (aml: seq<byte>)
    requires size < TOO_LARGE
    ensures 1 <= |aml| <= MAX_ENCODED
  {
    FollowingLength(size / 16, 3);
    Pow256Small();
    if size <= 63 then [size] else [64 * |Following(size / 16)|] + Following(size / 16)
  }

  lemma Pow256Small()
    ensures Pow256(0) == 1 && Pow256(1) == 256 && Pow256(2) == 0x1_0000 && Pow256(3) == 0x100_0000
  {
    assert Pow256(2) == 256 * Pow256(1) && Pow256(3) == 256 * Pow256(2);
  }

  lemma {:induction false} FollowingLength(n: nat, k: nat)
    ensures |Following(n)| <= k <==> n < Pow256(k)
    decreases k
  {
    if n > 0 && k > 0 { FollowingLength(n / 256, k - 1); }
  }

  lemma {:induction false} FollowingLoad(n: nat)
    ensures Load(Following(n)) == n && (n > 0 ==> |Following(n)| > 0)
  {
    if n > 0 {
      FollowingLoad(n / 256);
      assert Following(n)[1..] == Following(n / 256);
    }
  }

  // ----- The parser -----

  /** `parse_pkg_length` on the readable bytes from aml on, of which the caller counts amlSize: the bound
      that it checks lets it read one more. */
  function Parse(aml: seq<byte>, amlSize: nat): (r: Parsed)
    requires amlSize < |aml|
    ensures r.Parsed? ==> 1 <= r.value.encodedSize <= MAX_ENCODED && r.value.encodedSize <= amlSize + 1
  {
    if amlSize == 0 then Failed
    else if aml[0] <= 63 then Parsed(Encoding(aml[0], 1, [aml[0], 0, 0, 0]))
    else if aml[0] / 16 % 4 != 0 then Failed
    else
      var n := aml[0] / 64;
      if n > amlSize then Failed
      else Parsed(Encoding(aml[0] % 16 + 16 * Load(aml[1..n + 1]), n + 1, aml[..n + 1] + seq(3 - n, _ => 0)))
  }

  /** When the parser fails: on nothing, on a lead byte over 63 with bit 4 or bit 5 set, and when fewer bytes
      are counted than are to follow. */
  lemma FailsExactly(aml: seq<byte>, amlSize: nat)
    requires amlSize < |aml|
    ensures Parse(aml, amlSize).Failed? <==>
      || amlSize == 0
      || (aml[0] > 63 && (aml[0] / 16 % 2 == 1 || aml[0] / 32 % 2 == 1))
      || aml[0] / 64 > amlSize
  {
    assert aml[0] / 16 == 2 * (aml[0] / 32) + aml[0] / 16 % 2 && aml[0] / 32 == 2 * (aml[0] / 64) + aml[0] / 32 % 2;
  }

  /** What it reads otherwise: bits 6-7 say how many bytes follow, and each is worth 256 times the one before. */
  lemma ReadsBytes(aml: seq<byte>, amlSize: nat)
    requires amlSize < |aml| && Parse(aml, amlSize).Parsed?
    ensures var n, low := aml[0] / 64, if aml[0] <= 63 then aml[0] else aml[0] % 16;
      && Parse(aml, amlSize).value.encodedSize == n + 1
      && Parse(aml, amlSize).value.size
         == low as nat + (if n >= 1 then 16 * (aml[1] as nat) else 0) + (if n >= 2 then 4096 * (aml[2] as nat) else 0)
            + (if n == 3 then 1048576 * (aml[3] as nat) else 0)
  {
    var n := aml[0] / 64;
    if n >= 1 { assert Load(aml[1..n + 1]) == aml[1] + 256 * Load(aml[2..n + 1]) by { Shifted(aml, 1, n + 1); } }
    if n >= 2 { assert Load(aml[2..n + 1]) == aml[2] + 256 * Load(aml[3..n + 1]) by { Shifted(aml, 2, n + 1); } }
    if n >= 3 { assert Load(aml[3..n + 1]) == aml[3] + 256 * Load(aml[4..n + 1]) by { Shifted(aml, 3, n + 1); } }
  }

  lemma Shifted(aml: seq<byte>, i: nat, j: nat)
    requires i < j <= |aml|
    ensures Load(aml[i..j]) == aml[i] + 256 * Load(aml[i + 1..j])
  {
    assert aml[i..j][1..] == aml[i + 1..j];
  }

  /** Parsing what the described encoder writes gives the size back, whatever follows. */
  lemma RoundTrip(size: nat, rest: seq<byte>, amlSize: nat)
    requires size < TOO_LARGE && |Intended(size)| <= amlSize < |Intended(size) + rest|
    ensures var p := Parse(Intended(size) + rest, amlSize);
      p.Parsed? && p.value.size == size && p.value.encodedSize == |Intended(size)|
        && p.value.aml[..p.value.encodedSize] == Intended(size)
  {
    FollowingLoad(size / 16);
    if size > 63 {
      var f, all := Following(size / 16), Intended(size) + rest;
      LeadByte(|f|, size % 16);
      assert all[1..|f| + 1] == f && all[..|f| + 1] == Intended(size);
    }
  }

  /** What the code writes instead is parsed as a multiple of 16. */
  lemma LiteralRoundTrip(size: nat, rest: seq<byte>, amlSize: nat)
    requires size < TOO_LARGE && |Literal(size)| <= amlSize < |Literal(size) + rest|
    ensures var p := Parse(Literal(size) + rest, amlSize);
      p.Parsed? && p.value.size == (if size <= 63 then size else size - size % 16)
        && p.value.encodedSize == |Literal(size)|
  {
    FollowingLoad(size / 16);
    if size > 63 {
      var f, all := Following(size / 16), Literal(size) + rest;
      LeadByte(|f|, 0);
      assert all[1..|f| + 1] == f;
    }
  }

  /** So the code's own round trip works exactly for these sizes. */
  lemma LiteralIsExact(size: nat, rest: seq<byte>, amlSize: nat)
    requires size < TOO_LARGE && |Literal(size)| <= amlSize < |Literal(size) + rest|
    ensures Parse(Literal(size) + rest, amlSize).value.size == size <==> size <= 63 || size % 16 == 0
  {
    LiteralRoundTrip(size, rest, amlSize);
  }

  lemma LeadByte(n: nat, low: nat)
    requires 1 <= n <= 3 && low < 16
    ensures var b := 64 * n + low; 63 < b < 256 && b / 64 == n && b / 16 % 4 == 0 && b % 16 == low
  {
    if n == 1 { } else if n == 2 { } else { }
  }

  /** The off-by-one of the bound: the parser reads past what its caller counts exactly when the lead byte
      asks for as many bytes as are counted with it, and then it says so in the encoded size. */
  lemma ReadsPast(aml: seq<byte>, amlSize: nat)
    requires amlSize < |aml|
    ensures var p := Parse(aml, amlSize);
      p.Parsed? && p.value.encodedSize > amlSize <==> amlSize > 0 && aml[0] / 64 == amlSize && aml[0] / 16 % 4 == 0
  {
  }

  /** Otherwise the bytes past the count do not matter. */
  lemma OnlyCounted(aml: seq<byte>, aml': seq<byte>, amlSize: nat)
    requires amlSize < |aml| && amlSize < |aml'| && aml[..amlSize] == aml'[..amlSize]
    ensures var p, p' := Parse(aml, amlSize), Parse(aml', amlSize);
      && p.Parsed? == p'.Parsed? && (p.Parsed? ==> p.value.encodedSize == p'.value.encodedSize)
      && (p.Parsed? && p.value.encodedSize <= amlSize ==> p == p')
  {
    hide Load;
    if amlSize > 0 {
      assert aml[0] == aml[..amlSize][0] == aml'[..amlSize][0] == aml'[0];
      var n := aml[0] / 64;
      if n + 1 <= amlSize {
        SamePart(aml, aml', amlSize, 1, n + 1);
        SamePart(aml, aml', amlSize, 0, n + 1);
        assert aml[..n + 1] == aml[0..n + 1] && aml'[..n + 1] == aml'[0..n + 1];
      }
    }
  }

  lemma SamePart(s: seq<byte>, t: seq<byte>, n: nat, i: nat, j: nat)
    requires i <= j <= n && n < |s| && n < |t| && s[..n] == t[..n]
    ensures s[i..j] == t[i..j]
  {
    assert s[i..j] == s[..n][i..j] && t[i..j] == t[..n][i..j];
  }

  // ----- The code -----

  /** `build_pkg_length`. 2^28 passes the first check, and is refused for want of a fifth byte. */
  method BuildPkgLength(size0: nat) returns (ok: bool, out: Encoding)
    ensures ok <==> size0 < TOO_LARGE
    ensures ok ==>
      |out.aml| == MAX_ENCODED && out.encodedSize == |Literal(size0)| && out.aml[..out.encodedSize] == Literal(size0)
    ensures ok ==> out.size == if size0 <= 63 then size0 else 0
  {
    hide Following, Pow256;
    var size: nat := size0;
    var aml: seq<byte> := [0, 0, 0, 0];
    out := Encoding(0, 0, aml);
    if size > TOO_LARGE { return false, out; }
    if size <= 63 {
      aml := aml[0 := size];
      out := Encoding(size, 1, aml);
    } else {
      aml := aml[0 := size % 16];
      size := size / 16;
      ghost var f := Following(size);
      Pow256Small();
      FollowingLength(size, 3);
      var byteCount := 1;
      while size != 0
        invariant 1 <= byteCount <= MAX_ENCODED && |aml| == MAX_ENCODED && byteCount - 1 + |Following(size)| == |f|
        invariant aml[1..byteCount] == f[..byteCount - 1] && f[byteCount - 1..] == Following(size)
        decreases size
      {
        FollowingStep(size, f, byteCount - 1);
        byteCount := byteCount + 1;
        if byteCount > MAX_ENCODED { return false, out; }
        ghost var before := aml;
        aml := aml[byteCount - 1 := size % 256];
        assert aml[1..byteCount] == before[1..byteCount - 1] + [size % 256];
        assert f[..byteCount - 1] == f[..byteCount - 2] + [f[byteCount - 2]];
        size := size / 256;
      }
      NoneFollow();
      aml := aml[0 := (byteCount - 1) * 64];
      out := Encoding(size, byteCount, aml);
      assert aml[..byteCount] == [aml[0]] + aml[1..byteCount];
    }
    ok := true;
  }

  lemma FollowingStep(n: nat, f: seq<byte>, i: nat)
    requires n > 0 && i <= |f| && f[i..] == Following(n)
    ensures |Following(n)| == 1 + |Following(n / 256)|
    ensures i < |f| && f[i] == n % 256 && f[i + 1..] == Following(n / 256)
  {
    assert f[i] == f[i..][0] && f[i + 1..] == f[i..][1..];
  }

  lemma NoneFollow()
    ensures Following(0) == []
  {
  }

  /** `parse_pkg_length`. */
  method ParsePkgLength(aml: seq<byte>, amlSize: nat) returns (r: Parsed)
    requires amlSize < |aml|
    ensures r == Parse(aml, amlSize)
  {
    hide Or, Pow2, Load;
    if amlSize == 0 { return Failed; }
    var lead := aml[0];
    var encodedSize, size := 1, lead as nat;
    if lead > 63 {
      if lead / 16 % 4 != 0 { return Failed; }
      var count := lead / 64;
      if count > amlSize { return Failed; }
      size := lead % 16;
      assert aml[1..1] == [];
      LoadNone();
      for i := 0 to count
        invariant size == lead % 16 + 16 * Load(aml[1..i + 1])
      {
        NextByte(lead % 16, aml[1..i + 1], aml[i + 1]);
        assert aml[1..i + 2] == aml[1..i + 1] + [aml[i + 1]];
        size := Or(size, aml[i + 1] * Pow2(8 * i + 4));
      }
      encodedSize := count + 1;
    }
    r := Parsed(Encoding(size, encodedSize, aml[..encodedSize] + seq(MAX_ENCODED - encodedSize, _ => 0)));
    assert lead <= 63 ==> aml[..1] + seq(3, _ => 0) == [aml[0], 0, 0, 0];
  }

  lemma LoadNone()
    ensures Load([]) == 0
  {
  }

  /** One more byte, shifted into place. */
  lemma NextByte(low: nat, s: seq<byte>, b: byte)
    requires low < 16
    ensures Or(low + 16 * Load(s), b * Pow2(8 * |s| + 4)) == low + 16 * Load(s + [b])
  {
    hide Or, Pow2, Load, Pow256;
    StoreLoad(s);
    Pow2Is(|s|);
    OrIsPlus(low + 16 * Load(s), b, 8 * |s| + 4);
    LoadMore(s, b);
    assert b * (16 * Pow256(|s|)) == 16 * (Pow256(|s|) * b);
  }

  lemma {:induction false} Pow2Is(i: nat)
    ensures Pow2(8 * i + 4) == 16 * Pow256(i)
  {
    if i == 0 {
      assert Pow2(1) == 2 * Pow2(0) && Pow2(2) == 2 * Pow2(1) && Pow2(3) == 2 * Pow2(2) && Pow2(4) == 2 * Pow2(3);
    } else {
      Pow2Is(i - 1);
      var j := 8 * (i - 1) + 4;
      assert Pow2(j + 8) == 2 * (2 * (2 * (2 * (2 * (2 * (2 * (2 * Pow2(j)))))))) by {
        assert Pow2(j + 8) == 2 * Pow2(j + 7) && Pow2(j + 7) == 2 * Pow2(j + 6) && Pow2(j + 6) == 2 * Pow2(j + 5)
          && Pow2(j + 5) == 2 * Pow2(j + 4);
        assert Pow2(j + 4) == 2 * Pow2(j + 3) && Pow2(j + 3) == 2 * Pow2(j + 2) && Pow2(j + 2) == 2 * Pow2(j + 1)
          && Pow2(j + 1) == 2 * Pow2(j);
      }
    }
  }

  lemma {:induction false} LoadMore(s: seq<byte>, b: byte)
    ensures Load(s + [b]) == Load(s) + Pow256(|s|) * b
  {
    if s == [] {
      assert Load([b]) == b + 256 * Load([]) by { assert [b][1..] == []; }
      assert s + [b] == [b];
    } else {
      LoadMore(s[1..], b);
      assert (s + [b])[1..] == s[1..] + [b];
      assert 256 * (Pow256(|s| - 1) * b) == (256 * Pow256(|s| - 1)) * b;
    }
  }
}
