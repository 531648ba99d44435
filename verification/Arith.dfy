/** Word sizes, multiples, remainders and counting, for the modules that need them. */
module Arith {
  const U16: nat := 0x1_0000
  const U32: nat := 0x1_0000_0000
  const U64: nat := 0x1_0000_0000_0000_0000

  lemma MultipleBounds(q: int, d: int)
    requires d > 0
    ensures q >= 1 ==> q * d >= d
    ensures q <= 0 ==> q * d <= 0
    ensures q <= -1 ==> q * d <= -d
  {
  }

  lemma MultipleOrder(q: int, r: int, d: int)
    requires d > 0 && q <= r
    ensures q * d <= r * d && (q < r ==> q * d < r * d)
  {
  }

  lemma SameResidue(q: int, r: int, g: int)
    requires 0 <= r < g
    ensures (q * g + r) % g == r && (q * g + r) / g == q
  {
    var m := q * g + r;
    assert m == (m / g) * g + m % g;
    assert (q - m / g) * g == m % g - r;
    MultipleBounds(q - m / g, g);
  }

  lemma ResidueAdd(k: int, x: int, g: int)
    requires g > 0
    ensures (k * g + x) % g == x % g && (k * g + x) / g == k + x / g
  {
    assert x == (x / g) * g + x % g;
    assert k * g + x == (k + x / g) * g + x % g;
    SameResidue(k + x / g, x % g, g);
  }

  /** Fewer than `size` steps apart, two counters have different slots. */
  lemma SlotsDiffer(i: int, j: int, size: int)
    requires size > 0 && i < j < i + size
    ensures i % size != j % size
  {
    if i % size == j % size {
      assert i == (i / size) * size + i % size && j == (j / size) * size + j % size;
      assert j - i == (j / size - i / size) * size;
      MultipleBounds(j / size - i / size, size);
    }
  }

  /** Two counters d steps apart, of which the second has wrapped, have the same slot just when d is what
      is left of the wrap after whole rounds of the ring. */
  lemma WrappedSlots(a: int, d: int, wrap: int, size: int)
    requires 0 < d < size && wrap - d <= a < wrap
    ensures a % size == (a + d - wrap) % size <==> wrap % size == d
  {
    var b := a + d - wrap;
    assert wrap == (wrap / size) * size + wrap % size;
    if wrap % size == d {
      assert a == (wrap / size) * size + b;
      ResidueAdd(wrap / size, b, size);
    } else if a % size == b % size {
      var q, r := a / size, b / size;
      assert a == q * size + a % size && b == r * size + b % size;
      assert q * size - r * size == (q - r) * size;
      SameResidue(q - r, d, size);
    }
  }

  /** Distinct members of a set are no more than it has. */
  lemma {:induction false} DistinctIn<T>(s: seq<T>, all: set<T>)
    requires forall i :: 0 <= i < |s| ==> s[i] in all
    requires forall i, j :: 0 <= i < j < |s| ==> s[i] != s[j]
    ensures |s| <= |all|
  {
    if s != [] { DistinctIn(s[1..], all - {s[0]}); }
  }

  lemma {:induction false} DistinctBelow(s: seq<nat>, n: nat)
    requires forall i :: 0 <= i < |s| ==> s[i] < n
    requires forall i, j :: 0 <= i < j < |s| ==> s[i] != s[j]
    ensures |s| <= n
    decreases n
  {
    if s != [] {
      assert s[0] < n;
      if k :| 0 <= k < |s| && s[k] == n - 1 {
        DistinctBelow(s[..k] + s[k + 1..], n - 1);
      } else {
        DistinctBelow(s, n - 1);
      }
    }
  }

  /** A list in which all numbers below n occur has at least n members. */
  lemma {:induction false} Covered(s: seq<nat>, n: nat)
    requires forall d: nat :: d < n ==> d in s
    ensures n <= |s|
    decreases n
  {
    if n > 0 {
      var last: nat := n - 1;
      assert last in s;
      var k :| 0 <= k < |s| && s[k] == last;
      var rest := s[..k] + s[k + 1..];
      forall d: nat | d < n - 1 ensures d in rest {
        assert d in s;
        var i :| 0 <= i < |s| && s[i] == d;
        assert d == if i < k then rest[i] else rest[i - 1];
      }
      Covered(rest, n - 1);
    }
  }

  /** Different numbers below n are at most n. */
  lemma {:induction false} Pigeonhole(s: set<nat>, n: nat)
    requires forall x :: x in s ==> x < n
    ensures |s| <= n
    decreases n
  {
    if n == 0 {
      assert s == {};
    } else {
      Pigeonhole(s - {n - 1}, n - 1);
    }
  }
}
