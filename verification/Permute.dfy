/** The block exchange of the bundled argument parser: `gcd` and `permute_args`
    (cli/lib/argtable/argtable3.c), which rotate a stretch of argv in place by
    following gcd(|A|, |B|) disjoint cycles. */
module Permute {
  import opened Arith

  // ----- Divisibility, with the quotient as the witness -----

  ghost predicate Divides(d: int, x: int) {
    exists q: int :: Times(q, d) == x
  }

  function Times(q: int, d: int): int { q * d }

  ghost predicate IsGcd(g: int, a: int, b: int) {
    && g > 0
    && Divides(g, a)
    && Divides(g, b)
    && forall d: int :: d > 0 && Divides(d, a) && Divides(d, b) ==> d <= g
  }

  lemma DividesCombination(d: int, x: int, y: int, k: int)
    requires Divides(d, x) && Divides(d, y)
    ensures Divides(d, x + k * y)
  {
    var p :| Times(p, d) == x;
    var q :| Times(q, d) == y;
    assert Times(p + k * q, d) == x + k * y;
  }

  /** One step of Euclid's algorithm keeps the common divisors. */
  lemma EuclidStep(d: int, a: int, b: int)
    requires b > 0
    ensures Divides(d, a) && Divides(d, b) <==> Divides(d, b) && Divides(d, a % b)
  {
    if Divides(d, b) {
      if Divides(d, a) {
        DividesCombination(d, a, b, -(a / b));
        assert a + (-(a / b)) * b == a % b;
      }
      if Divides(d, a % b) {
        DividesCombination(d, a % b, b, a / b);
        assert a % b + (a / b) * b == a;
      }
    }
  }

  lemma PositiveMultiple(q: int, d: int)
    requires d > 0 && q * d > 0
    ensures q * d >= d
  {
  }

  lemma GcdStep(g: int, a: int, b: int)
    requires b > 0
    ensures a % b != 0 && IsGcd(g, b, a % b) ==> IsGcd(g, a, b)
  {
    forall d: int ensures Divides(d, a) && Divides(d, b) <==> Divides(d, b) && Divides(d, a % b) {
      EuclidStep(d, a, b);
    }
  }

  lemma GcdEnd(a: int, b: int)
    requires b > 0 && a % b == 0
    ensures IsGcd(b, a, b)
  {
    assert Times(1, b) == b && Times(a / b, b) == a;
    forall d: int | d > 0 && Divides(d, b) ensures d <= b {
      var q :| Times(q, d) == b;
      PositiveMultiple(q, d);
    }
  }

  /** The loop of `gcd` returns the greatest common divisor. */
  method Gcd(a0: int, b0: int) returns (g: int)
    requires a0 >= 0 && b0 > 0
    ensures IsGcd(g, a0, b0)
  {
    hide IsGcd, Divides;
    var a, b := a0, b0;
    var c := a % b;
    while c != 0
      invariant a >= 0 && b > 0 && c == a % b
      invariant forall d: int :: IsGcd(d, a, b) ==> IsGcd(d, a0, b0)
      decreases c
    {
      forall d: int | IsGcd(d, b, c) ensures IsGcd(d, a0, b0) {
        GcdStep(d, a, b);
      }
      a, b := b, c;
      c := a % b;
    }
    GcdEnd(a, b);
    g := b;
  }

  // ----- Bezout, and what it says about steps of length b around a ring of a + b places -----

  lemma {:induction false} Bezout(a: int, b: int) returns (g: int, x: int, y: int)
    requires a >= 0 && b > 0
    ensures IsGcd(g, a, b) && g == x * a + y * b
    decreases b
  {
    hide IsGcd, Divides;
    if a % b == 0 {
      g := b;
      x, y := 0, 1;
      GcdEnd(a, b);
    } else {
      var g', x', y' := Bezout(b, a % b);
      GcdStep(g', a, b);
      g, x, y := g', y', x' - y' * (a / b);
      BezoutBack(x', y', a / b, a % b, b);
    }
  }

  lemma BezoutBack(x: int, y: int, q: int, r: int, b: int)
    ensures y * (q * b + r) + (x - y * q) * b == x * b + y * r
  {
  }

  lemma BezoutMultiple(d: int, x: int, y: int, a: int, b: int)
    ensures d * (x * a + y * b) == (d * x) * (a + b) + (y - x) * (d * b)
  {
  }

  /** A step of length b comes back to its start after n / g steps, and not before. */
  lemma StepOrder(a: int, b: int, g: int, d: int)
    requires a >= 0 && b > 0 && IsGcd(g, a, b) && d > 0
    ensures Divides(a + b, d * b) ==> d * g >= a + b
    ensures d * g == a + b ==> Divides(a + b, d * b)
  {
    if Divides(a + b, d * b) {
      var g', x, y := Bezout(a, b);
      BezoutMultiple(d, x, y, a, b);
      assert Times(d * x, a + b) == (d * x) * (a + b);
      DividesCombination(a + b, (d * x) * (a + b), d * b, y - x);
      var q :| Times(q, a + b) == d * g;
      PositiveProduct(d, g);
      PositiveMultiple(q, a + b);
    }
    if d * g == a + b {
      var c :| Times(c, g) == b;
      CommuteThrough(d, c, g);
      assert Times(c, a + b) == d * b;
    }
  }

  lemma PositiveProduct(d: int, g: int)
    requires d > 0 && g > 0
    ensures d * g > 0
  {
  }

  lemma CommuteThrough(d: int, c: int, g: int)
    ensures d * (c * g) == c * (d * g)
  {
  }

  lemma CongruentInRange(n: int, p: int, q: int)
    requires 0 <= p < n && 0 <= q < n && Divides(n, p - q)
    ensures p == q
  {
    var m :| Times(m, n) == p - q;
    MultipleBounds(m, n);
  }

  // ----- The cycles -----

  /** Where the word at relative position p goes. */
  function Next(p: int, a: int, b: int): int { if p >= a then p - a else p + b }

  /** Where the word that ends at relative position p comes from. */
  function Prev(p: int, a: int, b: int): int { if p < b then p + a else p - b }

  function Orbit(i: int, j: nat, a: int, b: int): int {
    if j == 0 then a + i else Next(Orbit(i, j - 1, a, b), a, b)
  }

  lemma {:induction false} OrbitPosition(i: int, j: nat, a: int, b: int)
    requires a >= 0 && 0 <= i < b
    ensures 0 <= Orbit(i, j, a, b) < a + b
    ensures Divides(a + b, a + i + j * b - Orbit(i, j, a, b))
  {
    if j == 0 {
      assert Times(0, a + b) == a + i - Orbit(i, 0, a, b);
    } else {
      OrbitPosition(i, j - 1, a, b);
      var p := Orbit(i, j - 1, a, b);
      assert j * b == (j - 1) * b + b;
      assert Times(1, a + b) == a + b;
      DividesCombination(a + b, a + i + (j - 1) * b - p, a + b, if p >= a then 1 else 0);
    }
  }

  /** Two visits of one cycle to one position are at least n / g steps apart. */
  lemma OrbitDistinct(i: int, j: nat, k: nat, a: int, b: int, g: int)
    requires a >= 0 && 0 <= i < b && IsGcd(g, a, b) && j < k && (k - j) * g < a + b
    ensures Orbit(i, j, a, b) != Orbit(i, k, a, b)
  {
    OrbitPosition(i, j, a, b);
    OrbitPosition(i, k, a, b);
    if Orbit(i, j, a, b) == Orbit(i, k, a, b) {
      DividesCombination(a + b, a + i + k * b - Orbit(i, k, a, b), a + i + j * b - Orbit(i, j, a, b), -1);
      assert (k - j) * b == (a + i + k * b - Orbit(i, k, a, b)) - (a + i + j * b - Orbit(i, j, a, b));
      StepOrder(a, b, g, k - j);
    }
  }

  /** After n / g steps the cycle is back where it started. */
  lemma OrbitReturns(i: int, l: nat, a: int, b: int, g: int)
    requires a >= 0 && 0 <= i < b && IsGcd(g, a, b) && l * g == a + b
    ensures Orbit(i, l, a, b) == a + i
  {
    OrbitPosition(i, l, a, b);
    StepOrder(a, b, g, l);
    DividesCombination(a + b, l * b, a + i + l * b - Orbit(i, l, a, b), -1);
    CongruentInRange(a + b, Orbit(i, l, a, b), a + i);
  }

  lemma ResidueShift(p: int, x: int, g: int)
    requires g > 0 && Divides(g, x)
    ensures (p + x) % g == p % g
  {
    var q :| Times(q, g) == x;
    assert p + x == (p / g + q) * g + p % g;
    SameResidue(p / g + q, p % g, g);
  }

  /** A cycle stays in its residue class, so different cycles are disjoint. */
  lemma {:induction false} OrbitResidue(i: int, j: nat, a: int, b: int, g: int)
    requires a >= 0 && b > 0 && IsGcd(g, a, b) && 0 <= i < g
    ensures Orbit(i, j, a, b) % g == i
  {
    if j == 0 {
      ResidueShift(i, a, g);
      SameResidue(0, i, g);
    } else {
      OrbitResidue(i, j - 1, a, b, g);
      NextResidue(Orbit(i, j - 1, a, b), a, b, g);
    }
  }

  lemma NextResidue(p: int, a: int, b: int, g: int)
    requires g > 0 && Divides(g, a) && Divides(g, b)
    ensures Next(p, a, b) % g == p % g
  {
    if p >= a { ResidueShift(p - a, a, g); } else { ResidueShift(p, b, g); }
  }

  ghost predicate Visited(i: int, j: nat, p: int, a: int, b: int) {
    exists k: nat :: 1 <= k <= j && Orbit(i, k, a, b) == p
  }

  /** A cycle of n / g steps reaches every position of its residue class. */
  lemma OrbitCovers(i: int, l: nat, p: int, a: int, b: int, g: int)
    requires a >= 0 && b > 0 && IsGcd(g, a, b) && 0 <= i < g && l * g == a + b
    requires 0 <= p < a + b && p % g == i
    ensures Visited(i, l, p, a, b)
  {
    assert i < b by { var q :| Times(q, g) == b; PositiveMultiple(q, g); }
    var c :| Times(c, g) == a;
    var h := p / g - c;
    assert h * g == (p / g) * g - c * g;
    assert p == a + i + h * g;
    var t := StepsTo(a, b, g, l, h);
    OrbitPosition(i, t, a, b);
    DividesCombination(a + b, t * b - h * g, a + i + t * b - Orbit(i, t, a, b), -1);
    assert Orbit(i, t, a, b) - p == t * b - h * g + (-1) * (a + i + t * b - Orbit(i, t, a, b));
    CongruentInRange(a + b, Orbit(i, t, a, b), p);
  }

  /** Some number of steps between 1 and n / g moves by h * g places. */
  lemma StepsTo(a: int, b: int, g: int, l: int, h: int) returns (t: int)
    requires a >= 0 && b > 0 && IsGcd(g, a, b) && l > 0 && l * g == a + b
    ensures 1 <= t <= l && Divides(a + b, t * b - h * g)
  {
    var g', x, y := Bezout(a, b);
    var all := h * (y - x);
    BezoutMultiple(h, x, y, a, b);
    assert Times(-(h * x), a + b) == all * b - h * g by { CommuteThrough(y - x, h, b); }
    var q := (all - 1) / l;
    t := (all - 1) % l + 1;
    assert t == all - q * l;
    TakeMultiple(all, q, l, b);
    StepOrder(a, b, g, l);
    DividesCombination(a + b, all * b - h * g, l * b, -q);
  }

  lemma TakeMultiple(k: int, q: int, l: int, b: int)
    ensures (k - q * l) * b == k * b + (-q) * (l * b)
  {
  }

  // ----- permute_args -----

  /** The block argv[start..end) exchanged with argv[end..optEnd), order kept inside each. */
  function Exchanged<T>(s: seq<T>, start: nat, end: nat, optEnd: nat): seq<T>
    requires start <= end <= optEnd <= |s|
  {
    s[..start] + s[end..optEnd] + s[start..end] + s[optEnd..]
  }

  /** What step j + 1 of cycle i reaches: a fresh position, or the start when it is the last step. */
  lemma OneStep(i: int, j: nat, l: nat, a: int, b: int, g: int)
    requires a >= 0 && b > 0 && IsGcd(g, a, b) && 0 <= i < g <= b && l * g == a + b && j < l
    ensures var p := Orbit(i, j + 1, a, b);
      && 0 <= p < a + b && p % g == i
      && (j + 1 == l <==> p == a + i)
      && !Visited(i, j, p, a, b)
  {
    OrbitPosition(i, j + 1, a, b);
    OrbitResidue(i, j + 1, a, b, g);
    if j + 1 == l {
      OrbitReturns(i, l, a, b, g);
    }
    forall k: nat | (if j + 1 == l then 1 else 0) <= k <= j ensures Orbit(i, k, a, b) != Orbit(i, j + 1, a, b) {
      MultipleOrder(j + 1 - k, l, g);
      OrbitDistinct(i, k, j + 1, a, b, g);
    }
    assert Orbit(i, 0, a, b) == a + i;
  }

  lemma VisitedStep(i: int, j: nat, a: int, b: int, q: int)
    ensures Visited(i, j + 1, q, a, b) <==> Visited(i, j, q, a, b) || q == Orbit(i, j + 1, a, b)
  {
    if Visited(i, j, q, a, b) {
      var k: nat :| 1 <= k <= j && Orbit(i, k, a, b) == q;
      assert 1 <= k <= j + 1;
    }
  }

  /** The words after i whole cycles. */
  ghost function AfterCycles<T>(was: seq<T>, start: int, a: int, b: int, g: int, i: int): (s: seq<T>)
    requires 0 <= start && 0 <= a && 0 < b && start + a + b <= |was| && 0 < g
    ensures |s| == |was|
  {
    seq(|was|, p requires 0 <= p < |was| =>
      was[if start <= p < start + a + b && (p - start) % g < i then start + Prev(p - start, a, b) else p])
  }

  /** The words after i whole cycles and j of the l steps of the next one: the start of the cycle
      holds the word that is on its way. */
  ghost function AfterSteps<T>(was: seq<T>, start: int, a: int, b: int, g: int, i: int, j: nat, l: nat): (s: seq<T>)
    requires 0 <= start && 0 <= a && 0 < b && start + a + b <= |was| && 0 <= i < g <= b
    requires 0 <= Orbit(i, j, a, b) < a + b
    ensures |s| == |was|
  {
    seq(|was|, p requires 0 <= p < |was| =>
      was[if p == start + a + i && j < l then start + Orbit(i, j, a, b)
          else if start <= p < start + a + b && ((p - start) % g < i || Visited(i, j, p - start, a, b))
          then start + Prev(p - start, a, b) else p])
  }

  /** What one turn of the inner loop does, with the swap taken on the words s. */
  lemma TakeStep<T>(was: seq<T>, s: seq<T>, start: int, a: int, b: int, g: int, i: int, j: nat, l: nat, pos: int,
      next: int)
    requires 0 <= start && 0 <= a && 0 < b && start + a + b <= |was|
    requires IsGcd(g, a, b) && 0 <= i < g <= b && l * g == a + b && j < l
    requires 0 <= Orbit(i, j, a, b) < a + b && pos == start + Orbit(i, j, a, b)
    requires s == AfterSteps(was, start, a, b, g, i, j, l)
    requires next == if pos >= start + a then pos - a else pos + b
    ensures 0 <= Orbit(i, j + 1, a, b) < a + b && next == start + Orbit(i, j + 1, a, b)
    ensures s[next := s[start + a + i]][start + a + i := s[next]] == AfterSteps(was, start, a, b, g, i, j + 1, l)
  {
    OneStep(i, j, l, a, b, g);
    OrbitResidue(i, 0, a, b, g);
    forall q ensures Visited(i, j + 1, q, a, b) <==> Visited(i, j, q, a, b) || q == Orbit(i, j + 1, a, b) {
      VisitedStep(i, j, a, b, q);
    }
    assert Prev(Orbit(i, j + 1, a, b), a, b) == Orbit(i, j, a, b);
  }

  lemma StartCycle<T>(was: seq<T>, start: int, a: int, b: int, g: int, i: int, l: nat)
    requires 0 <= start && 0 <= a && 0 < b && start + a + b <= |was|
    requires IsGcd(g, a, b) && 0 <= i < g <= b && l > 0
    ensures AfterCycles(was, start, a, b, g, i) == AfterSteps(was, start, a, b, g, i, 0, l)
  {
    OrbitResidue(i, 0, a, b, g);
    var s, t := AfterCycles(was, start, a, b, g, i), AfterSteps(was, start, a, b, g, i, 0, l);
    forall p | 0 <= p < |was| ensures s[p] == t[p] {
      assert !Visited(i, 0, p - start, a, b);
    }
  }

  lemma FinishCycle<T>(was: seq<T>, start: int, a: int, b: int, g: int, i: int, l: nat)
    requires 0 <= start && 0 <= a && 0 < b && start + a + b <= |was|
    requires IsGcd(g, a, b) && 0 <= i < g <= b && l * g == a + b
    ensures 0 <= Orbit(i, l, a, b) < a + b
    ensures AfterSteps(was, start, a, b, g, i, l, l) == AfterCycles(was, start, a, b, g, i + 1)
  {
    OrbitPosition(i, l, a, b);
    forall p | 0 <= p < a + b ensures p % g == i <==> Visited(i, l, p, a, b) {
      if p % g == i {
        OrbitCovers(i, l, p, a, b, g);
      } else if Visited(i, l, p, a, b) {
        var k: nat :| 1 <= k <= l && Orbit(i, k, a, b) == p;
        OrbitResidue(i, k, a, b, g);
      }
    }
  }

  lemma NoCycles<T>(was: seq<T>, start: int, a: int, b: int, g: int)
    requires 0 <= start && 0 <= a && 0 < b && start + a + b <= |was| && 0 < g
    ensures AfterCycles(was, start, a, b, g, 0) == was
  {
  }

  lemma AllCycles<T>(was: seq<T>, start: int, end: int, optEnd: int, a: int, b: int, g: int, i: int)
    requires 0 <= start <= end < optEnd <= |was| && a == end - start && b == optEnd - end && 0 < g == i
    ensures AfterCycles(was, start, a, b, g, i) == Exchanged(was, start, end, optEnd)
  {
    var s, t := AfterCycles(was, start, a, b, g, i), Exchanged(was, start, end, optEnd);
    forall p | 0 <= p < |was| ensures s[p] == t[p] {
      ResidueBelow(p - start, g);
      ExchangedAt(was, start, end, optEnd, p);
      assert s[p] == was[if start <= p < optEnd then start + Prev(p - start, a, b) else p];
    }
  }

  lemma ResidueBelow(x: int, g: int)
    requires g > 0
    ensures x % g < g
  {
  }

  /** The exchange position by position. */
  lemma ExchangedAt<T>(s: seq<T>, start: nat, end: nat, optEnd: nat, p: nat)
    requires start <= end <= optEnd <= |s| && p < |s|
    ensures |Exchanged(s, start, end, optEnd)| == |s|
    ensures Exchanged(s, start, end, optEnd)[p]
      == s[if start <= p < optEnd then start + Prev(p - start, end - start, optEnd - end) else p]
  {
    var b := optEnd - end;
    var head, second := s[..start], s[end..optEnd];
    var first := s[start..end];
    if p < start {
    } else if p < start + b {
      assert second[p - start] == s[end + (p - start)];
    } else if p < optEnd {
      assert first[p - start - b] == s[start + (p - start - b)];
    }
  }

  lemma CycleLength(a: int, b: int, g: int)
    requires a >= 0 && b > 0 && IsGcd(g, a, b)
    ensures g <= b && (a + b) / g > 0 && (a + b) / g * g == a + b
  {
    DividesCombination(g, a, b, 1);
    var q :| Times(q, g) == a + b;
    SameResidue(q, 0, g);
    var r :| Times(r, g) == b;
    PositiveMultiple(r, g);
    assert (a + b) == (a + b) / g * g + (a + b) % g;
    MultipleBounds((a + b) / g, g);
  }

  /** The inner loop of `permute_args`: one cycle, whose first place carries the word in transit. */
  method PermuteCycle<T>(start: int, end: int, optEnd: int, i: int, cyclelen: nat, nargv: array<T>,
      ghost was: seq<T>, ghost g: int)
    requires 0 <= start <= end < optEnd <= nargv.Length == |was|
    requires IsGcd(g, end - start, optEnd - end) && 0 <= i < g <= optEnd - end && cyclelen * g == optEnd - start
    requires nargv[..] == AfterCycles(was, start, end - start, optEnd - end, g, i)
    modifies nargv
    ensures nargv[..] == AfterCycles(was, start, end - start, optEnd - end, g, i + 1)
  {
    var a, b := end - start, optEnd - end;
    var cstart := end + i;
    var pos := cstart;
    MultipleBounds(cyclelen, g);
    StartCycle(was, start, a, b, g, i, cyclelen);
    for j := 0 to cyclelen
      invariant 0 <= Orbit(i, j, a, b) < a + b && pos == start + Orbit(i, j, a, b)
      invariant nargv[..] == AfterSteps(was, start, a, b, g, i, j, cyclelen)
    {
      ghost var s, from := nargv[..], pos;
      if pos >= end { pos := pos - a; } else { pos := pos + b; }
      TakeStep(was, s, start, a, b, g, i, j, cyclelen, from, pos);
      var swap := nargv[pos];
      nargv[pos] := nargv[cstart];
      nargv[cstart] := swap;
      assert nargv[..] == s[pos := s[cstart]][cstart := s[pos]];
    }
    FinishCycle(was, start, a, b, g, i, cyclelen);
  }

  /** Only the second block has to be non-empty: an empty one makes `gcd` divide by zero. */
  method PermuteArgs<T>(start: int, end: int, optEnd: int, nargv: array<T>)
    requires 0 <= start <= end < optEnd <= nargv.Length
    modifies nargv
    ensures nargv[..] == Exchanged(old(nargv[..]), start, end, optEnd)
  {
    var nnonopts := end - start;
    var nopts := optEnd - end;
    var ncycle := Gcd(nnonopts, nopts);
    var cyclelen := (optEnd - start) / ncycle;
    ghost var was := nargv[..];
    CycleLength(nnonopts, nopts, ncycle);
    NoCycles(was, start, nnonopts, nopts, ncycle);
    for i := 0 to ncycle
      invariant nargv[..] == AfterCycles(was, start, nnonopts, nopts, ncycle, i)
    {
      PermuteCycle(start, end, optEnd, i, cyclelen, nargv, was, ncycle);
    }
    AllCycles(was, start, end, optEnd, nnonopts, nopts, ncycle, ncycle);
  }
}
