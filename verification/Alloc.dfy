/** Core's block allocator (core/alloc.c): some pools of equal blocks, each with a list of its free
    blocks that lives in the free blocks themselves. Addresses index one array of bytes. */
module Alloc {
  import opened Arith
  import opened Bytes

  const LINK: nat := 8

  type Positive = x: int | x > 0 witness 1

  /** `struct allocator` without its head. */
  datatype Pool = Pool(blockSize: Positive, buf: Positive, bufSize: nat) {
    function End(): nat { buf + bufSize }
  }

  /** n is some number of d's, and how many d's fit in n. */
  predicate Whole(n: int, d: Positive)
    decreases n
  {
    n == 0 || (n >= d && Whole(n - d, d))
  }

  function Count(n: int, d: Positive): nat
    decreases n
  {
    if n < d then 0 else 1 + Count(n - d, d)
  }

  /** The memory, the head of each list, and what they stand for: the free blocks of each pool, the
      head last, and the live blocks with the size that was asked for. */
  datatype Heap = Heap(mem: seq<byte>, heads: seq<nat>, free: seq<seq<nat>>, live: map<nat, nat>)

  /** Buffers apart and inside memory, whole blocks that can hold a link, and ascending block sizes. */
  ghost predicate WellFormed(pools: seq<Pool>, size: nat) {
    && size <= U64
    && (forall k ::
         0 <= k < |pools| ==>
         LINK <= pools[k].blockSize && Whole(pools[k].bufSize, pools[k].blockSize) && pools[k].End() <= size)
    && (forall j, k :: 0 <= j < k < |pools| ==> pools[j].End() <= pools[k].buf || pools[k].End() <= pools[j].buf)
    && (forall j, k :: 0 <= j < k < |pools| ==> pools[j].blockSize < pools[k].blockSize)
  }

  const BLOCK_SIZES: seq<Positive> := [32, 64, 128, 256, 8192]
  const BUF_SIZES: seq<nat> := [32 * 4096, 64 * 1024, 128 * 1024, 256 * 1024, 8192 * 32]

  /** The pools of the program, wherever their buffers are. */
  function ProgramPools(bufs: seq<Positive>): seq<Pool>
    requires |bufs| == 5
  {
    seq(5, k requires 0 <= k < 5 => Pool(BLOCK_SIZES[k], bufs[k], BUF_SIZES[k]))
  }

  lemma ProgramPoolsFormed(bufs: seq<Positive>, size: nat)
    requires |bufs| == 5 && size <= U64
    requires forall k :: 0 <= k < 5 ==> bufs[k] + BUF_SIZES[k] <= size
    requires forall j, k :: 0 <= j < k < 5 ==> bufs[j] + BUF_SIZES[j] <= bufs[k] || bufs[k] + BUF_SIZES[k] <= bufs[j]
    ensures WellFormed(ProgramPools(bufs), size)
  {
    hide Whole;
    ProgramBlocks(bufs);
    var pools := ProgramPools(bufs);
    forall j, k | 0 <= j < k < 5 ensures pools[j].End() <= pools[k].buf || pools[k].End() <= pools[j].buf {
      assert pools[j].End() == bufs[j] + BUF_SIZES[j] && pools[k].End() == bufs[k] + BUF_SIZES[k];
    }
  }

  lemma ProgramBlocks(bufs: seq<Positive>)
    requires |bufs| == 5
    ensures var pools := ProgramPools(bufs);
      && (forall k :: 0 <= k < 5 ==> LINK <= pools[k].blockSize && Whole(pools[k].bufSize, pools[k].blockSize))
      && forall j, k :: 0 <= j < k < 5 ==> pools[j].blockSize < pools[k].blockSize
  {
    hide Whole;
    ProductIsWhole(4096, 32);
    ProductIsWhole(1024, 64);
    ProductIsWhole(1024, 128);
    ProductIsWhole(1024, 256);
    ProductIsWhole(32, 8192);
    var pools := ProgramPools(bufs);
    assert pools[0] == Pool(32, bufs[0], 131072) && pools[1] == Pool(64, bufs[1], 65536)
      && pools[2] == Pool(128, bufs[2], 131072);
    assert pools[3] == Pool(256, bufs[3], 262144) && pools[4] == Pool(8192, bufs[4], 262144);
  }

  lemma {:induction false} ProductIsWhole(q: nat, d: Positive)
    ensures q * d >= 0 && Whole(q * d, d)
  {
    if q > 0 {
      ProductIsWhole(q - 1, d);
      assert q * d - d == (q - 1) * d;
    }
  }

  // ----- Blocks -----

  ghost predicate IsBlock(p: Pool, a: int) { p.buf <= a < p.End() && Whole(a - p.buf, p.blockSize) }

  function BlockAt(p: Pool, i: nat): (a: nat) {
    if i == 0 then p.buf else BlockAt(p, i - 1) + p.blockSize
  }

  /** The pool whose block this is. */
  ghost function Owner(pools: seq<Pool>, a: int): (k: nat)
    ensures k <= |pools|
    ensures k < |pools| ==> IsBlock(pools[k], a)
    ensures k == |pools| ==> forall i :: 0 <= i < |pools| ==> !IsBlock(pools[i], a)
  {
    if i: nat :| i < |pools| && IsBlock(pools[i], a) then i else |pools|
  }

  ghost predicate IsAny(pools: seq<Pool>, a: int) { Owner(pools, a) < |pools| }

  lemma BlockInside(p: Pool, a: int)
    requires IsBlock(p, a) && Whole(p.bufSize, p.blockSize)
    ensures a + p.blockSize <= p.End()
  {
    NextMultiple(a - p.buf, p.bufSize, p.blockSize);
  }

  lemma {:induction false} NextMultiple(x: int, y: int, d: Positive)
    requires Whole(x, d) && Whole(y, d) && x < y
    ensures x + d <= y
    decreases x
  {
    if x > 0 { NextMultiple(x - d, y - d, d); }
  }

  lemma SamePoolApart(p: Pool, a: int, b: int)
    requires IsBlock(p, a) && IsBlock(p, b) && a < b
    ensures a + p.blockSize <= b
  {
    NextMultiple(a - p.buf, b - p.buf, p.blockSize);
  }

  lemma BlockBounds(pools: seq<Pool>, size: nat, a: int)
    requires WellFormed(pools, size) && IsAny(pools, a)
    ensures var p := pools[Owner(pools, a)];
      0 < p.buf <= a && LINK <= p.blockSize && a + LINK <= a + p.blockSize <= p.End() <= size <= U64
  {
    BlockInside(pools[Owner(pools, a)], a);
  }

  /** Two blocks, of whatever pools, do not overlap. */
  lemma BlocksApart(pools: seq<Pool>, size: nat, a: int, b: int)
    requires WellFormed(pools, size) && IsAny(pools, a) && IsAny(pools, b) && a != b
    ensures a + pools[Owner(pools, a)].blockSize <= b || b + pools[Owner(pools, b)].blockSize <= a
  {
    var j, k := Owner(pools, a), Owner(pools, b);
    BlockInside(pools[j], a);
    BlockInside(pools[k], b);
    if j == k {
      if a < b { SamePoolApart(pools[j], a, b); } else { SamePoolApart(pools[j], b, a); }
    } else {
      PoolsApart(pools, size, j, k);
    }
  }

  lemma PoolsApart(pools: seq<Pool>, size: nat, j: nat, k: nat)
    requires WellFormed(pools, size) && j < |pools| && k < |pools| && j != k
    ensures pools[j].End() <= pools[k].buf || pools[k].End() <= pools[j].buf
  {
    if j < k { } else { assert pools[k].End() <= pools[j].buf || pools[j].End() <= pools[k].buf; }
  }

  lemma OwnerIs(pools: seq<Pool>, size: nat, k: nat, a: int)
    requires WellFormed(pools, size) && k < |pools| && IsBlock(pools[k], a)
    ensures Owner(pools, a) == k
  {
    var j := Owner(pools, a);
    if j < |pools| && j != k { PoolsApart(pools, size, j, k); }
  }

  // ----- The two lookups -----

  /** `find_allocator_for_allocation`, from pool j on: the end of a buffer counts as in it. */
  function HomeFrom(pools: seq<Pool>, a: int, j: nat): (k: nat)
    requires j <= |pools|
    ensures j <= k <= |pools| && (k < |pools| ==> pools[k].buf <= a <= pools[k].End())
    ensures forall i :: j <= i < k ==> !(pools[i].buf <= a <= pools[i].End())
    decreases |pools| - j
  {
    if j == |pools| || pools[j].buf <= a <= pools[j].End() then j else HomeFrom(pools, a, j + 1)
  }

  function Home(pools: seq<Pool>, a: int): (k: nat)
    ensures k <= |pools|
  {
    HomeFrom(pools, a, 0)
  }

  /** `find_allocator_for_size`: the first pool whose blocks are large enough. */
  function ClassFrom(pools: seq<Pool>, size: nat, j: nat): (k: nat)
    requires j <= |pools|
    ensures j <= k <= |pools| && (k < |pools| ==> size <= pools[k].blockSize)
      && forall i :: j <= i < k ==> pools[i].blockSize < size
    decreases |pools| - j
  {
    if j == |pools| || size <= pools[j].blockSize then j else ClassFrom(pools, size, j + 1)
  }

  function ClassFor(pools: seq<Pool>, size: nat): (k: nat)
    ensures k <= |pools| && (k < |pools| ==> size <= pools[k].blockSize)
  {
    ClassFrom(pools, size, 0)
  }

  /** A block is freed to its own pool, or to one of smaller blocks. */
  lemma HomeIsSmaller(pools: seq<Pool>, size: nat, a: int)
    requires WellFormed(pools, size) && IsAny(pools, a)
    ensures Home(pools, a) <= Owner(pools, a)
    ensures pools[Home(pools, a)].blockSize <= pools[Owner(pools, a)].blockSize
    ensures Home(pools, a) < Owner(pools, a) ==> a == pools[Owner(pools, a)].buf == pools[Home(pools, a)].End()
  {
    var k := Owner(pools, a);
    var j := Home(pools, a);
    if j < k { PoolsApart(pools, size, j, k); }
  }

  /** No buffer starts at the end of one that is listed earlier. */
  ghost predicate Separate(pools: seq<Pool>) {
    forall j, k :: 0 <= j < k < |pools| && pools[k].bufSize > 0 ==> pools[j].End() != pools[k].buf
  }

  /** Every block goes back to its own pool exactly then. */
  lemma HomeIsOwner(pools: seq<Pool>, size: nat)
    requires WellFormed(pools, size)
    ensures (forall a :: IsAny(pools, a) ==> Home(pools, a) == Owner(pools, a)) <==> Separate(pools)
  {
    if Separate(pools) {
      forall a | IsAny(pools, a) ensures Home(pools, a) == Owner(pools, a) { HomeIsSmaller(pools, size, a); }
    } else {
      var j, k :| 0 <= j < k < |pools| && pools[k].bufSize > 0 && pools[j].End() == pools[k].buf;
      var a := pools[k].buf;
      assert IsBlock(pools[k], a);
      OwnerIs(pools, size, k, a);
      assert IsAny(pools, a) && Home(pools, a) <= j;
    }
  }

  // ----- The lists -----

  function Below(s: seq<nat>, i: nat): nat
    requires i <= |s|
  {
    if i == 0 then 0 else s[i - 1]
  }

  /** `next` of the free block at a. */
  function Next(mem: seq<byte>, a: nat): nat { if a + LINK <= |mem| then Load(mem[a..a + LINK]) else 0 }

  /** From the head, `next` leads through these blocks, the last one first, and ends in NULL. */
  ghost predicate Linked(mem: seq<byte>, head: nat, s: seq<nat>) {
    head == Below(s, |s|) && forall i :: 0 <= i < |s| ==> Next(mem, s[i]) == Below(s, i)
  }

  lemma NextKept(mem: seq<byte>, at: nat, what: seq<byte>, a: nat)
    requires at + |what| <= |mem| && (a + LINK <= at || at + |what| <= a)
    ensures Next(Overwrite(mem, at, what), a) == Next(mem, a)
  {
    hide Load, Overwrite;
    if a + LINK <= |mem| { OverwriteApart(mem, at, what, a, a + LINK); }
  }

  lemma LinkedKept(mem: seq<byte>, head: nat, s: seq<nat>, at: nat, what: seq<byte>)
    requires Linked(mem, head, s) && at + |what| <= |mem|
    requires forall i :: 0 <= i < |s| ==> s[i] + LINK <= at || at + |what| <= s[i]
    ensures Linked(Overwrite(mem, at, what), head, s)
  {
    hide Next, Overwrite;
    forall i | 0 <= i < |s| ensures Next(Overwrite(mem, at, what), s[i]) == Below(s, i) {
      NextKept(mem, at, what, s[i]);
    }
  }

  lemma LinkedMore(mem: seq<byte>, head: nat, s: seq<nat>, a: nat)
    requires Linked(mem, head, s) && head < U64 && a + LINK <= |mem|
    requires forall i :: 0 <= i < |s| ==> s[i] + LINK <= a || a + LINK <= s[i]
    ensures Linked(Overwrite(mem, a, Store(head, LINK)), a, s + [a])
  {
    hide Load, Store, Overwrite, Pow256;
    var mem', s' := Overwrite(mem, a, Store(head, LINK)), s + [a];
    LinkedKept(mem, head, s, a, Store(head, LINK));
    OverwriteHere(mem, a, Store(head, LINK));
    Pow256Values();
    LoadStore(head, LINK);
    forall i | 0 <= i < |s'| ensures Next(mem', s'[i]) == Below(s', i) {
      assert i < |s| ==> s'[i] == s[i] && Below(s', i) == Below(s, i);
    }
  }

  lemma LinkedLess(mem: seq<byte>, head: nat, s: seq<nat>)
    requires Linked(mem, head, s) && s != []
    ensures head == s[|s| - 1] && Linked(mem, Next(mem, head), s[..|s| - 1])
  {
    hide Next;
    var s' := s[..|s| - 1];
    assert forall i :: 0 <= i < |s'| ==> s'[i] == s[i] && Below(s', i) == Below(s, i);
  }

  // ----- The invariant -----

  ghost predicate AllLinked(mem: seq<byte>, heads: seq<nat>, free: seq<seq<nat>>) {
    |heads| == |free| && forall j :: 0 <= j < |free| ==> Linked(mem, heads[j], free[j])
  }

  /** No block is twice in a list, or in two. */
  ghost predicate Once(free: seq<seq<nat>>) {
    forall j, i, l, m ::
      0 <= j < |free| && 0 <= i < |free[j]| && 0 <= l < |free| && 0 <= m < |free[l]| && free[j][i] == free[l][m] ==>
      j == l && i == m
  }

  /** What is in the list of a pool is a block, and large enough for that pool. */
  ghost predicate Fit(pools: seq<Pool>, free: seq<seq<nat>>) {
    |free| == |pools|
      && forall j, i :: 0 <= j < |free| && 0 <= i < |free[j]| ==> j <= Owner(pools, free[j][i]) < |pools|
  }

  ghost predicate InFree(free: seq<seq<nat>>, a: nat) {
    exists j, i :: 0 <= j < |free| && 0 <= i < |free[j]| && free[j][i] == a
  }

  /** Every block is live or in a list, and not both. */
  ghost predicate Accounted(pools: seq<Pool>, free: seq<seq<nat>>, live: map<nat, nat>) {
    forall a: nat :: IsAny(pools, a) ==> (a in live <==> !InFree(free, a))
  }

  /** Every live block is a block at least as large as what was asked for. */
  ghost predicate LiveFit(pools: seq<Pool>, live: map<nat, nat>) {
    forall a :: a in live ==> IsAny(pools, a) && live[a] <= pools[Owner(pools, a)].blockSize
  }

  ghost predicate Inv(pools: seq<Pool>, h: Heap) {
    && WellFormed(pools, |h.mem|) && AllLinked(h.mem, h.heads, h.free)
    && Once(h.free) && Fit(pools, h.free) && Accounted(pools, h.free, h.live) && LiveFit(pools, h.live)
  }

  /** Live blocks do not overlap, and lie in a buffer. */
  lemma LiveApart(pools: seq<Pool>, h: Heap, a: nat, b: nat)
    requires Inv(pools, h) && a in h.live && b in h.live
    ensures a != b ==> a + h.live[a] <= b || b + h.live[b] <= a
    ensures var p := pools[Owner(pools, a)]; p.buf <= a && a + h.live[a] <= p.End() <= |h.mem|
  {
    hide AllLinked, Once, Fit, Accounted, WellFormed;
    BlockBounds(pools, |h.mem|, a);
    if a != b { BlocksApart(pools, |h.mem|, a, b); }
  }

  // ----- The steps -----

  /** The head of list j taken out, for a request of this size. */
  function Popped(h: Heap, j: nat, size: nat): Heap
    requires j < |h.heads| && j < |h.free| && h.free[j] != []
  {
    h.(heads := h.heads[j := Next(h.mem, h.heads[j])], free := h.free[j := h.free[j][..|h.free[j]| - 1]],
      live := h.live[h.heads[j] := size])
  }

  /** The block put at the head of list j. */
  function Pushed(h: Heap, j: nat, a: nat): Heap
    requires j < |h.heads| && j < |h.free| && a + LINK <= |h.mem|
  {
    h.(mem := Overwrite(h.mem, a, Store(h.heads[j], LINK)), heads := h.heads[j := a],
      free := h.free[j := h.free[j] + [a]], live := h.live - {a})
  }

  lemma OncePopped(free: seq<seq<nat>>, j: nat)
    requires Once(free) && j < |free| && free[j] != []
    ensures Once(free[j := free[j][..|free[j]| - 1]])
    ensures forall a ::
      InFree(free[j := free[j][..|free[j]| - 1]], a) <==> InFree(free, a) && a != free[j][|free[j]| - 1]
  {
    var n := |free[j]| - 1;
    var free' := free[j := free[j][..n]];
    assert forall l, m :: 0 <= l < |free'| && 0 <= m < |free'[l]| ==> m < |free[l]| && free'[l][m] == free[l][m];
    forall a ensures InFree(free', a) <==> InFree(free, a) && a != free[j][n] {
      if InFree(free', a) {
        var l, m :| 0 <= l < |free'| && 0 <= m < |free'[l]| && free'[l][m] == a;
        assert free[l][m] == a;
      }
      if InFree(free, a) && a != free[j][n] {
        var l, m :| 0 <= l < |free| && 0 <= m < |free[l]| && free[l][m] == a;
        assert free'[l][m] == a;
      }
    }
  }

  lemma OncePushed(free: seq<seq<nat>>, j: nat, a: nat)
    requires Once(free) && j < |free| && !InFree(free, a)
    ensures Once(free[j := free[j] + [a]])
    ensures forall b :: InFree(free[j := free[j] + [a]], b) <==> InFree(free, b) || b == a
  {
    var n := |free[j]|;
    var free' := free[j := free[j] + [a]];
    assert free'[j][n] == a;
    assert forall l, m :: 0 <= l < |free| && 0 <= m < |free[l]| ==> m < |free'[l]| && free'[l][m] == free[l][m];
    assert forall l, m ::
      0 <= l < |free'| && 0 <= m < |free'[l]| ==>
      if l == j && m == n then free'[l][m] == a else m < |free[l]| && free'[l][m] == free[l][m];
    forall b ensures InFree(free', b) <==> InFree(free, b) || b == a {
      if InFree(free', b) {
        var l, m :| 0 <= l < |free'| && 0 <= m < |free'[l]| && free'[l][m] == b;
        if !(l == j && m == n) { assert free[l][m] == b; }
      }
      if InFree(free, b) {
        var l, m :| 0 <= l < |free| && 0 <= m < |free[l]| && free[l][m] == b;
        assert free'[l][m] == b;
      }
    }
  }

  lemma FitPopped(pools: seq<Pool>, free: seq<seq<nat>>, j: nat)
    requires Fit(pools, free) && j < |free| && free[j] != []
    ensures Fit(pools, free[j := free[j][..|free[j]| - 1]])
    ensures j <= Owner(pools, free[j][|free[j]| - 1]) < |pools|
  {
  }

  lemma FitPushed(pools: seq<Pool>, free: seq<seq<nat>>, j: nat, a: nat)
    requires Fit(pools, free) && j < |free| && j <= Owner(pools, a) < |pools|
    ensures Fit(pools, free[j := free[j] + [a]])
  {
  }

  lemma LargerClass(pools: seq<Pool>, size: nat, j: nat, k: nat)
    requires WellFormed(pools, size) && j <= k < |pools|
    ensures pools[j].blockSize <= pools[k].blockSize
  {
  }

  lemma PoppedKeeps(pools: seq<Pool>, h: Heap, j: nat, size: nat)
    requires Inv(pools, h) && j < |pools| && |h.heads| == |h.free| == |pools| && h.free[j] != []
      && size <= pools[j].blockSize
    ensures Inv(pools, Popped(h, j, size))
    ensures h.heads[j] == h.free[j][|h.free[j]| - 1] != 0 && h.heads[j] !in h.live && IsAny(pools, h.heads[j])
  {
    hide WellFormed, Once, Fit, Linked, InFree, Owner;
    var a := h.free[j][|h.free[j]| - 1];
    LinkedLess(h.mem, h.heads[j], h.free[j]);
    OncePopped(h.free, j);
    FitPopped(pools, h.free, j);
    LargerClass(pools, |h.mem|, j, Owner(pools, a));
    BlockBounds(pools, |h.mem|, a);
    InFreeAt(h.free, j, |h.free[j]| - 1);
  }

  lemma InFreeAt(free: seq<seq<nat>>, j: nat, i: nat)
    requires j < |free| && i < |free[j]|
    ensures InFree(free, free[j][i])
  {
  }

  /** A write inside a block that is in no list leaves the lists alone. */
  lemma AllLinkedKept(pools: seq<Pool>, mem: seq<byte>, heads: seq<nat>, free: seq<seq<nat>>, a: nat, at: nat,
      what: seq<byte>)
    requires WellFormed(pools, |mem|) && AllLinked(mem, heads, free) && Fit(pools, free) && IsAny(pools, a)
      && !InFree(free, a)
    requires a <= at && at + |what| <= a + pools[Owner(pools, a)].blockSize
    ensures at + |what| <= |mem| && AllLinked(Overwrite(mem, at, what), heads, free)
    ensures forall j, i ::
      0 <= j < |free| && 0 <= i < |free[j]| ==> free[j][i] + LINK <= at || at + |what| <= free[j][i]
  {
    hide WellFormed, Linked, Overwrite;
    BlockBounds(pools, |mem|, a);
    forall j, i | 0 <= j < |free| && 0 <= i < |free[j]| ensures free[j][i] + LINK <= at || at + |what| <= free[j][i] {
      InFreeAt(free, j, i);
      BlockBounds(pools, |mem|, free[j][i]);
      BlocksApart(pools, |mem|, a, free[j][i]);
    }
    forall j | 0 <= j < |free| ensures Linked(Overwrite(mem, at, what), heads[j], free[j]) {
      LinkedKept(mem, heads[j], free[j], at, what);
    }
  }

  lemma HeadBound(pools: seq<Pool>, mem: seq<byte>, head: nat, s: seq<nat>)
    requires WellFormed(pools, |mem|) && Linked(mem, head, s) && forall i :: 0 <= i < |s| ==> IsAny(pools, s[i])
    ensures head < U64
  {
    hide WellFormed;
    if s != [] { BlockBounds(pools, |mem|, s[|s| - 1]); }
  }

  lemma FitBlocks(pools: seq<Pool>, free: seq<seq<nat>>, j: nat)
    requires Fit(pools, free) && j < |free|
    ensures forall i :: 0 <= i < |free[j]| ==> IsAny(pools, free[j][i])
  {
  }

  lemma AllLinkedPushed(pools: seq<Pool>, mem: seq<byte>, heads: seq<nat>, free: seq<seq<nat>>, j: nat, a: nat)
    requires WellFormed(pools, |mem|) && AllLinked(mem, heads, free) && Fit(pools, free) && IsAny(pools, a)
      && !InFree(free, a) && j < |free|
    ensures a + LINK <= |mem|
      && AllLinked(Overwrite(mem, a, Store(heads[j], LINK)), heads[j := a], free[j := free[j] + [a]])
  {
    hide WellFormed, Linked, Overwrite, Owner, Fit, Store;
    BlockBounds(pools, |mem|, a);
    AllLinkedKept(pools, mem, heads, free, a, a, Store(heads[j], LINK));
    FitBlocks(pools, free, j);
    HeadBound(pools, mem, heads[j], free[j]);
    LinkedMore(mem, heads[j], free[j], a);
  }

  lemma PushedKeeps(pools: seq<Pool>, h: Heap, a: nat)
    requires Inv(pools, h) && a in h.live
    ensures Home(pools, a) < |pools| == |h.heads| == |h.free| && a + LINK <= |h.mem|
      && Inv(pools, Pushed(h, Home(pools, a), a))
  {
    hide WellFormed, Once, AllLinked, InFree, Owner, Home, Overwrite;
    var j := Home(pools, a);
    HomeIsSmaller(pools, |h.mem|, a);
    assert |h.heads| == |h.free| by { AllLinkedShape(h.mem, h.heads, h.free); }
    AllLinkedPushed(pools, h.mem, h.heads, h.free, j, a);
    OncePushed(h.free, j, a);
    FitPushed(pools, h.free, j, a);
  }

  lemma AllLinkedShape(mem: seq<byte>, heads: seq<nat>, free: seq<seq<nat>>)
    requires AllLinked(mem, heads, free)
    ensures |heads| == |free|
  {
  }

  /** A client that stays inside what it asked for disturbs nothing. */
  lemma WriteKeeps(pools: seq<Pool>, h: Heap, a: nat, at: nat, what: seq<byte>)
    requires Inv(pools, h) && a in h.live && a <= at && at + |what| <= a + h.live[a]
    ensures at + |what| <= |h.mem| && Inv(pools, h.(mem := Overwrite(h.mem, at, what)))
  {
    hide WellFormed, Once, AllLinked, InFree, Owner, Fit, Overwrite;
    AllLinkedKept(pools, h.mem, h.heads, h.free, a, at, what);
  }

  // ----- Traces -----

  datatype Op = Malloc(size: nat) | Free(ptr: nat) | Write(ptr: nat, at: nat, what: seq<byte>)

  /** What clients may do: free live pointers, or ones that are in no buffer (NULL among them), and write
      inside what they asked for. */
  ghost predicate Allowed(pools: seq<Pool>, h: Heap, op: Op) {
    match op
    case Malloc(_) => true
    case Free(ptr) => ptr in h.live || Home(pools, ptr) == |pools|
    case Write(ptr, at, what) => ptr in h.live && ptr <= at && at + |what| <= ptr + h.live[ptr]
  }

  ghost function Apply(pools: seq<Pool>, h: Heap, op: Op): Heap
    requires Inv(pools, h) && Allowed(pools, h, op)
  {
    hide Inv, Overwrite;
    InvShape(pools, h);
    match op
    case Malloc(size) =>
      var j := ClassFor(pools, size);
      if j < |pools| && h.free[j] != [] then Popped(h, j, size) else h
    case Free(ptr) =>
      if ptr in h.live then
        PushedKeeps(pools, h, ptr);
        Pushed(h, Home(pools, ptr), ptr)
      else h
    case Write(ptr, at, what) =>
      WriteKeeps(pools, h, ptr, at, what);
      h.(mem := Overwrite(h.mem, at, what))
  }

  lemma InvShape(pools: seq<Pool>, h: Heap)
    requires Inv(pools, h)
    ensures |h.heads| == |h.free| == |pools|
  {
  }

  lemma ApplyKeeps(pools: seq<Pool>, h: Heap, op: Op)
    requires Inv(pools, h) && Allowed(pools, h, op)
    ensures Inv(pools, Apply(pools, h, op))
  {
    hide Inv, Popped, Pushed, Overwrite;
    InvShape(pools, h);
    match op
    case Malloc(size) =>
      var j := ClassFor(pools, size);
      if j < |pools| && h.free[j] != [] { PoppedKeeps(pools, h, j, size); }
    case Free(ptr) =>
      if ptr in h.live { PushedKeeps(pools, h, ptr); }
    case Write(ptr, at, what) => WriteKeeps(pools, h, ptr, at, what);
  }

  /** hs[i + 1] is hs[i] after the i-th operation. */
  ghost predicate Trace(pools: seq<Pool>, hs: seq<Heap>, ops: seq<Op>) {
    && |hs| == |ops| + 1 && Inv(pools, hs[0])
    && forall i ::
       0 <= i < |ops| ==>
       Inv(pools, hs[i]) ==> Allowed(pools, hs[i], ops[i]) && hs[i + 1] == Apply(pools, hs[i], ops[i])
  }

  lemma TraceStep(pools: seq<Pool>, hs: seq<Heap>, ops: seq<Op>, i: nat)
    requires Trace(pools, hs, ops) && i < |ops| && Inv(pools, hs[i])
    ensures Allowed(pools, hs[i], ops[i]) && hs[i + 1] == Apply(pools, hs[i], ops[i])
  {
    hide Inv, Allowed, Apply;
  }

  /** On every trace: the invariant, and with it live blocks that do not overlap and are large enough. */
  lemma {:induction false} TraceKeeps(pools: seq<Pool>, hs: seq<Heap>, ops: seq<Op>, n: nat)
    requires Trace(pools, hs, ops) && n <= |ops|
    ensures Inv(pools, hs[n])
    ensures forall a, b ::
      a in hs[n].live && b in hs[n].live && a != b ==> a + hs[n].live[a] <= b || b + hs[n].live[b] <= a
  {
    hide Inv, Apply;
    if n > 0 {
      TraceKeeps(pools, hs, ops, n - 1);
      TraceStep(pools, hs, ops, n - 1);
      ApplyKeeps(pools, hs[n - 1], ops[n - 1]);
    }
    forall a, b | a in hs[n].live && b in hs[n].live && a != b
      ensures a + hs[n].live[a] <= b || b + hs[n].live[b] <= a {
      LiveApart(pools, hs[n], a, b);
    }
  }

  /** Each list holds blocks of its own pool only. */
  ghost predicate Conserved(pools: seq<Pool>, h: Heap) {
    forall j, i :: 0 <= j < |h.free| && 0 <= i < |h.free[j]| ==> Owner(pools, h.free[j][i]) == j
  }

  /** When no buffer starts where an earlier one ends, every pool keeps its own blocks. */
  lemma {:induction false} PoolsConserved(pools: seq<Pool>, hs: seq<Heap>, ops: seq<Op>, n: nat)
    requires Trace(pools, hs, ops) && n <= |ops| && Separate(pools) && Conserved(pools, hs[0])
    ensures Conserved(pools, hs[n])
  {
    hide Inv, Allowed, Apply, Separate;
    if n > 0 {
      PoolsConserved(pools, hs, ops, n - 1);
      TraceKeeps(pools, hs, ops, n - 1);
      TraceStep(pools, hs, ops, n - 1);
      ConservedStep(pools, hs[n - 1], ops[n - 1]);
    }
  }

  lemma ConservedStep(pools: seq<Pool>, h: Heap, op: Op)
    requires Inv(pools, h) && Allowed(pools, h, op) && Separate(pools) && Conserved(pools, h)
    ensures Conserved(pools, Apply(pools, h, op))
  {
    hide Inv, Overwrite, Owner, Home, Separate;
    InvShape(pools, h);
    if op.Free? && op.ptr in h.live {
      PushedKeeps(pools, h, op.ptr);
      LiveIsAny(pools, h, op.ptr);
      HomeIsOwner(pools, |h.mem|);
    }
  }

  lemma LiveIsAny(pools: seq<Pool>, h: Heap, a: nat)
    requires Inv(pools, h) && a in h.live
    ensures IsAny(pools, a) && WellFormed(pools, |h.mem|)
  {
  }

  // ----- The initial lists -----

  /** The first n blocks of a pool. */
  function Prefix(p: Pool, n: nat): (s: seq<nat>)
    ensures |s| == n
  {
    seq(n, i requires 0 <= i < n => BlockAt(p, i))
  }

  function Full(p: Pool): seq<nat> { Prefix(p, Count(p.bufSize, p.blockSize)) }

  /** Block i is a block exactly for the first so many i. */
  lemma BlockAtIs(p: Pool, i: nat)
    requires Whole(p.bufSize, p.blockSize)
    ensures IsBlock(p, BlockAt(p, i)) <==> i < Count(p.bufSize, p.blockSize)
    ensures BlockAt(p, i) < p.End() <==> i < Count(p.bufSize, p.blockSize)
    ensures BlockAt(p, i + 1) == BlockAt(p, i) + p.blockSize
  {
    Strides(p, i);
    CountIs(BlockAt(p, i) - p.buf, p.bufSize, p.blockSize);
  }

  lemma {:induction false} Strides(p: Pool, i: nat)
    ensures p.buf <= BlockAt(p, i) && Whole(BlockAt(p, i) - p.buf, p.blockSize)
      && Count(BlockAt(p, i) - p.buf, p.blockSize) == i
  {
    if i > 0 { Strides(p, i - 1); }
  }

  lemma {:induction false} CountIs(x: int, y: int, d: Positive)
    requires Whole(x, d) && Whole(y, d)
    ensures x < y <==> Count(x, d) < Count(y, d)
    ensures x == y <==> Count(x, d) == Count(y, d)
    decreases x
  {
    if x > 0 && y > 0 { CountIs(x - d, y - d, d); }
  }

  lemma BlockAtOf(p: Pool, a: int) returns (i: nat)
    requires IsBlock(p, a) && Whole(p.bufSize, p.blockSize)
    ensures i < |Full(p)| && a == BlockAt(p, i) == Full(p)[i]
  {
    i := Count(a - p.buf, p.blockSize);
    Strides(p, i);
    CountIs(a - p.buf, p.bufSize, p.blockSize);
    CountIs(a - p.buf, BlockAt(p, i) - p.buf, p.blockSize);
  }

  lemma {:induction false} BlockAtOrder(p: Pool, i: nat, j: nat)
    requires i < j
    ensures BlockAt(p, i) + p.blockSize <= BlockAt(p, j)
    decreases j
  {
    if i < j - 1 { BlockAtOrder(p, i, j - 1); }
  }

  /** Every list holds all blocks of its pool. */
  ghost predicate Fresh(pools: seq<Pool>, h: Heap) {
    h.live == map[] && |h.free| == |pools| && forall k :: 0 <= k < |pools| ==> h.free[k] == Full(pools[k])
  }

  lemma FreshBlock(pools: seq<Pool>, size: nat, h: Heap, k: nat, i: nat)
    requires WellFormed(pools, size) && Fresh(pools, h) && k < |pools| && i < |h.free[k]|
    ensures h.free[k][i] == BlockAt(pools[k], i) && Owner(pools, h.free[k][i]) == k
  {
    hide BlockAt, IsBlock;
    BlockAtIs(pools[k], i);
    OwnerIs(pools, size, k, BlockAt(pools[k], i));
  }

  lemma FreshInv(pools: seq<Pool>, h: Heap)
    requires WellFormed(pools, |h.mem|) && AllLinked(h.mem, h.heads, h.free) && Fresh(pools, h)
    ensures Inv(pools, h) && Conserved(pools, h)
  {
    hide WellFormed, AllLinked, IsBlock, BlockAt, Owner, Full;
    forall j, i | 0 <= j < |h.free| && 0 <= i < |h.free[j]|
      ensures Owner(pools, h.free[j][i]) == j && h.free[j][i] == BlockAt(pools[j], i)
    {
      FreshBlock(pools, |h.mem|, h, j, i);
    }
    FreshOnce(pools, h);
    forall a: nat | IsAny(pools, a) ensures InFree(h.free, a) {
      OwnedBlock(pools, |h.mem|, a);
      var k := Owner(pools, a);
      var i := BlockAtOf(pools[k], a);
      InFreeAt(h.free, k, i);
    }
  }

  lemma FreshOnce(pools: seq<Pool>, h: Heap)
    requires |h.free| == |pools|
    requires forall j, i ::
      0 <= j < |h.free| && 0 <= i < |h.free[j]| ==>
      Owner(pools, h.free[j][i]) == j && h.free[j][i] == BlockAt(pools[j], i)
    ensures Once(h.free)
  {
    hide BlockAt, Owner;
    forall j, i, l, m | 0 <= j < |h.free| && 0 <= i < |h.free[j]| && 0 <= l < |h.free| && 0 <= m < |h.free[l]|
      && h.free[j][i] == h.free[l][m]
      ensures j == l && i == m
    {
      assert Owner(pools, h.free[j][i]) == j && Owner(pools, h.free[l][m]) == l;
      if i < m { BlockAtOrder(pools[j], i, m); } else if m < i { BlockAtOrder(pools[j], m, i); }
    }
  }

  lemma OwnedBlock(pools: seq<Pool>, size: nat, a: int)
    requires WellFormed(pools, size) && IsAny(pools, a)
    ensures IsBlock(pools[Owner(pools, a)], a)
      && Whole(pools[Owner(pools, a)].bufSize, pools[Owner(pools, a)].blockSize)
  {
  }

  // ----- Conservation over traces -----

  lemma TraceMore(pools: seq<Pool>, hs: seq<Heap>, ops: seq<Op>, op: Op)
    requires Trace(pools, hs, ops) && Inv(pools, hs[|ops|]) && Allowed(pools, hs[|ops|], op)
    ensures Trace(pools, hs + [Apply(pools, hs[|ops|], op)], ops + [op])
  {
    hide Inv, Allowed, Apply;
    var hs', ops' := hs + [Apply(pools, hs[|ops|], op)], ops + [op];
    forall i | 0 <= i < |ops'|
      ensures Inv(pools, hs'[i]) ==> Allowed(pools, hs'[i], ops'[i]) && hs'[i + 1] == Apply(pools, hs'[i], ops'[i])
    {
      if i < |ops| && Inv(pools, hs[i]) { TraceStep(pools, hs, ops, i); }
    }
  }

  /** A request for a whole block of pool k goes to pool k. */
  lemma OwnClass(pools: seq<Pool>, size: nat, k: nat)
    requires WellFormed(pools, size) && k < |pools|
    ensures ClassFor(pools, pools[k].blockSize) == k
  {
  }

  /** Pool k emptied by n requests: its last n blocks are live, and those before are still free. */
  lemma {:induction false} Drain(pools: seq<Pool>, h: Heap, k: nat, n: nat) returns (hs: seq<Heap>, ops: seq<Op>)
    requires Inv(pools, h) && k < |pools| && |h.free| == |pools| && n <= |h.free[k]|
    ensures |ops| == n && |hs| == n + 1 && Trace(pools, hs, ops) && hs[0] == h && Inv(pools, hs[n])
      && |hs[n].free| == |pools|
    ensures hs[n].free[k] == h.free[k][..|h.free[k]| - n]
    ensures forall i :: |h.free[k]| - n <= i < |h.free[k]| ==> h.free[k][i] in hs[n].live
  {
    hide Inv, WellFormed, Popped, Trace;
    if n == 0 {
      hs, ops := [h], [];
      NoTrace(pools, h);
      assert h.free[k][..|h.free[k]|] == h.free[k];
    } else {
      hs, ops := Drain(pools, h, k, n - 1);
      var g := hs[n - 1];
      InvFormed(pools, g);
      InvShape(pools, g);
      OwnClass(pools, |g.mem|, k);
      var op := Malloc(pools[k].blockSize);
      PoppedKeeps(pools, g, k, pools[k].blockSize);
      PoppedIs(g, k, pools[k].blockSize);
      ApplyKeeps(pools, g, op);
      TraceLength(pools, hs, ops);
      TraceMore(pools, hs, ops, op);
      hs, ops := hs + [Apply(pools, g, op)], ops + [op];
    }
  }

  lemma NoTrace(pools: seq<Pool>, h: Heap)
    requires Inv(pools, h)
    ensures Trace(pools, [h], [])
  {
  }

  lemma TraceLength(pools: seq<Pool>, hs: seq<Heap>, ops: seq<Op>)
    requires Trace(pools, hs, ops)
    ensures |hs| == |ops| + 1
  {
  }

  lemma InvFormed(pools: seq<Pool>, h: Heap)
    requires Inv(pools, h)
    ensures WellFormed(pools, |h.mem|)
  {
  }

  lemma PoppedIs(h: Heap, j: nat, size: nat)
    requires j < |h.heads| && j < |h.free| && h.free[j] != []
    ensures Popped(h, j, size).free == h.free[j := h.free[j][..|h.free[j]| - 1]]
    ensures Popped(h, j, size).live == h.live[h.heads[j] := size]
  {
  }

  /** From fresh lists, every trace leaves each pool its own blocks exactly when no buffer starts where an
      earlier listed one ends. Otherwise a trace that allocates all blocks of such a pool and frees the
      first one puts that block into the list of another pool. */
  lemma ConservedIffSeparate(pools: seq<Pool>, h: Heap)
    requires Inv(pools, h) && Fresh(pools, h) && Conserved(pools, h)
    ensures (forall hs, ops :: Trace(pools, hs, ops) && hs[0] == h ==> Conserved(pools, hs[|ops|])) <==> Separate(pools)
  {
    hide Inv, Allowed, Apply, Separate, Conserved, Fresh;
    if Separate(pools) {
      forall hs, ops | Trace(pools, hs, ops) && hs[0] == h ensures Conserved(pools, hs[|ops|]) {
        PoolsConserved(pools, hs, ops, |ops|);
      }
    } else {
      var hs, ops := MixingTrace(pools, h);
    }
  }

  lemma MixingTrace(pools: seq<Pool>, h: Heap) returns (hs: seq<Heap>, ops: seq<Op>)
    requires Inv(pools, h) && Fresh(pools, h) && !Separate(pools)
    ensures Trace(pools, hs, ops) && hs[0] == h && |hs| == |ops| + 1 && !Conserved(pools, hs[|ops|])
  {
    hide Inv, Trace, Full, Owner, Home, Count, WellFormed, IsBlock;
    InvFormed(pools, h);
    InvShape(pools, h);
    var k, a := SharedStart(pools, |h.mem|);
    FreshStart(pools, |h.mem|, h, k);
    var n := |h.free[k]|;
    hs, ops := Drain(pools, h, k, n);
    var g := hs[n];
    assert h.free[k][0] == a && a in g.live;
    TraceLength(pools, hs, ops);
    TraceMore(pools, hs, ops, Free(a));
    PushedKeeps(pools, g, a);
    Mixed(pools, g, a);
    hs, ops := hs + [Apply(pools, g, Free(a))], ops + [Free(a)];
  }

  /** A pool whose first block is freed to another one. */
  lemma SharedStart(pools: seq<Pool>, size: nat) returns (k: nat, a: nat)
    requires WellFormed(pools, size) && !Separate(pools)
    ensures k < |pools| && a == pools[k].buf && pools[k].bufSize > 0 && Owner(pools, a) == k && Home(pools, a) != k
  {
    var j: nat, l: nat :| j < l < |pools| && pools[l].bufSize > 0 && pools[j].End() == pools[l].buf;
    k, a := l, pools[l].buf;
    assert IsBlock(pools[k], a);
    OwnerIs(pools, size, k, a);
  }

  lemma FreshStart(pools: seq<Pool>, size: nat, h: Heap, k: nat)
    requires WellFormed(pools, size) && Fresh(pools, h) && k < |pools| && pools[k].bufSize > 0
    ensures h.free[k] != [] && h.free[k][0] == pools[k].buf
  {
    hide Owner;
    assert BlockAt(pools[k], 0) == pools[k].buf;
    BlockAtIs(pools[k], 0);
  }

  lemma Mixed(pools: seq<Pool>, h: Heap, a: nat)
    requires Inv(pools, h) && a in h.live && Home(pools, a) != Owner(pools, a)
    requires Home(pools, a) < |pools| == |h.heads| == |h.free| && a + LINK <= |h.mem|
    ensures !Conserved(pools, Pushed(h, Home(pools, a), a))
  {
    hide Inv, Owner, Home, Overwrite;
    var j := Home(pools, a);
    assert Pushed(h, j, a).free[j][|h.free[j]|] == a;
  }

  /** The lists while they are being built: whole for the pools before k, and with n blocks for pool k. */
  ghost predicate Building(pools: seq<Pool>, mem: seq<byte>, heads: seq<nat>, k: nat, n: nat) {
    && |heads| == |pools| && k <= |pools|
    && (forall j :: 0 <= j < k ==> Linked(mem, heads[j], Full(pools[j])))
    && (k < |pools| ==> Linked(mem, heads[k], Prefix(pools[k], n)))
  }

  lemma BuildBlock(pools: seq<Pool>, mem: seq<byte>, heads: seq<nat>, k: nat, n: nat)
    requires WellFormed(pools, |mem|) && Building(pools, mem, heads, k, n) && k < |pools| && n < |Full(pools[k])|
    ensures var a := BlockAt(pools[k], n);
      a + LINK <= |mem| && Building(pools, Overwrite(mem, a, Store(heads[k], LINK)), heads[k := a], k, n + 1)
  {
    hide WellFormed, Linked, IsBlock, BlockAt, Owner, Overwrite, Store;
    var p, a := pools[k], BlockAt(pools[k], n);
    InPool(pools, |mem|, k, n);
    forall i | 0 <= i < n ensures Prefix(p, n)[i] + LINK <= a && IsAny(pools, Prefix(p, n)[i]) {
      BlockAtOrder(p, i, n);
      InPool(pools, |mem|, k, i);
    }
    HeadBound(pools, mem, heads[k], Prefix(p, n));
    LinkedMore(mem, heads[k], Prefix(p, n), a);
    assert Prefix(p, n) + [a] == Prefix(p, n + 1);
    forall j | 0 <= j < k ensures Linked(Overwrite(mem, a, Store(heads[k], LINK)), heads[j], Full(pools[j])) {
      forall i | 0 <= i < |Full(pools[j])| ensures Full(pools[j])[i] + LINK <= a || a + LINK <= Full(pools[j])[i] {
        InPool(pools, |mem|, j, i);
        PoolsApart(pools, |mem|, j, k);
      }
      LinkedKept(mem, heads[j], Full(pools[j]), a, Store(heads[k], LINK));
    }
  }

  lemma InPool(pools: seq<Pool>, size: nat, k: nat, i: nat)
    requires WellFormed(pools, size) && k < |pools| && i < Count(pools[k].bufSize, pools[k].blockSize)
    ensures var a := BlockAt(pools[k], i);
      pools[k].buf <= a && a + LINK <= pools[k].End() <= size && LINK <= pools[k].blockSize && IsAny(pools, a)
  {
    hide BlockAt;
    BlockAtIs(pools[k], i);
    OwnerIs(pools, size, k, BlockAt(pools[k], i));
    BlockBounds(pools, size, BlockAt(pools[k], i));
  }

  lemma Built(pools: seq<Pool>, h: Heap)
    requires WellFormed(pools, |h.mem|) && Building(pools, h.mem, h.heads, |pools|, 0) && Fresh(pools, h)
    ensures Inv(pools, h) && Conserved(pools, h)
  {
    hide WellFormed, Linked, Full;
    FreshInv(pools, h);
  }

  lemma NextPool(pools: seq<Pool>, mem: seq<byte>, heads: seq<nat>, k: nat, heads': seq<nat>)
    requires k < |pools| && Building(pools, mem, heads, k, |Full(pools[k])|)
    requires heads' == if k + 1 < |pools| then heads[k + 1 := 0] else heads
    ensures Building(pools, mem, heads', k + 1, 0)
  {
    hide Next, BlockAt;
  }

  // ----- The code -----

  /** The free lists after an allocation that finds a block. */
  ghost function Taken(pools: seq<Pool>, free: seq<seq<nat>>, size: nat): seq<seq<nat>> {
    var k := ClassFor(pools, size);
    if k < |free| && free[k] != [] then free[k := free[k][..|free[k]| - 1]] else free
  }

  class Allocators {
    const pools: seq<Pool>
    const mem: array<byte>
    /** `head` of every allocator. */
    var heads: seq<nat>
    ghost var free: seq<seq<nat>>
    ghost var live: map<nat, nat>

    ghost function State(): Heap reads this, mem { Heap(mem[..], heads, free, live) }

    ghost predicate Valid() reads this, mem { Inv(pools, State()) }

    constructor (pools: seq<Pool>, mem: array<byte>)
      ensures this.pools == pools && this.mem == mem && |heads| == |pools|
    {
      this.pools, this.mem := pools, mem;
      heads := seq(|pools|, _ => 0);
    }

    method FindAllocatorForAllocation(addr: nat) returns (k: nat)
      ensures k == Home(pools, addr)
    {
      k := 0;
      while k < |pools|
        invariant k <= |pools| && HomeFrom(pools, addr, k) == Home(pools, addr)
      {
        if pools[k].buf <= addr && pools[k].buf + pools[k].bufSize >= addr { return; }
        k := k + 1;
      }
    }

    method FindAllocatorForSize(size: nat) returns (k: nat)
      ensures k == ClassFor(pools, size)
    {
      k := 0;
      while k < |pools|
        invariant k <= |pools| && ClassFrom(pools, size, k) == ClassFor(pools, size)
      {
        if pools[k].blockSize >= size { return; }
        k := k + 1;
      }
    }

    /** A run of bytes set, a link of a free block or cleared memory. */
    method Set(at: nat, what: seq<byte>)
      requires at + |what| <= mem.Length
      modifies mem
      ensures mem[..] == Overwrite(old(mem[..]), at, what)
    {
      hide Overwrite;
      ghost var m := mem[..];
      forall i | 0 <= i < |what| { mem[at + i] := what[i]; }
      Overwritten(m, at, what, mem[..]);
    }

    /** `core_init_allocators`. */
    method CoreInitAllocators()
      requires WellFormed(pools, mem.Length) && |heads| == |pools|
      modifies this, mem
      ensures Valid() && Fresh(pools, State()) && Conserved(pools, State())
    {
      hide Inv, WellFormed, Building, Full, IsBlock, Overwrite, Linked, Store, BlockAt;
      if |pools| > 0 { heads := heads[0 := 0]; }
      NothingBuilt(pools, mem[..], heads);
      for k := 0 to |pools|
        invariant |heads| == |pools| && Building(pools, mem[..], heads, k, 0)
      {
        var addr := pools[k].buf;
        ghost var n := 0;
        PoolStart(pools, mem.Length, k);
        while addr < pools[k].buf + pools[k].bufSize
          invariant |heads| == |pools| && Building(pools, mem[..], heads, k, n)
          invariant addr == BlockAt(pools[k], n) && n <= |Full(pools[k])|
          decreases |Full(pools[k])| - n
        {
          BlockCounts(pools, mem.Length, k, n);
          BuildBlock(pools, mem[..], heads, k, n);
          var prevHead := heads[k];
          heads := heads[k := addr];
          Set(addr, Store(prevHead, LINK));
          addr, n := addr + pools[k].blockSize, n + 1;
        }
        BlockCounts(pools, mem.Length, k, n);
        ghost var heads0 := heads;
        if k + 1 < |pools| { heads := heads[k + 1 := 0]; }
        NextPool(pools, mem[..], heads0, k, heads);
      }
      free, live := seq(|pools|, k requires 0 <= k < |pools| => Full(pools[k])), map[];
      Built(pools, State());
    }

    /** `core_malloc`. */
    method CoreMalloc(size: nat) returns (ptr: nat)
      requires Valid()
      modifies this
      ensures Valid() && State() == Apply(pools, old(State()), Malloc(size))
      ensures ptr == 0 <==> ClassFor(pools, size) == |pools| || old(State()).free[ClassFor(pools, size)] == []
      ensures ptr == 0 ==> State() == old(State())
      ensures ptr != 0 ==>
        ptr !in old(live) && live == old(live)[ptr := size] && size <= pools[ClassFor(pools, size)].blockSize
      ensures free == Taken(pools, old(free), size)
    {
      hide Inv, Owner, Overwrite, Next;
      InvShape(pools, State());
      ghost var h := State();
      var k := FindAllocatorForSize(size);
      if k < |pools| { EmptyList(pools, h, k); }
      if k == |pools| || heads[k] == 0 { return 0; }
      PoppedKeeps(pools, h, k, size);
      ptr := heads[k];
      PoppedInside(pools, h, ptr);
      heads := heads[k := Load(mem[ptr..ptr + LINK])];
      NextIs(mem[..], ptr);
      assert mem[ptr..ptr + LINK] == mem[..][ptr..ptr + LINK];
      free, live := free[k := free[k][..|free[k]| - 1]], live[ptr := size];
      assert State() == Popped(h, k, size);
    }

    /** `core_calloc`: the product wraps, and so many bytes are cleared. */
    method CoreCalloc(count: nat, size: nat) returns (ptr: nat)
      requires Valid()
      modifies this, mem
      ensures Valid()
      ensures ptr == 0 <==>
        ClassFor(pools, count * size % U64) == |pools| || old(State()).free[ClassFor(pools, count * size % U64)] == []
      ensures ptr == 0 ==> State() == old(State())
      ensures ptr != 0 ==>
                && ptr !in old(live) && live == old(live)[ptr := count * size % U64]
                && ptr + live[ptr] <= mem.Length && mem[..] == Overwrite(old(mem[..]), ptr, seq(live[ptr], _ => 0))
      ensures ptr != 0 && count * size < U64 ==> live[ptr] == count * size
      ensures free == Taken(pools, old(free), count * size % U64)
    {
      hide Inv, Owner, Overwrite;
      var total := count * size % U64;
      ptr := CoreMalloc(total);
      if ptr == 0 { return; }
      ghost var h := State();
      WriteKeeps(pools, h, ptr, ptr, seq(total, _ => 0));
      Set(ptr, seq(total, _ => 0));
      assert State() == h.(mem := Overwrite(h.mem, ptr, seq(total, _ => 0)));
    }

    /** `core_free`. A pointer that lies in no buffer, NULL among them, is ignored. */
    method CoreFree(ptr: nat)
      requires Valid() && (ptr in live || Home(pools, ptr) == |pools|)
      modifies this, mem
      ensures Valid() && State() == Apply(pools, old(State()), Free(ptr))
      ensures live == old(live) - {ptr}
    {
      hide Inv, Owner, Overwrite, Home;
      ghost var h := State();
      var k := FindAllocatorForAllocation(ptr);
      if ptr in live { PushedKeeps(pools, h, ptr); } else { assert live - {ptr} == live; }
      if k == |pools| { LiveAtHome(pools, h, ptr); return; }
      Set(ptr, Store(heads[k], LINK));
      heads := heads[k := ptr];
      free, live := free[k := free[k] + [ptr]], live - {ptr};
      assert State() == Pushed(h, k, ptr);
    }

    /** A client writes inside what it asked for. */
    method ClientWrite(ptr: nat, at: nat, what: seq<byte>)
      requires Valid() && ptr in live && ptr <= at && at + |what| <= ptr + live[ptr]
      modifies mem
      ensures Valid() && at + |what| <= mem.Length && mem[..] == Overwrite(old(mem[..]), at, what)
    {
      hide Inv, Owner, Overwrite;
      ghost var h := State();
      WriteKeeps(pools, h, ptr, at, what);
      Set(at, what);
      assert State() == h.(mem := Overwrite(h.mem, at, what));
    }
  }

  lemma NothingBuilt(pools: seq<Pool>, mem: seq<byte>, heads: seq<nat>)
    requires |heads| == |pools| && (|pools| > 0 ==> heads[0] == 0)
    ensures Building(pools, mem, heads, 0, 0)
  {
  }

  lemma PoolStart(pools: seq<Pool>, size: nat, k: nat)
    requires WellFormed(pools, size) && k < |pools|
    ensures BlockAt(pools[k], 0) == pools[k].buf
  {
  }

  lemma BlockCounts(pools: seq<Pool>, size: nat, k: nat, n: nat)
    requires WellFormed(pools, size) && k < |pools|
    ensures BlockAt(pools[k], n) < pools[k].buf + pools[k].bufSize <==> n < |Full(pools[k])|
    ensures BlockAt(pools[k], n + 1) == BlockAt(pools[k], n) + pools[k].blockSize
  {
    hide BlockAt;
    BlockAtIs(pools[k], n);
  }

  /** The head of a list is NULL exactly when the list is empty. */
  lemma EmptyList(pools: seq<Pool>, h: Heap, j: nat)
    requires Inv(pools, h) && j < |pools|
    ensures |h.heads| == |h.free| == |pools| && (h.heads[j] == 0 <==> h.free[j] == [])
  {
    hide WellFormed, Once, Accounted, LiveFit, Owner, Next;
    if h.free[j] != [] { BlockBounds(pools, |h.mem|, h.free[j][|h.free[j]| - 1]); }
  }

  lemma PoppedInside(pools: seq<Pool>, h: Heap, a: nat)
    requires Inv(pools, h) && IsAny(pools, a)
    ensures a + LINK <= |h.mem|
  {
    BlockBounds(pools, |h.mem|, a);
  }

  lemma NextIs(mem: seq<byte>, a: nat)
    requires a + LINK <= |mem|
    ensures Next(mem, a) == Load(mem[a..a + LINK])
  {
  }

  lemma LiveAtHome(pools: seq<Pool>, h: Heap, a: nat)
    requires Inv(pools, h)
    ensures a in h.live ==> Home(pools, a) < |pools|
  {
    hide AllLinked, Once, Fit, Accounted;
    if a in h.live { HomeIsSmaller(pools, |h.mem|, a); }
  }
}
