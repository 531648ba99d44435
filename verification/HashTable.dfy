/** The chained hash table of the bundled argument library (cli/lib/argtable/argtable3.c), and its
    iterator. Keys are compared by equality; the hash is any function of the key. */
module HashTable {

  type Key = string

  /** `void*`; 0 is NULL. */
  type Pointer = nat

  class Entry {
    const key: Key
    const h: nat
    var v: Pointer
    var next: Entry?

    constructor (key: Key, h: nat, v: Pointer, next: Entry?)
      ensures this.key == key && this.h == h && this.v == v && this.next == next
    {
      this.key, this.h, this.v, this.next := key, h, v, next;
    }
  }

  const PRIMES: seq<nat> := [53, 97, 193, 389, 769, 1543, 3079, 6151, 12289,
    24593, 49157, 98317, 196613, 393241, 786433, 1572869, 3145739, 6291469,
    12582917, 25165843, 50331653, 100663319, 201326611, 402653189, 805306457, 1610612741]

  ghost predicate IsPrimeAt(n: nat, i: nat) { i < |PRIMES| && PRIMES[i] == n }

  function IndexFor(length: nat, h: nat): nat
    requires length > 0
    ensures IndexFor(length, h) < length
  {
    h % length
  }

  /** Entry j of a chain, whose head is the last one. */
  function At(c: seq<Entry>, j: int): Entry? { if 0 <= j < |c| then c[j] else null }

  function Head(c: seq<Entry>): Entry? { At(c, |c| - 1) }

  /** The entries by key, and the chains: every entry once, in the chain of its hash. */
  ghost predicate Buckets(chains: seq<seq<Entry>>, ent: map<Key, Entry>, all: set<Entry>, hash: Key -> nat) {
    && |chains| > 0
    && (forall k :: k in ent ==>
          ent[k].key == k && ent[k].h == hash(k) && ent[k] in chains[IndexFor(|chains|, hash(k))])
    && (forall k :: k in ent ==> ent[k] in all)
    && (forall e :: e in all ==> e.key in ent && ent[e.key] == e)
    && (forall i, j :: 0 <= i < |chains| && 0 <= j < |chains[i]| ==> Belongs(chains[i][j], ent, hash, |chains|, i))
    && (forall i, j, l :: 0 <= i < |chains| && 0 <= j < l < |chains[i]| ==> chains[i][j] != chains[i][l])
  }

  ghost predicate Belongs(e: Entry, ent: map<Key, Entry>, hash: Key -> nat, length: nat, i: nat)
    requires length > 0
  {
    e.key in ent && ent[e.key] == e && IndexFor(length, hash(e.key)) == i
  }

  /** The bucket array and the `next` fields spell out the chains. */
  ghost predicate Linked(heads: seq<Entry?>, next: map<Entry, Entry?>, chains: seq<seq<Entry>>) {
    && |heads| == |chains|
    && (forall i :: 0 <= i < |chains| ==> heads[i] == Head(chains[i]))
    && forall i, j :: 0 <= i < |chains| && 0 <= j < |chains[i]| ==> Follows(next, chains[i], j)
  }

  ghost predicate Follows(next: map<Entry, Entry?>, c: seq<Entry>, j: nat)
    requires j < |c|
  {
    c[j] in next && next[c[j]] == At(c, j - 1)
  }

  /** The `next` field of p set to x. */
  ghost predicate Redirected(next: map<Entry, Entry?>, next': map<Entry, Entry?>, p: Entry, x: Entry?) {
    && next'.Keys == next.Keys + {p} && next'[p] == x
    && forall e :: e in next && e != p ==> next'[e] == next[e]
  }

  ghost function Nexts(entries: set<Entry>): map<Entry, Entry?>
    reads entries
  {
    map e | e in entries :: e.next
  }

  ghost function Vals(ent: map<Key, Entry>, all: set<Entry>): (m: map<Key, Pointer>)
    reads all
  {
    map k | k in ent && ent[k] in all :: ent[k].v
  }

  lemma ValsMinus(ent: map<Key, Entry>, all: set<Entry>, e: Entry)
    requires e.key in ent && ent[e.key] == e && forall k :: k in ent ==> ent[k].key == k && ent[k] in all
    ensures Vals(ent - {e.key}, all - {e}) == Vals(ent, all) - {e.key} && |ent - {e.key}| == |ent| - 1
  {
    assert (ent - {e.key}).Keys == ent.Keys - {e.key};
  }

  // ----- Chains as values -----

  function Push(chains: seq<seq<Entry>>, i: nat, e: Entry): seq<seq<Entry>>
    requires i < |chains|
  {
    chains[i := chains[i] + [e]]
  }

  function Drop(chains: seq<seq<Entry>>, i: nat, j: nat): seq<seq<Entry>>
    requires i < |chains| && j < |chains[i]|
  {
    chains[i := chains[i][..j] + chains[i][j + 1..]]
  }

  lemma PushKeeps(chains: seq<seq<Entry>>, ent: map<Key, Entry>, all: set<Entry>, hash: Key -> nat, e: Entry)
    requires Buckets(chains, ent, all, hash) && e.key !in ent && e.h == hash(e.key)
    ensures Buckets(Push(chains, IndexFor(|chains|, e.h), e), ent[e.key := e], all + {e}, hash)
    ensures forall i, j :: 0 <= i < |chains| && 0 <= j < |chains[i]| ==> chains[i][j] != e
  {
    hide IndexFor;
    var i0 := IndexFor(|chains|, e.h);
    var chains', ent' := Push(chains, i0, e), ent[e.key := e];
    assert forall i, j :: 0 <= i < |chains| && 0 <= j < |chains[i]| ==> Belongs(chains[i][j], ent, hash, |chains|, i);
    assert chains'[i0][|chains[i0]|] == e;
    forall i, j | 0 <= i < |chains'| && 0 <= j < |chains'[i]| ensures Belongs(chains'[i][j], ent', hash, |chains'|, i) {
      if !(i == i0 && j == |chains[i0]|) {
        assert chains'[i][j] == chains[i][j] && Belongs(chains[i][j], ent, hash, |chains|, i);
      }
    }
  }

  lemma DropKeeps(chains: seq<seq<Entry>>, ent: map<Key, Entry>, all: set<Entry>, hash: Key -> nat, i0: nat, j0: nat)
    requires Buckets(chains, ent, all, hash) && i0 < |chains| && j0 < |chains[i0]|
    ensures chains[i0][j0].key in ent && ent[chains[i0][j0].key] == chains[i0][j0]
    ensures Buckets(Drop(chains, i0, j0), ent - {chains[i0][j0].key}, all - {chains[i0][j0]}, hash)
    ensures forall i, j ::
      0 <= i < |chains| && 0 <= j < |chains[i]| && (i != i0 || j != j0) ==> chains[i][j] != chains[i0][j0]
  {
    hide IndexFor;
    var e := chains[i0][j0];
    assert Belongs(e, ent, hash, |chains|, i0);
    var chains', ent' := Drop(chains, i0, j0), ent - {e.key};
    forall i, j | 0 <= i < |chains| && 0 <= j < |chains[i]| && (i != i0 || j != j0) ensures chains[i][j] != e {
      assert Belongs(chains[i][j], ent, hash, |chains|, i);
      if i == i0 { assert if j < j0 then chains[i0][j] != chains[i0][j0] else chains[i0][j0] != chains[i0][j]; }
    }
    DropAt(chains[i0], j0);
    forall i, j | 0 <= i < |chains'| && 0 <= j < |chains'[i]| ensures Belongs(chains'[i][j], ent', hash, |chains'|, i) {
      var l := if i == i0 && j0 <= j then j + 1 else j;
      assert chains'[i][j] == chains[i][l] && Belongs(chains[i][l], ent, hash, |chains|, i);
    }
    forall k | k in ent' ensures ent'[k] in chains'[IndexFor(|chains'|, hash(k))] {
      var i := IndexFor(|chains|, hash(k));
      var l :| 0 <= l < |chains[i]| && chains[i][l] == ent[k];
      if i == i0 { assert l != j0; }
    }
  }

  lemma Distinct(chains: seq<seq<Entry>>, ent: map<Key, Entry>, all: set<Entry>, hash: Key -> nat, i0: nat, j0: nat)
    requires Buckets(chains, ent, all, hash) && i0 < |chains| && j0 < |chains[i0]|
    ensures forall i, j ::
      0 <= i < |chains| && 0 <= j < |chains[i]| && (i != i0 || j != j0) ==> chains[i][j] != chains[i0][j0]
  {
    hide IndexFor;
    assert Belongs(chains[i0][j0], ent, hash, |chains|, i0);
    forall i, j | 0 <= i < |chains| && 0 <= j < |chains[i]| && (i != i0 || j != j0)
      ensures chains[i][j] != chains[i0][j0]
    {
      assert Belongs(chains[i][j], ent, hash, |chains|, i);
      if i == i0 { assert if j < j0 then chains[i0][j] != chains[i0][j0] else chains[i0][j0] != chains[i0][j]; }
    }
  }

  lemma LinkedPush(heads: seq<Entry?>, next: map<Entry, Entry?>, chains: seq<seq<Entry>>, i0: nat, e: Entry,
      next': map<Entry, Entry?>)
    requires Linked(heads, next, chains) && i0 < |chains| && Redirected(next, next', e, heads[i0])
    requires forall i, j :: 0 <= i < |chains| && 0 <= j < |chains[i]| ==> chains[i][j] != e
    ensures Linked(heads[i0 := e], next', Push(chains, i0, e))
  {
    var chains' := Push(chains, i0, e);
    forall i, j | 0 <= i < |chains'| && 0 <= j < |chains'[i]| ensures Follows(next', chains'[i], j) {
      if i != i0 || j < |chains[i0]| { assert Follows(next, chains[i], j) && chains'[i][j] == chains[i][j]; }
    }
  }

  /** Entry j0 of a chain bypassed: by the bucket when it is the head, and else by the entry before it. */
  lemma LinkedDrop(heads: seq<Entry?>, next: map<Entry, Entry?>, chains: seq<seq<Entry>>, i0: nat, j0: nat,
      heads': seq<Entry?>, next': map<Entry, Entry?>)
    requires Linked(heads, next, chains) && i0 < |chains| && j0 < |chains[i0]|
    requires var c := chains[i0];
      if j0 == |c| - 1 then heads' == heads[i0 := At(c, j0 - 1)] && next' == next
      else heads' == heads && Redirected(next, next', c[j0 + 1], At(c, j0 - 1))
    requires j0 + 1 < |chains[i0]| ==>
               forall i, j ::
                 0 <= i < |chains| && 0 <= j < |chains[i]| && (i != i0 || j != j0 + 1) ==>
                 chains[i][j] != chains[i0][j0 + 1]
    ensures Linked(heads', next', Drop(chains, i0, j0))
  {
    var chains' := Drop(chains, i0, j0);
    DropAt(chains[i0], j0);
    forall i, j | 0 <= i < |chains'| && 0 <= j < |chains'[i]| ensures Follows(next', chains'[i], j) {
      var l := if i == i0 && j0 <= j then j + 1 else j;
      assert Follows(next, chains[i], l) && chains'[i][j] == chains[i][l];
    }
  }

  ghost predicate Within(chains: seq<seq<Entry>>, entries: set<Entry>) {
    forall i, j :: 0 <= i < |chains| && 0 <= j < |chains[i]| ==> chains[i][j] in entries
  }

  lemma LinkedShrink(heads: seq<Entry?>, entries: set<Entry>, entries': set<Entry>, chains: seq<seq<Entry>>)
    requires Linked(heads, Nexts(entries), chains) && entries' <= entries && Within(chains, entries')
    ensures Linked(heads, Nexts(entries'), chains)
  {
    forall i, j | 0 <= i < |chains| && 0 <= j < |chains[i]| ensures Follows(Nexts(entries'), chains[i], j) {
      assert Follows(Nexts(entries), chains[i], j);
    }
  }

  /** Entry j of chain i, with what the heap says about it. */
  lemma EntryFacts(heads: seq<Entry?>, next: map<Entry, Entry?>, chains: seq<seq<Entry>>, ent: map<Key, Entry>,
      all: set<Entry>, hash: Key -> nat, i: nat, j: nat)
    requires Buckets(chains, ent, all, hash) && Linked(heads, next, chains) && i < |chains| && j < |chains[i]|
    ensures |heads| == |chains| && heads[i] == Head(chains[i])
    ensures var e := chains[i][j];
      && e in next && next[e] == At(chains[i], j - 1) && e.key in ent && ent[e.key] == e && e in all
      && e.h == hash(e.key)
  {
    assert Follows(next, chains[i], j);
    InAll(chains, ent, all, hash, i, j);
  }

  lemma EntryAt(heads: seq<Entry?>, chains: seq<seq<Entry>>, ent: map<Key, Entry>, all: set<Entry>, hash: Key -> nat,
      i: nat, j: nat)
    requires Buckets(chains, ent, all, hash) && Linked(heads, Nexts(all), chains) && i < |chains| && j < |chains[i]|
    ensures var e := chains[i][j];
      e.key in ent && ent[e.key] == e && e in all && e.next == At(chains[i], j - 1) && e.h == hash(e.key)
  {
    hide Buckets, Linked;
    EntryFacts(heads, Nexts(all), chains, ent, all, hash, i, j);
  }

  lemma HeadAt(heads: seq<Entry?>, next: map<Entry, Entry?>, chains: seq<seq<Entry>>, ent: map<Key, Entry>,
      all: set<Entry>, hash: Key -> nat, i: nat)
    requires Buckets(chains, ent, all, hash) && Linked(heads, next, chains)
    ensures |heads| == |chains| > 0 && (i < |chains| ==> heads[i] == Head(chains[i]))
  {
  }

  lemma UnlinkFacts(heads: seq<Entry?>, chains: seq<seq<Entry>>, ent: map<Key, Entry>, all: set<Entry>,
      hash: Key -> nat, i: nat, j: nat)
    requires Buckets(chains, ent, all, hash) && Linked(heads, Nexts(all), chains) && i < |chains| && j < |chains[i]|
    ensures |heads| == |chains|
    ensures var e, p := chains[i][j], At(chains[i], j + 1);
      e.key in ent && ent[e.key] == e && e in all && e.next == At(chains[i], j - 1) && p != e
        && (p != null ==> p in all)
  {
    hide Buckets, Linked, Nexts;
    HeadAt(heads, Nexts(all), chains, ent, all, hash, i);
    EntryAt(heads, chains, ent, all, hash, i, j);
    if j + 1 < |chains[i]| {
      EntryAt(heads, chains, ent, all, hash, i, j + 1);
      Distinct(chains, ent, all, hash, i, j);
    }
  }

  lemma Unlinked(heads: seq<Entry?>, next: map<Entry, Entry?>, chains: seq<seq<Entry>>, ent: map<Key, Entry>,
      all: set<Entry>, hash: Key -> nat, i: nat, j: nat,
      heads': seq<Entry?>, next': map<Entry, Entry?>)
    requires Buckets(chains, ent, all, hash) && Linked(heads, next, chains) && i < |chains| && j < |chains[i]|
      && |heads| == |chains|
    requires var c := chains[i];
      if j == |c| - 1 then heads' == heads[i := At(c, j - 1)] && next' == next
      else heads' == heads && Redirected(next, next', c[j + 1], At(c, j - 1))
    ensures var e := chains[i][j];
      && e.key in ent && Linked(heads', next', Drop(chains, i, j))
      && Buckets(Drop(chains, i, j), ent - {e.key}, all - {e}, hash)
      && Within(Drop(chains, i, j), all - {e})
  {
    hide Buckets, Linked, IndexFor, Drop, Redirected;
    DropKeeps(chains, ent, all, hash, i, j);
    if j + 1 < |chains[i]| { Distinct(chains, ent, all, hash, i, j + 1); }
    LinkedDrop(heads, next, chains, i, j, heads', next');
    DropLength(chains, i, j);
    AllWithin(Drop(chains, i, j), ent - {chains[i][j].key}, all - {chains[i][j]}, hash);
  }

  lemma DropLength(chains: seq<seq<Entry>>, i: nat, j: nat)
    requires i < |chains| && j < |chains[i]|
    ensures |Drop(chains, i, j)| == |chains|
  {
  }

  lemma DropAt(c: seq<Entry>, j0: nat)
    requires j0 < |c|
    ensures var c' := c[..j0] + c[j0 + 1..];
      && (forall j :: 0 <= j < |c'| ==> c'[j] == c[if j < j0 then j else j + 1])
      && forall j :: 0 <= j < |c| && j != j0 ==> c[j] in c'
  {
    var c' := c[..j0] + c[j0 + 1..];
    forall j | 0 <= j < |c| && j != j0 ensures c[j] in c' {
      assert c'[if j < j0 then j else j - 1] == c[j];
    }
  }

  /** Where the entry of a key is. */
  lemma Position(chains: seq<seq<Entry>>, ent: map<Key, Entry>, all: set<Entry>, hash: Key -> nat, k: Key)
      returns (j: nat)
    requires Buckets(chains, ent, all, hash) && k in ent
    ensures var c := chains[IndexFor(|chains|, hash(k))]; j < |c| && c[j] == ent[k]
  {
    var c := chains[IndexFor(|chains|, hash(k))];
    j :| j < |c| && c[j] == ent[k];
  }

  lemma NoChains(n: nat, hash: Key -> nat)
    requires n > 0
    ensures Buckets(seq(n, _ => []), map[], {}, hash)
  {
  }

  lemma AllMoved(chains: seq<seq<Entry>>, ent: map<Key, Entry>, all: set<Entry>, hash: Key -> nat)
    requires Buckets(chains, ent, all, hash) && forall i :: 0 <= i < |chains| ==> chains[i] == []
    ensures ent == map[]
  {
    if k :| k in ent { var j := Position(chains, ent, all, hash, k); }
  }

  // ----- Growing -----

  /** One of the two bucket arrays during an expansion. */
  datatype Side = Side(chains: seq<seq<Entry>>, ent: map<Key, Entry>, all: set<Entry>)

  /** Each entry is in one of the two. */
  ghost predicate Moving(from: array<Entry?>, to: array<Entry?>, hash: Key -> nat, f: Side, t: Side,
      ent: map<Key, Entry>, all: set<Entry>)
    reads from, to, all
  {
    && from != to && f.all + t.all == all && f.ent.Keys !! t.ent.Keys && f.ent + t.ent == ent
    && Buckets(f.chains, f.ent, f.all, hash) && Linked(from[..], Nexts(f.all), f.chains)
    && Buckets(t.chains, t.ent, t.all, hash) && Linked(to[..], Nexts(t.all), t.chains)
  }

  lemma MovingHeads(from: array<Entry?>, to: array<Entry?>, hash: Key -> nat, f: Side, t: Side, ent: map<Key, Entry>,
      all: set<Entry>)
    requires Moving(from, to, hash, f, t, ent, all)
    ensures |f.chains| == from.Length && forall i :: 0 <= i < from.Length ==> (from[i] == null <==> f.chains[i] == [])
  {
    hide Buckets, Linked, Nexts;
    HeadAt(from[..], Nexts(f.all), f.chains, f.ent, f.all, hash, 0);
    forall i | 0 <= i < from.Length ensures from[i] == null <==> f.chains[i] == [] {
      HeadAt(from[..], Nexts(f.all), f.chains, f.ent, f.all, hash, i);
    }
  }

  lemma StartMoving(from: array<Entry?>, to: array<Entry?>, hash: Key -> nat, chains: seq<seq<Entry>>,
      ent: map<Key, Entry>, all: set<Entry>)
    requires from != to && Buckets(chains, ent, all, hash) && Linked(from[..], Nexts(all), chains)
    requires to.Length > 0 && Linked(to[..], Nexts({}), seq(to.Length, _ => []))
    ensures Moving(from, to, hash, Side(chains, ent, all), Side(seq(to.Length, _ => []), map[], {}), ent, all)
  {
    hide Buckets, Linked, Nexts;
    NoChains(to.Length, hash);
    assert ent + map[] == ent && all + {} == all;
  }

  lemma MovedAll(from: array<Entry?>, to: array<Entry?>, hash: Key -> nat, f: Side, t: Side, ent: map<Key, Entry>,
      all: set<Entry>)
    requires Moving(from, to, hash, f, t, ent, all) && forall i :: 0 <= i < |f.chains| ==> f.chains[i] == []
    ensures Buckets(t.chains, ent, all, hash) && Linked(to[..], Nexts(all), t.chains)
  {
    hide Linked, Nexts;
    AllMoved(f.chains, f.ent, f.all, hash);
    assert f.all == {} && map[] + t.ent == t.ent && {} + t.all == t.all;
  }

  // ----- The table -----

  class Table {
    var table: array<Entry?>
    var primeIndex: nat
    var entryCount: nat
    var loadLimit: nat
    const hash: Key -> nat
    /** The load limit of a table of this length. */
    const limitOf: nat -> nat

    ghost var chains: seq<seq<Entry>>
    ghost var ent: map<Key, Entry>
    ghost var all: set<Entry>

    ghost predicate Valid()
      reads this, table, all
    {
      && Buckets(chains, ent, all, hash) && Linked(table[..], Nexts(all), chains)
      && IsPrimeAt(table.Length, primeIndex) && loadLimit == limitOf(table.Length)
      && entryCount == |ent|
    }

    /** The finite map that the table stands for. */
    ghost function Contents(): (m: map<Key, Pointer>)
      reads this, all
    {
      Vals(ent, all)
    }

    constructor (length: nat, primeIndex: nat, hash: Key -> nat, limitOf: nat -> nat)
      requires length > 0 && primeIndex < |PRIMES| && length == PRIMES[primeIndex]
      ensures Valid() && fresh(table) && all == {} && Contents() == map[] && table.Length == length
        && this.primeIndex == primeIndex && this.hash == hash && this.limitOf == limitOf
    {
      table := new Entry?[length](_ => null);
      this.primeIndex, entryCount, loadLimit, this.hash, this.limitOf := primeIndex, 0, limitOf(length), hash, limitOf;
      chains, ent, all := seq(length, _ => []), map[], {};
      new;
      NoChains(length, hash);
    }

    /** The loop of `arg_hashtable_search`, `_change`, `_remove` and `_itr_search`: along the chain of the
        key, with the entry before. */
    method Find(k: Key) returns (index: nat, e: Entry?, parent: Entry?, ghost j: nat)
      requires Valid()
      ensures |chains| > 0 && index == IndexFor(|chains|, hash(k))
      ensures e == null <==> k !in ent
      ensures e != null ==>
        e == ent[k] && j < |chains[index]| && chains[index][j] == e && parent == At(chains[index], j + 1)
    {
      hide IndexFor, Buckets, Linked, Nexts;
      HeadAt(table[..], Nexts(all), chains, ent, all, hash, 0);
      index, parent := IndexFor(table.Length, hash(k)), null;
      ghost var c := chains[index];
      HeadAt(table[..], Nexts(all), chains, ent, all, hash, index);
      j := |c|;
      e := table[index];
      while e != null
        invariant j <= |c| && e == At(c, j - 1) && parent == At(c, j)
        invariant forall l :: j <= l < |c| ==> c[l].key != k
        decreases j
      {
        j := j - 1;
        EntryAt(table[..], chains, ent, all, hash, index, j);
        if hash(k) == e.h && e.key == k { return; }
        parent := e;
        e := e.next;
      }
      if k in ent { FoundAt(chains, ent, all, hash, k); }
    }

    /** `arg_hashtable_search`. */
    method Search(k: Key) returns (v: Pointer)
      requires Valid()
      ensures v == if k in Contents() then Contents()[k] else 0
    {
      hide Buckets, Linked;
      KeysOf(chains, ent, all, hash);
      var index, e, parent, j := Find(k);
      v := if e != null then e.v else 0;
    }

    /** `arg_hashtable_change`. */
    method Change(k: Key, v: Pointer) returns (found: bool)
      requires Valid()
      modifies all
      ensures Valid() && found == (k in old(Contents()))
      ensures Contents() == if found then old(Contents())[k := v] else old(Contents())
    {
      hide Buckets, Linked;
      var index, e, parent, j := Find(k);
      found := e != null;
      KeysOf(chains, ent, all, hash);
      if found { e.v := v; }
      assert Nexts(all) == old(Nexts(all));
    }

    /** The pointer to e, in the bucket or in the entry before, set to its successor. */
    method Bypass(index: nat, e: Entry, parent: Entry?)
      requires index < table.Length && e in all && parent != e && (parent != null ==> parent in all)
      modifies table, all
      ensures table[..] == if parent == null then old(table[..])[index := e.next] else old(table[..])
      ensures if parent == null then Nexts(all) == old(Nexts(all))
        else Redirected(old(Nexts(all)), Nexts(all), parent, e.next)
      ensures Vals(ent, all) == old(Vals(ent, all)) && e.next == old(e.next)
    {
      if parent == null {
        table[index] := e.next;
        assert Nexts(all) == old(Nexts(all));
      } else {
        parent.next := e.next;
      }
      assert Vals(ent, all) == old(Vals(ent, all));
    }

    /** An entry that has been linked in or out counts as such. */
    method Become(count: nat, ghost chains': seq<seq<Entry>>, ghost ent': map<Key, Entry>, ghost all': set<Entry>)
      requires Buckets(chains', ent', all', hash) && Linked(table[..], Nexts(all'), chains') && count == |ent'|
      requires IsPrimeAt(table.Length, primeIndex) && loadLimit == limitOf(table.Length)
      modifies `entryCount, `chains, `ent, `all
      ensures Valid() && Contents() == old(Vals(ent', all')) && entryCount == count
      ensures ent == ent' && all == all' && chains == chains'
    {
      hide Buckets, Linked, Nexts, Vals, IsPrimeAt;
      ghost var next, vals := Nexts(all'), Vals(ent', all');
      entryCount, chains, ent, all := count, chains', ent', all';
      assert Nexts(all) == next && Vals(ent, all) == vals;
    }

    /** An entry taken out of its chain. */
    method Unlink(index: nat, e: Entry, parent: Entry?, ghost j: nat)
      requires Valid() && index < |chains| && j < |chains[index]| && e == chains[index][j]
        && parent == At(chains[index], j + 1)
      modifies this, table, all
      ensures Valid() && table == old(table) && e.key in old(ent) && ent == old(ent) - {e.key} && all == old(all) - {e}
        && chains == Drop(old(chains), index, j)
      ensures e.next == old(e.next) == At(old(chains[index]), j - 1)
      ensures Contents() == old(Contents()) - {e.key} && entryCount == old(entryCount) - 1
    {
      hide Buckets, IndexFor, Linked, Drop, Within, Nexts, Vals, Redirected, IsPrimeAt;
      ghost var heads, next, c := table[..], Nexts(all), Drop(chains, index, j);
      UnlinkFacts(heads, chains, ent, all, hash, index, j);
      Bypass(index, e, parent);
      Unlinked(heads, next, chains, ent, all, hash, index, j, table[..], Nexts(all));
      LinkedShrink(table[..], all, all - {e}, c);
      KeysOf(chains, ent, all, hash);
      ValsMinus(ent, all, e);
      Become(entryCount - 1, c, ent - {e.key}, all - {e});
    }

    /** The head entry of a chain of the old bucket array put in front of its chain in the new one. */
    method MoveHead(from: array<Entry?>, to: array<Entry?>, i: nat,
        ghost fc: seq<seq<Entry>>, ghost fe: map<Key, Entry>, ghost fa: set<Entry>,
        ghost tc: seq<seq<Entry>>, ghost te: map<Key, Entry>, ghost ta: set<Entry>) returns (e: Entry)
      requires Buckets(fc, fe, fa, hash) && Linked(from[..], Nexts(fa), fc) && Buckets(tc, te, ta, hash)
        && Linked(to[..], Nexts(ta), tc)
      requires from != to && fe.Keys !! te.Keys && i < from.Length && from[i] != null
      modifies from, to, fa
      ensures i < |fc| && fc[i] != [] && e == fc[i][|fc[i]| - 1] && e.key in fe && fe[e.key] == e && e in fa
      ensures Buckets(Drop(fc, i, |fc[i]| - 1), fe - {e.key}, fa - {e}, hash)
        && Linked(from[..], Nexts(fa - {e}), Drop(fc, i, |fc[i]| - 1))
      ensures Buckets(Push(tc, IndexFor(|tc|, e.h), e), te[e.key := e], ta + {e}, hash)
      ensures Linked(to[..], Nexts(ta + {e}), Push(tc, IndexFor(|tc|, e.h), e))
      ensures forall x :: x in fa ==> x.v == old(x.v)
    {
      hide Buckets, IndexFor, Linked, Drop, Push, Within, Redirected;
      ghost var fh, fn, th, tn := from[..], Nexts(fa), to[..], Nexts(ta);
      HeadAt(fh, fn, fc, fe, fa, hash, i);
      ghost var j := |fc[i]| - 1;
      EntryAt(fh, fc, fe, fa, hash, i, j);
      Unlinked(fh, fn, fc, fe, fa, hash, i, j, fh[i := At(fc[i], j - 1)], fn);
      e := from[i];
      LinkedShrink(fh[i := At(fc[i], j - 1)], fa, fa - {e}, Drop(fc, i, j));
      ghost var fn' := Nexts(fa - {e});
      PushKeeps(tc, te, ta, hash, e);
      from[i] := e.next;
      HeadAt(th, tn, tc, te, ta, hash, 0);
      var index := IndexFor(to.Length, e.h);
      HeadAt(th, tn, tc, te, ta, hash, index);
      e.next := to[index];
      to[index] := e;
      assert from[..] == fh[i := At(fc[i], j - 1)] && to[..] == th[index := e];
      assert Nexts(fa - {e}) == fn';
      NotIn(te, ta, tc, hash, e);
      Redirects(tn, Nexts(ta + {e}), e, th[index]);
      LinkedPush(th, tn, tc, index, e, Nexts(ta + {e}));
    }

    method MoveOne(from: array<Entry?>, to: array<Entry?>, i: nat, ghost f: Side, ghost t: Side,
        ghost ent: map<Key, Entry>, ghost all: set<Entry>)
      returns (ghost f': Side, ghost t': Side)
      requires Moving(from, to, hash, f, t, ent, all) && i < from.Length && from[i] != null
      modifies from, to, all
      ensures Moving(from, to, hash, f', t', ent, all) && Vals(ent, all) == old(Vals(ent, all))
      ensures |f'.chains| == |f.chains| == from.Length && |f'.chains[i]| == |f.chains[i]| - 1
      ensures forall j :: 0 <= j < |f.chains| && j != i ==> f'.chains[j] == f.chains[j]
    {
      hide Buckets, IndexFor, Linked, Drop, Push, Nexts;
      HeadAt(from[..], Nexts(f.all), f.chains, f.ent, f.all, hash, i);
      HeadAt(to[..], Nexts(t.all), t.chains, t.ent, t.all, hash, i);
      var e := MoveHead(from, to, i, f.chains, f.ent, f.all, t.chains, t.ent, t.all);
      MoveSplit(f.ent, t.ent, e);
      DropLast(f.chains, i);
      f' := Side(Drop(f.chains, i, |f.chains[i]| - 1), f.ent - {e.key}, f.all - {e});
      t' := Side(Push(t.chains, IndexFor(|t.chains|, e.h), e), t.ent[e.key := e], t.all + {e});
      assert f'.all + t'.all == f.all + t.all;
    }

    /** The loops of `arg_hashtable_expand`. */
    method Rehash(from: array<Entry?>, to: array<Entry?>, ghost f0: Side, ghost t0: Side, ghost ent: map<Key, Entry>,
        ghost all: set<Entry>)
      returns (ghost chains': seq<seq<Entry>>)
      requires Moving(from, to, hash, f0, t0, ent, all)
      modifies from, to, all
      ensures Buckets(chains', ent, all, hash) && Linked(to[..], Nexts(all), chains')
        && Vals(ent, all) == old(Vals(ent, all))
    {
      hide Moving, Buckets, Linked, Nexts, Vals;
      ghost var f, t := f0, t0;
      MovingHeads(from, to, hash, f, t, ent, all);
      for i := 0 to from.Length
        invariant Moving(from, to, hash, f, t, ent, all) && |f.chains| == from.Length
          && Vals(ent, all) == old(Vals(ent, all))
        invariant forall j :: 0 <= j < i ==> f.chains[j] == []
      {
        while from[i] != null
          invariant Moving(from, to, hash, f, t, ent, all) && |f.chains| == from.Length
            && Vals(ent, all) == old(Vals(ent, all))
          invariant forall j :: 0 <= j < i ==> f.chains[j] == []
          decreases |f.chains[i]|
        {
          f, t := MoveOne(from, to, i, f, t, ent, all);
        }
        MovingHeads(from, to, hash, f, t, ent, all);
      }
      MovedAll(from, to, hash, f, t, ent, all);
      chains' := t.chains;
    }

    /** The new bucket array of `arg_hashtable_expand`, with the entries moved over. */
    method Regrow(newSize: nat) returns (newTable: array<Entry?>, ghost chains': seq<seq<Entry>>)
      requires Valid() && newSize > 0
      modifies table, all
      ensures fresh(newTable) && newTable.Length == newSize && Vals(ent, all) == old(Vals(ent, all))
      ensures Buckets(chains', ent, all, hash) && Linked(newTable[..], Nexts(all), chains')
    {
      hide Buckets, Linked, Nexts, Vals, Moving;
      newTable := new Entry?[newSize](_ => null);
      NoChains(newSize, hash);
      NoneLinked(newTable[..], newSize);
      StartMoving(table, newTable, hash, chains, ent, all);
      chains' := Rehash(table, newTable, Side(chains, ent, all), Side(seq(newSize, _ => []), map[], {}), ent, all);
    }

    /** `arg_hashtable_expand`: the same entries, in chains of more buckets. */
    method Expand() returns (grown: bool)
      requires Valid()
      modifies this, table, all
      ensures Valid() && ent == old(ent) && all == old(all) && Contents() == old(Contents())
        && entryCount == old(entryCount)
      ensures grown <==> old(primeIndex) < |PRIMES| - 1
      ensures grown ==>
        fresh(table) && primeIndex == old(primeIndex) + 1 && table.Length == PRIMES[old(primeIndex) + 1]
      ensures !grown ==> table == old(table) && chains == old(chains) && primeIndex == old(primeIndex)
    {
      hide Buckets, Linked, Nexts, Vals;
      if primeIndex == |PRIMES| - 1 { return false; }
      PrimesPositive(primeIndex + 1);
      var newTable;
      ghost var chains';
      newTable, chains' := Regrow(PRIMES[primeIndex + 1]);
      table, primeIndex, chains, loadLimit := newTable, primeIndex + 1, chains', limitOf(PRIMES[primeIndex + 1]);
      grown := true;
    }

    /** A new entry in front of its chain. */
    method LinkIn(k: Key, v: Pointer) returns (e: Entry)
      requires Buckets(chains, ent, all, hash) && Linked(table[..], Nexts(all), chains) && k !in ent
      modifies table
      ensures fresh(e) && e.key == k && e.v == v && e.h == hash(k) && IndexFor(|chains|, e.h) < |chains|
      ensures Buckets(Push(chains, IndexFor(|chains|, e.h), e), ent[k := e], all + {e}, hash)
      ensures Linked(table[..], Nexts(all + {e}), Push(chains, IndexFor(|chains|, e.h), e))
      ensures Vals(ent[k := e], all + {e}) == old(Vals(ent, all))[k := v]
    {
      hide Buckets, IndexFor, Linked, Push, Redirected;
      ghost var heads, next := table[..], Nexts(all);
      HeadAt(heads, next, chains, ent, all, hash, 0);
      KeysOf(chains, ent, all, hash);
      var index := IndexFor(table.Length, hash(k));
      e := new Entry(k, hash(k), v, table[index]);
      PushKeeps(chains, ent, all, hash, e);
      table[index] := e;
      assert table[..] == heads[index := e];
      Redirects(next, Nexts(all + {e}), e, heads[index]);
      LinkedPush(heads, next, chains, index, e, Nexts(all + {e}));
      assert Vals(ent[k := e], all + {e}) == old(Vals(ent, all))[k := v];
    }

    /** `arg_hashtable_insert` once there is room. */
    method InsertHere(k: Key, v: Pointer)
      requires Valid() && k !in ent
      modifies this, table
      ensures Valid() && Contents() == old(Contents())[k := v] && entryCount == old(entryCount) + 1
        && table == old(table) && primeIndex == old(primeIndex)
      ensures ent.Keys == old(ent).Keys + {k} && fresh(all - old(all))
    {
      hide Buckets, IndexFor, Linked, Push, Nexts, Vals;
      var e := LinkIn(k, v);
      CountPlus(ent, k, e);
      Become(entryCount + 1, Push(chains, IndexFor(|chains|, e.h), e), ent[k := e], all + {e});
    }

    /** `arg_hashtable_insert`, of a new key. When the table cannot grow any more the entry goes in anyway. */
    method Insert(k: Key, v: Pointer)
      requires Valid() && k !in ent
      modifies this, table, all
      ensures Valid() && Contents() == old(Contents())[k := v] && entryCount == old(entryCount) + 1
      ensures ent.Keys == old(ent).Keys + {k} && fresh(all - old(all))
      ensures if old(entryCount) + 1 > limitOf(old(table).Length) && old(primeIndex) < |PRIMES| - 1
        then fresh(table) && primeIndex == old(primeIndex) + 1 && table.Length == PRIMES[old(primeIndex) + 1]
        else table == old(table) && primeIndex == old(primeIndex)
    {
      hide Buckets, Linked, Nexts, Vals;
      if entryCount + 1 > loadLimit {
        var grown := Expand();
      }
      InsertHere(k, v);
    }

    /** `arg_hashtable_remove`. */
    method Remove(k: Key)
      requires Valid()
      modifies this, table, all
      ensures Valid() && table == old(table) && Contents() == old(Contents()) - {k} && ent == old(ent) - {k}
    {
      hide Buckets, Linked, IndexFor;
      KeysOf(chains, ent, all, hash);
      var index, e, parent, j := Find(k);
      if e != null {
        Unlink(index, e, parent, j);
      } else {
        assert ent - {k} == ent;
        assert Contents() - {k} == Contents();
      }
    }
  }

  lemma NotIn(ent: map<Key, Entry>, all: set<Entry>, chains: seq<seq<Entry>>, hash: Key -> nat, e: Entry)
    requires Buckets(chains, ent, all, hash) && e.key !in ent
    ensures e !in all
  {
  }

  lemma Redirects(next: map<Entry, Entry?>, next': map<Entry, Entry?>, p: Entry, x: Entry?)
    requires next'.Keys == next.Keys + {p} && next'[p] == x && forall e :: e in next && e != p ==> next'[e] == next[e]
    ensures Redirected(next, next', p, x)
  {
  }

  lemma PrimesPositive(i: nat)
    requires i < |PRIMES|
    ensures PRIMES[i] > 0
  {
  }

  lemma NoneLinked(heads: seq<Entry?>, n: nat)
    requires |heads| == n && forall i :: 0 <= i < n ==> heads[i] == null
    ensures Linked(heads, Nexts({}), seq(n, _ => []))
  {
  }

  lemma MoveSplit(fe: map<Key, Entry>, te: map<Key, Entry>, e: Entry)
    requires fe.Keys !! te.Keys && e.key in fe && fe[e.key] == e
    ensures (fe - {e.key}).Keys !! te[e.key := e].Keys && fe - {e.key} + te[e.key := e] == fe + te
  {
  }

  lemma DropLast(chains: seq<seq<Entry>>, i: nat)
    requires i < |chains| && chains[i] != []
    ensures var d := Drop(chains, i, |chains[i]| - 1);
      |d| == |chains| && |d[i]| == |chains[i]| - 1 && forall j :: 0 <= j < |chains| && j != i ==> d[j] == chains[j]
  {
  }

  lemma CountPlus(ent: map<Key, Entry>, k: Key, e: Entry)
    requires k !in ent
    ensures ent[k := e].Keys == ent.Keys + {k} && |ent[k := e]| == |ent| + 1
  {
    assert ent[k := e].Keys == ent.Keys + {k};
  }

  lemma KeysOf(chains: seq<seq<Entry>>, ent: map<Key, Entry>, all: set<Entry>, hash: Key -> nat)
    requires Buckets(chains, ent, all, hash)
    ensures forall k :: k in ent ==> ent[k].key == k && ent[k] in all
  {
  }

  lemma FoundAt(chains: seq<seq<Entry>>, ent: map<Key, Entry>, all: set<Entry>, hash: Key -> nat, k: Key)
    requires Buckets(chains, ent, all, hash) && k in ent
    ensures exists l ::
      0 <= l < |chains[IndexFor(|chains|, hash(k))]| && chains[IndexFor(|chains|, hash(k))][l].key == k
  {
    var l := Position(chains, ent, all, hash, k);
  }

  lemma AllWithin(chains: seq<seq<Entry>>, ent: map<Key, Entry>, all: set<Entry>, hash: Key -> nat)
    requires Buckets(chains, ent, all, hash)
    ensures Within(chains, all)
  {
    forall i, j | 0 <= i < |chains| && 0 <= j < |chains[i]| ensures chains[i][j] in all {
      InAll(chains, ent, all, hash, i, j);
    }
  }

  lemma InAll(chains: seq<seq<Entry>>, ent: map<Key, Entry>, all: set<Entry>, hash: Key -> nat, i: nat, j: nat)
    requires Buckets(chains, ent, all, hash) && i < |chains| && j < |chains[i]|
    ensures chains[i][j] in all && chains[i][j].key in ent && ent[chains[i][j].key] == chains[i][j]
  {
    assert Belongs(chains[i][j], ent, hash, |chains|, i);
    var k := chains[i][j].key;
  }

  const MAX_SIZE: nat := 0x4000_0000

  lemma LastPrime()
    ensures PRIMES[|PRIMES| - 1] > MAX_SIZE && |PRIMES| == 26 && forall i :: 0 <= i < |PRIMES| ==> PRIMES[i] > 0
  {
  }

  /** `arg_hashtable_create`: the first size in the list above the one asked for. */
  method Create(minSize: nat, hash: Key -> nat, limitOf: nat -> nat) returns (h: Table?)
    ensures h == null <==> minSize > MAX_SIZE
    ensures h != null ==>
              && fresh(h) && fresh(h.table) && h.all == {} && h.Valid() && h.Contents() == map[] && h.hash == hash
              && h.limitOf == limitOf && h.table.Length == PRIMES[h.primeIndex] > minSize
              && forall i :: 0 <= i < h.primeIndex ==> PRIMES[i] <= minSize
  {
    hide Buckets, Linked;
    if minSize > MAX_SIZE { return null; }
    LastPrime();
    var size, pindex := PRIMES[0], 0;
    while pindex < |PRIMES|
      invariant pindex < |PRIMES| && forall i :: 0 <= i < pindex ==> PRIMES[i] <= minSize
    {
      if PRIMES[pindex] > minSize {
        size := PRIMES[pindex];
        break;
      }
      pindex := pindex + 1;
    }
    h := new Table(size, pindex, hash, limitOf);
  }

  // ----- The iterator -----

  /** The keys that are still ahead: those of later buckets, and those of the last n entries of this one. */
  ghost function Ahead(chains: seq<seq<Entry>>, ent: map<Key, Entry>, hash: Key -> nat, index: nat, n: nat): set<Key>
    requires |chains| > 0
  {
    set k | k in ent && InFront(chains, ent[k], IndexFor(|chains|, hash(k)), index, n)
  }

  ghost predicate InFront(chains: seq<seq<Entry>>, e: Entry, i: nat, index: nat, n: nat) {
    i > index || (i == index && i < |chains| && n <= |chains[i]| && e in chains[i][..n])
  }

  /** All of them, before the first bucket that holds anything. */
  lemma AheadOfAll(chains: seq<seq<Entry>>, ent: map<Key, Entry>, all: set<Entry>, hash: Key -> nat)
    requires Buckets(chains, ent, all, hash)
    ensures Ahead(chains, ent, hash, 0, |chains[0]|) == ent.Keys
  {
    hide IndexFor;
    assert chains[0][..|chains[0]|] == chains[0];
  }

  /** Nothing left in this bucket: on to the next. */
  lemma AheadNext(chains: seq<seq<Entry>>, ent: map<Key, Entry>, all: set<Entry>, hash: Key -> nat, index: nat)
    requires Buckets(chains, ent, all, hash) && index < |chains|
    ensures Ahead(chains, ent, hash, index, 0)
      == if index + 1 < |chains| then Ahead(chains, ent, hash, index + 1, |chains[index + 1]|) else {}
  {
    hide IndexFor;
    if index + 1 < |chains| { assert chains[index + 1][..|chains[index + 1]|] == chains[index + 1]; }
  }

  /** One entry further. */
  lemma AheadStep(chains: seq<seq<Entry>>, ent: map<Key, Entry>, all: set<Entry>, hash: Key -> nat, index: nat, n: nat)
    requires Buckets(chains, ent, all, hash) && index < |chains| && n < |chains[index]|
    ensures var k := chains[index][n].key;
      && k in ent && k in Ahead(chains, ent, hash, index, n + 1)
      && Ahead(chains, ent, hash, index, n) == Ahead(chains, ent, hash, index, n + 1) - {k}
  {
    hide IndexFor;
    var c, e := chains[index], chains[index][n];
    InAll(chains, ent, all, hash, index, n);
    assert Belongs(e, ent, hash, |chains|, index);
    assert c[..n + 1] == c[..n] + [e] && e !in c[..n];
    forall k | k in ent ensures InFront(chains, ent[k], IndexFor(|chains|, hash(k)), index, n)
                            <==> InFront(chains, ent[k], IndexFor(|chains|, hash(k)), index, n + 1) && k != e.key {
      assert ent[k] == e <==> k == e.key;
    }
  }

  /** Taking the entry at n out of the table leaves the same keys ahead of it. */
  lemma AheadDrop(chains: seq<seq<Entry>>, ent: map<Key, Entry>, all: set<Entry>, hash: Key -> nat, index: nat, n: nat)
    requires Buckets(chains, ent, all, hash) && index < |chains| && n < |chains[index]|
    ensures Ahead(Drop(chains, index, n), ent - {chains[index][n].key}, hash, index, n)
      == Ahead(chains, ent, hash, index, n)
  {
    hide IndexFor;
    AheadStep(chains, ent, all, hash, index, n);
    var chains', k0 := Drop(chains, index, n), chains[index][n].key;
    assert chains'[index][..n] == chains[index][..n];
    forall k | k in ent && k != k0 ensures InFront(chains', ent[k], IndexFor(|chains|, hash(k)), index, n)
                                       <==> InFront(chains, ent[k], IndexFor(|chains|, hash(k)), index, n) { }
  }

  class Iterator {
    const h: Table
    var index: nat
    var e: Entry?
    var parent: Entry?
    /** How many entries of the chain come after e. */
    ghost var left: nat

    /** e is an entry of the table and parent the one before it, or the end has been reached. */
    ghost predicate Valid()
      reads this, h, h.table, h.all
    {
      && h.Valid()
      && if e == null then index == |h.chains|
         else
           index < |h.chains| && left < |h.chains[index]| && h.chains[index][left] == e
           && parent == At(h.chains[index], left + 1)
    }

    /** The keys still to be visited, that of e included. */
    ghost function Todo(): set<Key>
      reads this, h
    {
      if e == null || |h.chains| == 0 then {} else Ahead(h.chains, h.ent, h.hash, index, left + 1)
    }

    /** From e, which may have just been taken out, the chain goes on with `left` entries. */
    ghost predicate Past()
      reads this, h, h.table, h.all, e
    {
      h.Valid() && e != null && index < |h.chains| && left <= |h.chains[index]|
        && e.next == At(h.chains[index], left - 1)
    }

    constructor (h: Table)
      ensures this.h == h && e == null && parent == null && index == h.table.Length
    {
      this.h, e, parent, index := h, null, null, h.table.Length;
    }

    /** The search for the first bucket from j on that holds anything. */
    method FirstFrom(j: nat)
      requires h.Valid() && j <= h.table.Length
      modifies this
      ensures Valid() && (e != null ==> index >= j && left == |h.chains[index]| - 1) && parent == null
      ensures |h.chains| > 0
        && Todo() == if j < |h.chains| then Ahead(h.chains, h.ent, h.hash, j, |h.chains[j]|) else {}
    {
      hide Buckets, IndexFor, Linked, Ahead, IsPrimeAt;
      HeadAt(h.table[..], Nexts(h.all), h.chains, h.ent, h.all, h.hash, 0);
      parent := null;
      for i := j to h.table.Length
        invariant parent == null && |h.chains| == h.table.Length > 0
        invariant (if j < |h.chains| then Ahead(h.chains, h.ent, h.hash, j, |h.chains[j]|) else {})
               == (if i < |h.chains| then Ahead(h.chains, h.ent, h.hash, i, |h.chains[i]|) else {})
      {
        HeadAt(h.table[..], Nexts(h.all), h.chains, h.ent, h.all, h.hash, i);
        if h.table[i] != null {
          e, index, left := h.table[i], i, |h.chains[i]| - 1;
          return;
        }
        AheadNext(h.chains, h.ent, h.all, h.hash, i);
      }
      e, index := null, h.table.Length;
    }

    /** `arg_hashtable_itr_advance`, but for its check for the end. */
    method AdvancePast() returns (more: bool)
      requires Past()
      modifies this
      ensures more <==> e != null
      ensures |h.chains| > 0 && Todo() == Ahead(h.chains, h.ent, h.hash, old(index), old(left))
      ensures if old(e.next) != null
        then e == old(e.next) && parent == old(e) && index == old(index) && left == old(left) - 1
        else Valid() && parent == null
    {
      hide Buckets, IndexFor, Linked, Ahead, IsPrimeAt;
      HeadAt(h.table[..], Nexts(h.all), h.chains, h.ent, h.all, h.hash, 0);
      var next := e.next;
      if next != null {
        parent, e, left := e, next, left - 1;
        return true;
      }
      AheadNext(h.chains, h.ent, h.all, h.hash, index);
      FirstFrom(index + 1);
      more := e != null;
    }

    /** `arg_hashtable_itr_advance`. */
    method Advance() returns (more: bool)
      requires Valid()
      modifies this
      ensures Valid() && (more <==> Todo() != {})
      ensures old(e) == null ==> !more
      ensures old(e) != null ==> old(e.key) in old(Todo()) && Todo() == old(Todo()) - {old(e.key)}
    {
      hide Buckets, IndexFor, Linked, Ahead, IsPrimeAt;
      if e == null { return false; }
      EntryAt(h.table[..], h.chains, h.ent, h.all, h.hash, index, left);
      AheadStep(h.chains, h.ent, h.all, h.hash, index, left);
      more := AdvancePast();
      TodoHead();
    }

    /** The current entry is still to be visited. */
    lemma TodoHead()
      requires Valid()
      ensures e != null ==> e.key in Todo() && e.key in h.ent && h.ent[e.key] == e
    {
      hide Buckets, IndexFor, Linked, Ahead, IsPrimeAt;
      if e != null {
        AheadStep(h.chains, h.ent, h.all, h.hash, index, left);
        InAll(h.chains, h.ent, h.all, h.hash, index, left);
      }
    }

    /** What is left of `arg_hashtable_itr_remove` once e is out of its chain: on to the next entry, with
        the parent put right. */
    method LeaveRemoved() returns (more: bool)
      requires Past() && parent == At(h.chains[index], left)
      modifies this
      ensures Valid() && (more <==> Todo() != {})
      ensures |h.chains| > 0 && Todo() == Ahead(h.chains, h.ent, h.hash, old(index), old(left))
    {
      hide Buckets, IndexFor, Linked, Ahead, IsPrimeAt;
      var rememberE, rememberParent := e, parent;
      more := AdvancePast();
      if parent == rememberE { parent := rememberParent; }
      TodoHead();
    }

    /** `arg_hashtable_itr_remove`. */
    method Remove() returns (more: bool)
      requires Valid() && e != null
      modifies this, h, h.table, h.all
      ensures Valid() && (more <==> Todo() != {}) && h.table == old(h.table) && h.all <= old(h.all)
      ensures old(e.key) in old(Todo()) && Todo() == old(Todo()) - {old(e.key)}
      ensures h.ent == old(h.ent) - {old(e.key)} && h.Contents() == old(h.Contents()) - {old(e.key)}
        && h.entryCount == old(h.entryCount) - 1
    {
      hide Buckets, IndexFor, Linked, Ahead, Drop, Vals;
      AheadStep(h.chains, h.ent, h.all, h.hash, index, left);
      AheadDrop(h.chains, h.ent, h.all, h.hash, index, left);
      DropAgain(h.chains, index, left);
      h.Unlink(index, e, parent, left);
      more := LeaveRemoved();
    }
  }

  /** `arg_hashtable_itr_create`. */
  method CreateIterator(h: Table) returns (itr: Iterator)
    requires h.Valid()
    ensures fresh(itr) && itr.h == h && itr.Valid() && itr.Todo() == h.ent.Keys
  {
    hide Buckets, IndexFor, Linked, Ahead, Nexts;
    itr := new Iterator(h);
    HeadAt(h.table[..], Nexts(h.all), h.chains, h.ent, h.all, h.hash, 0);
    if h.entryCount == 0 {
      NoKeys(h.ent);
    } else {
      AheadOfAll(h.chains, h.ent, h.all, h.hash);
      itr.FirstFrom(0);
    }
  }

  /** One or the other. */
  method Turn(itr: Iterator, take: bool)
    requires itr.Valid() && itr.e != null
    modifies itr, itr.h, itr.h.table, itr.h.all
    ensures itr.Valid() && itr.h.table == old(itr.h.table) && itr.h.all <= old(itr.h.all)
    ensures var k := old(itr.e.key);
      && k in old(itr.Todo()) && itr.Todo() == old(itr.Todo()) - {k}
      && itr.h.ent == (if take then old(itr.h.ent) - {k} else old(itr.h.ent))
      && itr.h.Contents() == (if take then old(itr.h.Contents()) - {k} else old(itr.h.Contents()))
  {
    hide Buckets, Linked, IndexFor, Ahead, Vals;
    var more;
    if take {
      more := itr.Remove();
    } else {
      more := itr.Advance();
    }
  }

  lemma NoKeys(ent: map<Key, Entry>)
    requires |ent| == 0
    ensures ent.Keys == {}
  {
  }

  lemma DropAgain(chains: seq<seq<Entry>>, i: nat, j: nat)
    requires i < |chains| && j < |chains[i]|
    ensures var d := Drop(chains, i, j);
      && |d| == |chains| && j <= |d[i]| && At(d[i], j - 1) == At(chains[i], j - 1)
      && At(d[i], j) == At(chains[i], j + 1)
  {
  }

  lemma MinusMore<T>(m: map<Key, T>, ks: set<Key>, k: Key)
    ensures m - ks - {k} == m - (ks + {k})
  {
  }

  ghost predicate AllDifferent(s: seq<Key>) { forall i, j :: 0 <= i < j < |s| ==> s[i] != s[j] }

  /** How far a drive has come: what it visited was there, is not ahead any more, and was taken out
      exactly as chosen. */
  ghost predicate Driven(keys: set<Key>, todo: set<Key>, visited: seq<Key>, removed: set<Key>,
      choose: (nat, Key) -> bool)
  {
    && AllDifferent(visited)
    && (forall k :: k in keys <==> k in visited || k in todo) && (forall k :: k in visited ==> k !in todo)
    && (forall i :: 0 <= i < |visited| ==> (visited[i] in removed <==> choose(i, visited[i])))
    && forall k :: k in removed ==> k in visited
  }

  lemma DrivenStep(keys: set<Key>, todo: set<Key>, visited: seq<Key>, removed: set<Key>, choose: (nat, Key) -> bool,
      k: Key)
    requires Driven(keys, todo, visited, removed, choose) && k in todo
    ensures Driven(keys, todo - {k}, visited + [k], if choose(|visited|, k) then removed + {k} else removed, choose)
  {
  }

  /** An iterator driven to its end, removing or passing each entry as `choose` says: it visits every key
      exactly once, and leaves exactly those that were not removed. */
  method Drive(h: Table, choose: (nat, Key) -> bool) returns (visited: seq<Key>, removed: set<Key>)
    requires h.Valid()
    modifies h, h.table, h.all
    ensures h.Valid() && AllDifferent(visited) && forall k :: k in visited <==> k in old(h.ent)
    ensures forall i :: 0 <= i < |visited| ==> (visited[i] in removed <==> choose(i, visited[i]))
    ensures h.ent == old(h.ent) - removed && h.Contents() == old(h.Contents()) - removed
  {
    hide Buckets, Linked, IndexFor, Ahead, Driven, AllDifferent, Vals;
    var itr := CreateIterator(h);
    visited, removed := [], {};
    StartDriving(h.ent.Keys, choose);
    assert h.ent - {} == h.ent && h.Contents() - {} == h.Contents();
    while itr.e != null
      invariant itr.h == h && fresh(itr) && itr.Valid() && h.table == old(h.table) && h.all <= old(h.all)
      invariant Driven(old(h.ent.Keys), itr.Todo(), visited, removed, choose)
      invariant h.ent == old(h.ent) - removed && h.Contents() == old(h.Contents()) - removed
      decreases itr.Todo()
    {
      itr.TodoHead();
      var k := itr.e.key;
      DrivenStep(old(h.ent.Keys), itr.Todo(), visited, removed, choose, k);
      MinusMore(old(h.ent), removed, k);
      MinusMore(old(h.Contents()), removed, k);
      var take := choose(|visited|, k);
      Turn(itr, take);
      if take { removed := removed + {k}; }
      visited := visited + [k];
    }
    DoneDriving(old(h.ent.Keys), visited, removed, choose);
  }

  lemma StartDriving(keys: set<Key>, choose: (nat, Key) -> bool)
    ensures Driven(keys, keys, [], {}, choose)
  {
  }

  lemma DoneDriving(keys: set<Key>, visited: seq<Key>, removed: set<Key>, choose: (nat, Key) -> bool)
    requires Driven(keys, {}, visited, removed, choose)
    ensures AllDifferent(visited) && (forall k :: k in visited <==> k in keys)
    ensures forall i :: 0 <= i < |visited| ==> (visited[i] in removed <==> choose(i, visited[i]))
  {
  }
}
