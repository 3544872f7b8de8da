/** The two caches of leetcode/146.lru-缓存.cpp and leetcode/146.lru-缓存机制.cpp, against a list
    of entries with the most recently used one in front. */
module Lru {
  datatype Entry = Entry(key: int, value: int)

  // ---- the recency list ----------------------------------------------------------------------

  /** Where the key is in the list, or its length. */
  function Find(s: seq<Entry>, key: int): (i: nat)
    ensures i <= |s| && (i < |s| ==> s[i].key == key) && forall j :: 0 <= j < i ==> s[j].key != key
  {
    if s == [] || s[0].key == key then 0 else 1 + Find(s[1..], key)
  }

  predicate Has(s: seq<Entry>, key: int) { Find(s, key) < |s| }

  function Answer(s: seq<Entry>, key: int): int { if Has(s, key) then s[Find(s, key)].value else -1 }

  function Drop<T>(s: seq<T>, i: nat): seq<T>
    requires i < |s|
  {
    s[..i] + s[i + 1..]
  }

  /** A use of the key makes its entry the first one. */
  function Touched(s: seq<Entry>, key: int): seq<Entry> {
    var i := Find(s, key);
    if i < |s| then [s[i]] + Drop(s, i) else s
  }

  /** The first `cap` entries. */
  function Trimmed(cap: nat, s: seq<Entry>): seq<Entry> { if |s| > cap then s[..cap] else s }

  /** Storing makes the entry the first one; what was used least recently may have to go. */
  function Stored(cap: nat, s: seq<Entry>, key: int, value: int): seq<Entry> {
    var i := Find(s, key);
    if i < |s| then [Entry(key, value)] + Drop(s, i) else Trimmed(cap, [Entry(key, value)] + s)
  }

  ghost predicate Ok(cap: nat, s: seq<Entry>) { |s| <= cap && forall i, j :: 0 <= i < j < |s| ==> s[i].key != s[j].key }

  lemma FindIs(cap: nat, s: seq<Entry>, i: nat)
    requires Ok(cap, s) && i < |s|
    ensures Find(s, s[i].key) == i
  {}

  /** A stored entry is the first one. */
  lemma StoredFirst(cap: nat, s: seq<Entry>, key: int, value: int)
    requires Ok(cap, s) && cap > 0
    ensures var s' := Stored(cap, s, key, value); |s'| > 0 && s'[0] == Entry(key, value) && Ok(cap, s')
  {
    var i, e := Find(s, key), Entry(key, value);
    if i < |s| {
      ShiftAt(s, e, i);
      ShiftOk(cap, s, e, i);
    } else {
      var s' := Trimmed(cap, [e] + s);
      assert forall j :: 0 <= j < |s'| ==> s'[j] == if j == 0 then e else s[j - 1];
    }
  }

  // ---- what a cache remembers -----------------------------------------------------------------

  datatype Op = Get(key: int) | Put(key: int, value: int)

  function Step(cap: nat, s: seq<Entry>, op: Op): seq<Entry> {
    match op
    case Get(key) => Touched(s, key)
    case Put(key, value) => Stored(cap, s, key, value)
  }

  function Run(cap: nat, s: seq<Entry>, ops: seq<Op>): seq<Entry>
    decreases |ops|
  {
    if ops == [] then s else Run(cap, Step(cap, s, ops[0]), ops[1..])
  }

  /** The keys of the first `n` entries. */
  function KeySet(s: seq<Entry>, n: nat): set<int>
    requires n <= |s|
  {
    set j | 0 <= j < n :: s[j].key
  }

  lemma {:induction false} KeySetSize(cap: nat, s: seq<Entry>, n: nat)
    requires Ok(cap, s) && n <= |s|
    ensures |KeySet(s, n)| == n
    decreases n
  {
    if n > 0 {
      KeySetSize(cap, s, n - 1);
      assert s[n - 1].key !in KeySet(s, n - 1);
      hide Ok;
      assert KeySet(s, n) == KeySet(s, n - 1) + {s[n - 1].key};
    } else {
      assert KeySet(s, n) == {};
    }
  }

  /** The keys used after `key`. */
  function InFront(s: seq<Entry>, key: int): set<int> { KeySet(s, Find(s, key)) }

  /** The keys an operation moves to the front. */
  function Moved(s: seq<Entry>, op: Op): set<int> { if op.Put? || Has(s, op.key) then {op.key} else {} }

  /** Where what is behind the first one was, when entry `i` is taken to the front. */
  function From(i: nat, j: nat): nat
    requires j > 0
  {
    if j <= i then j - 1 else j
  }

  /** An entry taken to the front, entry by entry. */
  lemma ShiftAt<T>(s: seq<T>, e: T, i: nat)
    requires i < |s|
    ensures var s' := [e] + Drop(s, i);
      |s'| == |s| && s'[0] == e && forall j :: 0 < j < |s| ==> s'[j] == s[From(i, j)]
  {}

  lemma ShiftOk(cap: nat, s: seq<Entry>, e: Entry, i: nat)
    requires Ok(cap, s) && i < |s| && s[i].key == e.key
    ensures Ok(cap, [e] + Drop(s, i))
  {
    ShiftAt(s, e, i);
    hide Drop;
    var s' := [e] + Drop(s, i);
    forall a, b | 0 <= a < b < |s'| ensures s'[a].key != s'[b].key {
      if a > 0 { assert s[From(i, a)].key != s[From(i, b)].key; } else { assert s[From(i, b)].key != s[i].key; }
    }
  }

  /** The other keys then: the one that was moved is in front of them. */
  lemma Shift(cap: nat, s: seq<Entry>, e: Entry, i: nat, k: int)
    requires Ok(cap, s) && i < |s| && s[i].key == e.key != k
    ensures var s' := [e] + Drop(s, i);
      Ok(cap, s') && (Has(s', k) <==> Has(s, k)) && Answer(s', k) == Answer(s, k)
      && (Has(s, k) ==> InFront(s', k) == InFront(s, k) + {e.key})
  {
    hide Drop;
    var s', p := [e] + Drop(s, i), Find(s, k);
    ShiftAt(s, e, i);
    ShiftOk(cap, s, e, i);
    if p < |s| {
      var p' := if p < i then p + 1 else p;
      assert s'[p'] == s[p];
      FindIs(cap, s', p');
      ShiftFront(s, s', e, i, p);
    } else {
      forall j | 0 <= j < |s'| ensures s'[j].key != k { if j > 0 { assert s[From(i, j)].key != k; } }
    }
  }

  lemma ShiftFront(s: seq<Entry>, s': seq<Entry>, e: Entry, i: nat, p: nat)
    requires i < |s| == |s'| && s[i].key == e.key && s'[0] == e && p < |s| && p != i
    requires forall j :: 0 < j < |s| ==> s'[j] == s[From(i, j)]
    ensures KeySet(s', if p < i then p + 1 else p) == KeySet(s, p) + {e.key}
  {
    var p' := if p < i then p + 1 else p;
    forall x | x in KeySet(s, p) + {e.key} ensures x in KeySet(s', p') {
      if x != e.key {
        var j :| 0 <= j < p && s[j].key == x;
        assert s'[if j < i then j + 1 else j].key == x;
      } else {
        assert s'[0].key == x;
      }
    }
    forall x | x in KeySet(s', p') ensures x in KeySet(s, p) + {e.key} {
      var j :| 0 <= j < p' && s'[j].key == x;
      if j > 0 { assert s[From(i, j)].key == x; }
    }
  }

  lemma PushSet(s: seq<Entry>, s': seq<Entry>, e: Entry, p: nat)
    requires p <= |s| && p + 1 <= |s'| <= |s| + 1
    requires forall j :: 0 <= j < |s'| ==> s'[j] == if j == 0 then e else s[j - 1]
    ensures KeySet(s', p + 1) == KeySet(s, p) + {e.key}
  {
    forall x | x in KeySet(s, p) + {e.key} ensures x in KeySet(s', p + 1) {
      if x != e.key {
        var j :| 0 <= j < p && s[j].key == x;
        assert s'[j + 1].key == x;
      } else {
        assert s'[0].key == x;
      }
    }
    forall x | x in KeySet(s', p + 1) ensures x in KeySet(s, p) + {e.key} {
      var j :| 0 <= j < p + 1 && s'[j].key == x;
      if j > 0 { assert s[j - 1].key == x; }
    }
  }

  lemma PushOk(cap: nat, s: seq<Entry>, e: Entry)
    requires Ok(cap, s) && !Has(s, e.key) && cap > 0
    ensures var s' := Trimmed(cap, [e] + s);
      Ok(cap, s') && |s'| == (if |s| < cap then |s| + 1 else cap) && forall j :: 0 <= j < |s'| ==> s'[j] == if j == 0 then e else s[j - 1]
  {
    var s' := Trimmed(cap, [e] + s);
    assert forall j :: 0 <= j < |s'| ==> s'[j] == if j == 0 then e else s[j - 1];
    hide Trimmed;
    forall a, b | 0 <= a < b < |s'| ensures s'[a].key != s'[b].key {
      if a > 0 { assert s[a - 1].key != s[b - 1].key; } else { assert s[b - 1].key != e.key; }
    }
  }

  /** A new entry in front, for the other keys. */
  lemma Push(cap: nat, s: seq<Entry>, e: Entry, k: int)
    requires Ok(cap, s) && !Has(s, e.key) && e.key != k && cap > 0
    ensures var s' := Trimmed(cap, [e] + s);
      Ok(cap, s') && (Has(s', k) ==> Has(s, k) && Answer(s', k) == Answer(s, k) && InFront(s', k) == InFront(s, k) + {e.key})
      && (Has(s, k) ==> (Has(s', k) <==> Find(s, k) + 1 < cap))
  {
    var s', p := Trimmed(cap, [e] + s), Find(s, k);
    PushOk(cap, s, e);
    hide Trimmed;
    if p + 1 < |s'| {
      assert s'[p + 1] == s[p];
      FindIs(cap, s', p + 1);
      PushSet(s, s', e, p);
    } else {
      forall j | 0 <= j < |s'| ensures s'[j].key != k { if j > 0 { assert s[j - 1].key != k; } }
    }
  }

  /** What an operation on another key does to a key. */
  lemma OtherKey(cap: nat, s: seq<Entry>, op: Op, k: int)
    requires Ok(cap, s) && cap > 0 && op.key != k
    ensures var s' := Step(cap, s, op);
      Ok(cap, s') && (Has(s', k) ==> Has(s, k) && Answer(s', k) == Answer(s, k) && InFront(s', k) == InFront(s, k) + Moved(s, op))
      && (Has(s, k) ==> (Has(s', k) <==> |InFront(s, k) + Moved(s, op)| < cap))
  {
    hide Answer, InFront, Drop, Ok, Trimmed;
    var i := Find(s, op.key);
    if i < |s| {
      var e := if op.Get? then s[i] else Entry(op.key, op.value);
      Shift(cap, s, e, i, k);
      InFrontSize(cap, [e] + Drop(s, i), k);
    } else if op.Put? {
      Push(cap, s, Entry(op.key, op.value), k);
      if Has(s, k) { NotThere(cap, s, op.key, k); }
    } else if Has(s, k) {
      NoneMoved(s, k);
      InFrontSize(cap, s, k);
    }
  }

  lemma NoneMoved(s: seq<Entry>, k: int)
    ensures InFront(s, k) == InFront(s, k) + {}
  {}

  lemma InFrontSize(cap: nat, s: seq<Entry>, k: int)
    requires Ok(cap, s)
    ensures |InFront(s, k)| == Find(s, k) && (Has(s, k) ==> |InFront(s, k)| < cap)
  {
    KeySetSize(cap, s, Find(s, k));
  }

  lemma NotThere(cap: nat, s: seq<Entry>, x: int, k: int)
    requires Ok(cap, s) && !Has(s, x) && Has(s, k)
    ensures |InFront(s, k) + {x}| == Find(s, k) + 1
  {
    KeySetSize(cap, s, Find(s, k));
    assert x !in InFront(s, k);
  }

  /** The keys that a run moves to the front: those stored, and those got while they were there. */
  function MovedKeys(cap: nat, s: seq<Entry>, ops: seq<Op>): set<int>
    decreases |ops|
  {
    if ops == [] then {} else Moved(s, ops[0]) + MovedKeys(cap, Step(cap, s, ops[0]), ops[1..])
  }

  function Used(ops: seq<Op>): set<int> { set i | 0 <= i < |ops| :: ops[i].key }

  function PutKeys(ops: seq<Op>): set<int> { set i | 0 <= i < |ops| && ops[i].Put? :: ops[i].key }

  lemma UsedUnfold(ops: seq<Op>)
    requires ops != []
    ensures Used(ops) == {ops[0].key} + Used(ops[1..])
    ensures PutKeys(ops) == (if ops[0].Put? then {ops[0].key} else {}) + PutKeys(ops[1..])
  {
    forall x | x in Used(ops) ensures x in {ops[0].key} + Used(ops[1..]) {
      var i :| 0 <= i < |ops| && ops[i].key == x;
      if i > 0 { assert ops[1..][i - 1].key == x; }
    }
    forall x | x in PutKeys(ops) ensures x in (if ops[0].Put? then {ops[0].key} else {}) + PutKeys(ops[1..]) {
      var i :| 0 <= i < |ops| && ops[i].Put? && ops[i].key == x;
      if i > 0 { assert ops[1..][i - 1] == ops[i]; }
    }
    forall x | x in Used(ops[1..]) ensures x in Used(ops) {
      var i :| 0 <= i < |ops| - 1 && ops[1..][i].key == x;
      assert ops[i + 1].key == x;
    }
    forall x | x in PutKeys(ops[1..]) ensures x in PutKeys(ops) {
      var i :| 0 <= i < |ops| - 1 && ops[1..][i].Put? && ops[1..][i].key == x;
      assert ops[i + 1] == ops[1..][i];
    }
    assert ops[0].key in Used(ops) && (ops[0].Put? ==> ops[0].key in PutKeys(ops));
  }

  /** Every key stored is moved, and every key moved is used. */
  lemma {:induction false} MovedBetween(cap: nat, s: seq<Entry>, ops: seq<Op>)
    ensures PutKeys(ops) <= MovedKeys(cap, s, ops) <= Used(ops)
    decreases |ops|
  {
    hide Step, Used, PutKeys, Moved;
    if ops != [] {
      UsedUnfold(ops);
      MovedKey(s, ops[0]);
      MovedBetween(cap, Step(cap, s, ops[0]), ops[1..]);
    } else {
      NoPuts();
    }
  }

  lemma MovedKey(s: seq<Entry>, op: Op)
    ensures Moved(s, op) <= {op.key} && (op.Put? ==> Moved(s, op) == {op.key})
  {}

  lemma NoPuts()
    ensures PutKeys([]) == {}
  {}

  lemma Smaller(a: set<int>, b: set<int>)
    requires a <= b
    ensures |a| <= |b|
  {
    assert b == a + (b - a);
  }

  /** A key that is not used does not come back. */
  lemma {:induction false} NotBack(cap: nat, s: seq<Entry>, ops: seq<Op>, k: int)
    requires Ok(cap, s) && cap > 0 && !Has(s, k) && k !in Used(ops)
    ensures !Has(Run(cap, s, ops), k)
    decreases |ops|
  {
    hide Step, InFront, Ok, Has, Answer, Used, Moved;
    if ops != [] {
      UsedUnfold(ops);
      OtherKey(cap, s, ops[0], k);
      NotBack(cap, Step(cap, s, ops[0]), ops[1..], k);
    }
  }

  /** A key that is not used stays if and only if fewer than `cap` keys get in front of it. */
  lemma {:induction false} Stays(cap: nat, s: seq<Entry>, ops: seq<Op>, k: int)
    requires Ok(cap, s) && cap > 0 && Has(s, k) && k !in Used(ops)
    ensures Has(Run(cap, s, ops), k) <==> |InFront(s, k) + MovedKeys(cap, s, ops)| < cap
    ensures Has(Run(cap, s, ops), k) ==> Answer(Run(cap, s, ops), k) == Answer(s, k)
    decreases |ops|
  {
    hide Step, InFront, Ok, Has, Answer, Used, Moved;
    if ops != [] {
      UsedUnfold(ops);
      OtherKey(cap, s, ops[0], k);
      var s', rest := Step(cap, s, ops[0]), MovedKeys(cap, Step(cap, s, ops[0]), ops[1..]);
      assert InFront(s, k) + MovedKeys(cap, s, ops) == InFront(s, k) + Moved(s, ops[0]) + rest;
      if Has(s', k) {
        Stays(cap, s', ops[1..], k);
      } else {
        NotBack(cap, s', ops[1..], k);
        Smaller(InFront(s, k) + Moved(s, ops[0]), InFront(s, k) + MovedKeys(cap, s, ops));
      }
    } else {
      assert InFront(s, k) + {} == InFront(s, k);
      InFrontSize(cap, s, k);
    }
  }

  /** After storing a value, a later get of the key answers it if and only if fewer than `cap`
      other keys were moved to the front in between; otherwise it answers -1. */
  lemma RemembersExactly(cap: nat, s: seq<Entry>, k: int, v: int, ops: seq<Op>)
    requires Ok(cap, s) && cap > 0 && k !in Used(ops)
    ensures var s0 := Stored(cap, s, k, v);
      (Has(Run(cap, s0, ops), k) <==> |MovedKeys(cap, s0, ops)| < cap)
      && Answer(Run(cap, s0, ops), k) == if |MovedKeys(cap, s0, ops)| < cap then v else -1
  {
    var s0 := Stored(cap, s, k, v);
    StoredFirst(cap, s, k, v);
    FirstIn(s0, k, v);
    hide Run, Stored, Ok, Used, MovedKeys;
    assert {} + MovedKeys(cap, s0, ops) == MovedKeys(cap, s0, ops);
    Stays(cap, s0, ops, k);
  }

  lemma FirstIn(s: seq<Entry>, k: int, v: int)
    ensures s != [] && s[0] == Entry(k, v) ==> InFront(s, k) == {} && Has(s, k) && Answer(s, k) == v
  {}

  /** So the value is answered if fewer than `cap` other keys were used in between, and forgotten
      if at least `cap` others were stored. */
  lemma RemembersRecent(cap: nat, s: seq<Entry>, k: int, v: int, ops: seq<Op>)
    requires Ok(cap, s) && cap > 0 && k !in Used(ops)
    ensures var s' := Run(cap, Stored(cap, s, k, v), ops);
      (|Used(ops)| < cap ==> Answer(s', k) == v && Has(s', k)) && (|PutKeys(ops)| >= cap ==> Answer(s', k) == -1 && !Has(s', k))
  {
    hide Run, Stored, Ok, Used, PutKeys, MovedKeys, Has, Answer;
    var s0 := Stored(cap, s, k, v);
    RemembersExactly(cap, s, k, v, ops);
    MovedBetween(cap, s0, ops);
    Smaller(PutKeys(ops), MovedKeys(cap, s0, ops));
    Smaller(MovedKeys(cap, s0, ops), Used(ops));
  }

  // ---- the ring of nodes -----------------------------------------------------------------------

  class Node {
    var key: int
    var value: int
    var prev: Node?
    var next: Node?

    constructor (k: int, v: int)
      ensures key == k && value == v
    {
      key, value, prev, next := k, v, null, null;
    }
  }

  function Succ(i: nat, n: nat): nat { if i + 1 < n then i + 1 else 0 }

  /** The node at `i` and the next one point at each other; the last one is followed by the first. */
  ghost predicate LinkOk(r: seq<Node>, i: nat)
    requires i < |r|
    reads r`next, r`prev
  {
    r[i].next == r[Succ(i, |r|)] && r[Succ(i, |r|)].prev == r[i]
  }

  ghost predicate Distinct<T>(r: seq<T>) { forall i, j :: 0 <= i < j < |r| ==> r[i] != r[j] }

  ghost predicate Ring(r: seq<Node>)
    reads r`next, r`prev
  {
    r != [] && Distinct(r) && forall i :: 0 <= i < |r| ==> LinkOk(r, i)
  }

  /** A node behind the first one was unlinked. */
  twostate lemma Unlinked(new r: seq<Node>, new i: nat)
    requires old(allocated(r)) && 0 < i < |r| && old(Ring(r))
    requires r[i - 1].next == r[Succ(i, |r|)] && r[Succ(i, |r|)].prev == r[i - 1]
    requires forall j :: 0 <= j < |r| && j != i - 1 ==> r[j].next == old(r[j].next)
    requires forall j :: 0 <= j < |r| && j != Succ(i, |r|) ==> r[j].prev == old(r[j].prev)
    ensures Ring(Drop(r, i))
  {
    var t := Drop(r, i);
    forall j | 0 <= j < |t| ensures LinkOk(t, j) {
      var j0 := if j < i then j else j + 1;
      assert old(LinkOk(r, j0));
    }
  }

  /** A node was linked in behind the first one. */
  twostate lemma LinkedFirst(new r: seq<Node>, new n: Node)
    requires old(allocated(r)) && old(allocated(n)) && old(Ring(r)) && n !in r
    requires n.prev == r[0] && n.next == r[Succ(0, |r|)] && r[0].next == n && r[Succ(0, |r|)].prev == n
    requires forall j :: 0 < j < |r| ==> r[j].next == old(r[j].next)
    requires forall j :: 0 <= j < |r| && j != Succ(0, |r|) ==> r[j].prev == old(r[j].prev)
    ensures Ring([r[0], n] + r[1..])
  {
    var t := [r[0], n] + r[1..];
    forall j | 0 <= j < |t| ensures LinkOk(t, j) {
      if j > 1 { assert old(LinkOk(r, j - 1)); }
    }
  }

  // ---- nodes and map -----------------------------------------------------------------------------

  /** The entries the nodes hold. */
  ghost function Entries(ns: seq<Node>): (es: seq<Entry>)
    reads ns`key, ns`value
    ensures |es| == |ns| && forall i :: 0 <= i < |ns| ==> es[i] == Entry(ns[i].key, ns[i].value)
  {
    if ns == [] then [] else [Entry(ns[0].key, ns[0].value)] + Entries(ns[1..])
  }

  /** The map has exactly the nodes of the list, by their keys. */
  ghost predicate Mapped(m: map<int, Node>, ns: seq<Node>)
    reads ns`key
  {
    && (forall i :: 0 <= i < |ns| ==> ns[i].key in m && m[ns[i].key] == ns[i])
    && forall k :: k in m ==> exists i :: 0 <= i < |ns| && ns[i] == m[k] && ns[i].key == k
  }

  lemma EntriesOk(m: map<int, Node>, ns: seq<Node>, cap: nat)
    requires Mapped(m, ns) && Distinct(ns) && |ns| <= cap
    ensures Ok(cap, Entries(ns))
  {
    var es := Entries(ns);
    forall i, j | 0 <= i < j < |es| ensures es[i].key != es[j].key {
      assert m[ns[i].key] == ns[i] && m[ns[j].key] == ns[j];
    }
  }

  lemma NotMapped(m: map<int, Node>, ns: seq<Node>, key: int)
    requires Mapped(m, ns)
    ensures key in m <==> Has(Entries(ns), key)
  {
    var es := Entries(ns);
    if Find(es, key) < |es| {
      assert ns[Find(es, key)].key in m;
    }
    if key in m {
      var i := Position(m, ns, key);
      assert es[i].key == key;
    }
  }

  lemma Position(m: map<int, Node>, ns: seq<Node>, key: int) returns (i: nat)
    requires Mapped(m, ns) && key in m
    ensures i < |ns| && ns[i] == m[key] && ns[i].key == key
  {
    i :| 0 <= i < |ns| && ns[i] == m[key] && ns[i].key == key;
  }

  lemma MapSize(m: map<int, Node>, ns: seq<Node>)
    requires Mapped(m, ns) && Distinct(ns)
    ensures |m| == |ns|
  {
    var es := Entries(ns);
    EntriesOk(m, ns, |ns|);
    KeySetSize(|ns|, es, |es|);
    forall k | k in m ensures k in KeySet(es, |es|) {
      var i := Position(m, ns, k);
      assert es[i].key == k;
    }
    assert m.Keys == KeySet(es, |es|);
  }

  /** A node goes. */
  lemma RemoveMapped(m: map<int, Node>, ns: seq<Node>, i: nat)
    requires Mapped(m, ns) && Distinct(ns) && i < |ns|
    ensures Mapped(m - {ns[i].key}, Drop(ns, i)) && |Drop(ns, i)| == |ns| - 1
  {
    hide Entries, Distinct;
    var t, m' := Drop(ns, i), m - {ns[i].key};
    forall k | k in m' ensures exists j :: 0 <= j < |t| && t[j] == m'[k] && t[j].key == k {
      var j := Position(m, ns, k);
      var j' := if j < i then j else j - 1;
      assert t[j'] == ns[j];
    }
    forall j' | 0 <= j' < |t| ensures t[j'].key in m' && m'[t[j'].key] == t[j'] {
      var j := if j' < i then j' else j' + 1;
      assert t[j'] == ns[j] && m[ns[j].key] == ns[j] && m[ns[i].key] == ns[i];
      Differ(ns, i, j);
    }
  }

  lemma Differ(ns: seq<Node>, i: nat, j: nat)
    requires Distinct(ns) && i < |ns| && j < |ns| && i != j
    ensures ns[i] != ns[j]
  {}

  lemma DropEntries(ns: seq<Node>, i: nat)
    requires i < |ns|
    ensures Entries(Drop(ns, i)) == Drop(Entries(ns), i)
  {
    var t, es := Drop(ns, i), Entries(ns);
    DropAt(ns, i);
    DropAt(es, i);
    hide Entries, Drop;
    forall j | 0 <= j < |t| ensures Entries(t)[j] == Drop(es, i)[j] {
      assert t[j] == ns[Skip(i, j)];
    }
  }

  function Skip(i: nat, j: nat): nat { if j < i then j else j + 1 }

  lemma DropAt<T>(s: seq<T>, i: nat)
    requires i < |s|
    ensures |Drop(s, i)| == |s| - 1 && forall j :: 0 <= j < |s| - 1 ==> Drop(s, i)[j] == s[Skip(i, j)]
  {}

  /** A new node in front. */
  lemma PushEntries(m: map<int, Node>, ns: seq<Node>, n: Node)
    requires Mapped(m, ns) && n.key !in m
    ensures Mapped(m[n.key := n], [n] + ns) && Entries([n] + ns) == [Entry(n.key, n.value)] + Entries(ns)
  {
    var t, m' := [n] + ns, m[n.key := n];
    forall k | k in m' ensures exists j :: 0 <= j < |t| && t[j] == m'[k] && t[j].key == k {
      if k == n.key {
        assert t[0] == n;
      } else {
        var j := Position(m, ns, k);
        assert t[j + 1] == ns[j];
      }
    }
  }

  /** Where the node of a key is, and that its entry is the one of the key. */
  lemma Located(m: map<int, Node>, ns: seq<Node>, key: int, cap: nat) returns (i: nat)
    requires Mapped(m, ns) && Distinct(ns) && |ns| <= cap && key in m
    ensures i < |ns| && ns[i] == m[key] && ns[i].key == key && Find(Entries(ns), key) == i
  {
    i := Position(m, ns, key);
    EntriesOk(m, ns, cap);
    FindIs(cap, Entries(ns), i);
  }

  // ---- leetcode/146.lru-缓存.cpp -------------------------------------------------------------------

  class RingCache {
    const cap: nat
    const dummy: Node
    var nodes: map<int, Node>

    ghost var list: seq<Node>

    /** The ring through the dummy holds the nodes of the map. */
    ghost predicate Held()
      reads this, dummy, list
    {
      dummy !in list && Ring([dummy] + list) && Distinct(list) && Mapped(nodes, list)
    }

    ghost predicate Valid()
      reads this, dummy, list
    {
      Held() && |list| <= cap
    }

    ghost function Contents(): seq<Entry>
      reads this, list
    {
      Entries(list)
    }

    ghost function Repr(): set<object>
      reads this
    {
      {this, dummy} + (set n: object | n in list)
    }

    /** Every node of the list was in it, or is new. */
    twostate predicate OldOrNew()
      reads this
    {
      forall i :: 0 <= i < |list| ==> list[i] in old(list) || fresh(list[i])
    }

    constructor (capacity: nat)
      ensures Valid() && Contents() == [] && cap == capacity && fresh(dummy) && list == []
    {
      var d := new Node(0, 0);
      cap, dummy, nodes, list := capacity, d, map[], [];
      new;
      dummy.prev := dummy;
      dummy.next := dummy;
      assert LinkOk([dummy], 0) && [dummy] + [] == [dummy];
    }

    /** remove. */
    method Remove(node: Node, ghost ns: seq<Node>, ghost i: nat)
      requires Ring([dummy] + ns) && i < |ns| && ns[i] == node
      modifies dummy`next, dummy`prev, ns`next, ns`prev
      ensures Ring([dummy] + Drop(ns, i))
    {
      hide Ring;
      ghost var r := [dummy] + ns;
      LinkAt(r, i);
      LinkAt(r, i + 1);
      label before:
      node.prev.next := node.next;
      node.next.prev := node.prev;
      Unlinked@before(r, i + 1);
      assert Drop(r, i + 1) == [dummy] + Drop(ns, i);
    }

    /** push_front. */
    method PushFront(node: Node, ghost ns: seq<Node>)
      requires Ring([dummy] + ns) && node !in ns && node != dummy
      modifies dummy`next, dummy`prev, ns`next, ns`prev, node`next, node`prev
      ensures Ring([dummy] + ([node] + ns))
    {
      hide Ring;
      ghost var r := [dummy] + ns;
      LinkAt(r, 0);
      label before:
      node.prev := dummy;
      node.next := dummy.next;
      dummy.next.prev := node;
      dummy.next := node;
      LinkedFirst@before(r, node);
      assert [r[0], node] + r[1..] == [dummy] + ([node] + ns);
    }

    /** The two calls of get_node: the node becomes the first one of the ring. */
    method ToFront(node: Node, ghost ns: seq<Node>, ghost i: nat)
      requires Ring([dummy] + ns) && i < |ns| && ns[i] == node
      modifies dummy`next, dummy`prev, ns`next, ns`prev
      ensures Ring([dummy] + ([node] + Drop(ns, i)))
    {
      ghost var rest := Drop(ns, i);
      Others(dummy, ns, i);
      hide Ring, Drop;
      Remove(node, ns, i);
      PushFront(node, rest);
    }

    /** The same with the ghost list. */
    method Use(node: Node, ghost i: nat)
      requires Valid() && i < |list| && list[i] == node && Find(Contents(), node.key) == i
      modifies this`list, dummy`next, dummy`prev, list`next, list`prev
      ensures Valid() && Contents() == Touched(old(Contents()), node.key) && list == [node] + Drop(old(list), i)
    {
      ghost var ns, t := list, [node] + Drop(list, i);
      hide Ring, Mapped, Distinct, Drop, Entries, Touched, Find;
      Front(nodes, ns, i);
      NotDummy(ns, i, dummy);
      assert Mapped(nodes, t) && Distinct(t) && |t| == |ns| && Entries(t) == Touched(Entries(ns), node.key);
      ToFront(node, ns, i);
      list := t;
    }

    /** get_node: the node of the key becomes the first one. */
    method GetNode(key: int) returns (node: Node?)
      requires Valid()
      modifies this`list, dummy`next, dummy`prev, list`next, list`prev
      ensures Valid() && Contents() == Touched(old(Contents()), key)
      ensures if node == null then key !in nodes else key in nodes && list != [] && node == list[0] && node.key == key
      ensures key in nodes <==> Has(old(Contents()), key)
      ensures if node == null then list == old(list) else node in old(list)
      ensures forall i :: 0 <= i < |list| ==> list[i] in old(list)
    {
      hide Ring, Mapped, Distinct, Entries;
      NotMapped(nodes, list, key);
      if key !in nodes {
        return null;
      }
      var found := nodes[key];
      ghost var ns := list;
      ghost var i := Located(nodes, ns, key, cap);
      SameNodes(ns, i);
      hide Valid, Drop, Touched, Has, Find;
      Use(found, i);
      return found;
    }

    /** get. */
    method Get(key: int) returns (r: int)
      requires Valid()
      modifies this`list, dummy`next, dummy`prev, list`next, list`prev
      ensures Valid() && r == Answer(old(Contents()), key) && Contents() == Touched(old(Contents()), key)
      ensures OldOrNew() && Repr() <= old(Repr())
    {
      hide Ring, Mapped, Distinct;
      var node := GetNode(key);
      if node == null { return -1; }
      assert Contents()[0] == Entry(node.key, node.value);
      r := node.value;
    }

    /** The entry used least recently goes. */
    method Evict()
      requires Held() && |list| == cap + 1
      modifies this`list, this`nodes, dummy`next, dummy`prev, list`next, list`prev
      ensures Valid() && Contents() == old(Contents())[..cap] && list == old(list)[..cap]
    {
      hide Ring, Mapped, Distinct, Entries;
      ghost var ns, i := list, |list| - 1;
      LinkAt([dummy] + ns, i + 1);
      var node := dummy.prev;
      RemoveMapped(nodes, ns, i);
      DropEntries(ns, i);
      DropLast(ns);
      DropLast(Contents());
      nodes := nodes - {node.key};
      Remove(node, ns, i);
      list := ns[..i];
      PopDistinct(ns, i);
    }

    /** A new value for the first node. */
    method Update(node: Node, value: int)
      requires Valid() && list != [] && node == list[0]
      modifies node`value
      ensures Valid() && Contents() == [Entry(node.key, value)] + old(Contents())[1..]
    {
      hide Ring, Mapped, Distinct;
      ghost var ns := list;
      assert node !in ns[1..] by { HeadOnce(ns); }
      assert ns == [node] + ns[1..];
      node.value := value;
      assert Entries(ns) == [Entry(node.key, value)] + Entries(ns[1..]);
    }

    /** A new node, in the map and in front. */
    method Hang(key: int, value: int) returns (node: Node)
      requires Held() && key !in nodes
      modifies this`list, this`nodes, dummy`next, dummy`prev, list`next, list`prev
      ensures Held() && fresh(node) && list == [node] + old(list) && |nodes| == |list|
      ensures Contents() == [Entry(key, value)] + old(Contents())
    {
      hide Ring, Mapped, Distinct, Entries;
      node := new Node(key, value);
      ghost var ns, t := list, [node] + list;
      PushEntries(nodes, ns, node);
      PushDistinct(node, ns);
      assert dummy !in t;
      nodes := nodes[key := node];
      MapSize(nodes, t);
      PushFront(node, ns);
      list := t;
    }

    /** put without a node of the key. */
    method Insert(key: int, value: int)
      requires Valid() && key !in nodes
      modifies this`list, this`nodes, dummy`next, dummy`prev, list`next, list`prev
      ensures Valid() && Contents() == Trimmed(cap, [Entry(key, value)] + old(Contents())) && OldOrNew()
    {
      hide Held, Entries;
      var node := Hang(key, value);
      if |nodes| > cap {
        Evict();
      }
    }

    /** put. */
    method Put(key: int, value: int)
      requires Valid()
      modifies this`list, this`nodes, dummy`next, dummy`prev, list
      ensures Valid() && Contents() == Stored(cap, old(Contents()), key, value)
      ensures OldOrNew() && fresh(Repr() - old(Repr()))
    {
      hide Ring, Mapped, Distinct, Valid;
      ghost var es := Contents();
      var node := GetNode(key);
      if node != null {
        Update(node, value);
        TouchedRest(es, key);
      } else {
        assert Touched(es, key) == es;
        Insert(key, value);
      }
    }
  }

  lemma LinkAt(r: seq<Node>, i: nat)
    requires Ring(r) && i < |r|
    ensures LinkOk(r, i) && Distinct(r)
  {}

  /** What get_node's move does to nodes, map and entries. */
  lemma Front(m: map<int, Node>, ns: seq<Node>, i: nat)
    requires Mapped(m, ns) && Distinct(ns) && i < |ns| && Find(Entries(ns), ns[i].key) == i
    ensures var t := [ns[i]] + Drop(ns, i);
      Mapped(m, t) && Distinct(t) && |t| == |ns| && Entries(t) == Touched(Entries(ns), ns[i].key)
  {
    RemoveMapped(m, ns, i);
    DropEntries(ns, i);
    FrontDistinct(ns, i);
    assert m[ns[i].key] == ns[i] && Entry(ns[i].key, ns[i].value) == Entries(ns)[i];
    hide Mapped, Entries, Distinct, Find, Drop;
    PushEntries(m - {ns[i].key}, Drop(ns, i), ns[i]);
    assert (m - {ns[i].key})[ns[i].key := ns[i]] == m;
  }

  lemma NotDummy(ns: seq<Node>, i: nat, d: Node)
    requires i < |ns| && d !in ns
    ensures d !in [ns[i]] + Drop(ns, i)
  {}

  lemma SameNodes(ns: seq<Node>, i: nat)
    requires i < |ns|
    ensures var t := [ns[i]] + Drop(ns, i); forall j :: 0 <= j < |t| ==> t[j] in ns
  {}

  lemma DropLast<T>(s: seq<T>)
    requires s != []
    ensures Drop(s, |s| - 1) == s[..|s| - 1]
  {}

  lemma FrontDistinct(ns: seq<Node>, i: nat)
    requires Distinct(ns) && i < |ns|
    ensures Distinct([ns[i]] + Drop(ns, i))
  {}

  lemma Others(d: Node, ns: seq<Node>, i: nat)
    requires Ring([d] + ns) && i < |ns|
    ensures d != ns[i] && ns[i] !in Drop(ns, i)
    ensures forall n: object :: n in Drop(ns, i) ==> n in ns
  {
    var r := [d] + ns;
    assert r[0] != r[i + 1] && forall j :: 0 <= j < |ns| ==> r[j + 1] == ns[j];
  }

  lemma PushDistinct(n: Node, ns: seq<Node>)
    requires Distinct(ns) && n !in ns
    ensures Distinct([n] + ns)
  {}

  lemma PopDistinct(ns: seq<Node>, i: nat)
    requires Distinct(ns) && i < |ns|
    ensures Distinct(ns[..i])
  {}

  lemma HeadOnce(ns: seq<Node>)
    requires Distinct(ns) && ns != []
    ensures ns[0] !in ns[1..]
  {}

  lemma TouchedRest(s: seq<Entry>, key: int)
    requires Has(s, key)
    ensures Touched(s, key)[1..] == Drop(s, Find(s, key))
  {}

  // ---- leetcode/146.lru-缓存机制.cpp ---------------------------------------------------------------

  /** The library's list is the sequence of its nodes; an iterator is a node. */
  class ListCache {
    const cap: nat
    var nodeList: seq<Node>
    var nodeMap: map<int, Node>

    ghost predicate Valid()
      reads this, nodeList
    {
      Distinct(nodeList) && |nodeList| <= cap && Mapped(nodeMap, nodeList)
    }

    ghost function Contents(): seq<Entry>
      reads this, nodeList
    {
      Entries(nodeList)
    }

    /** Every node of the list was in it, or is new. */
    twostate predicate OldOrNew()
      reads this
    {
      forall i :: 0 <= i < |nodeList| ==> nodeList[i] in old(nodeList) || fresh(nodeList[i])
    }

    constructor (capacity: nat)
      ensures Valid() && Contents() == [] && cap == capacity && nodeList == []
    {
      cap, nodeList, nodeMap := capacity, [], map[];
    }

    /** erase: the list loses a node, which is still in the map. */
    method Erase(it: Node, ghost i: nat)
      requires Valid() && i < |nodeList| && nodeList[i] == it
      modifies this`nodeList
      ensures |nodeList| < cap && Mapped(nodeMap - {it.key}, nodeList) && Distinct(nodeList)
      ensures Contents() == Drop(old(Contents()), i) && forall i :: 0 <= i < |nodeList| ==> nodeList[i] in old(nodeList)
    {
      hide Mapped, Distinct, Entries, Drop, Without;
      RemoveMapped(nodeMap, nodeList, i);
      DropEntries(nodeList, i);
      WithoutIs(nodeList, i);
      DropDistinct(nodeList, i);
      DropNodes(nodeList, i);
      nodeList := Without(nodeList, it);
    }

    /** push_front, and the map is pointed at the new first node. */
    method PushFront(key: int, value: int)
      requires Distinct(nodeList) && |nodeList| < cap && Mapped(nodeMap - {key}, nodeList)
      modifies this`nodeList, this`nodeMap
      ensures Valid() && Contents() == [Entry(key, value)] + old(Contents()) && OldOrNew()
    {
      hide Mapped, Distinct, Entries;
      var begin := new Node(key, value);
      ghost var ns, m := nodeList, nodeMap - {key};
      PushEntries(m, ns, begin);
      PushDistinct(begin, ns);
      nodeList := [begin] + nodeList;
      nodeMap := nodeMap[key := begin];
      assert nodeMap == m[key := begin];
    }

    /** The last node goes from the map and from the list. */
    method PopBack()
      requires Valid() && nodeList != []
      modifies this`nodeList, this`nodeMap
      ensures Valid() && |nodeList| < cap && nodeMap.Keys <= old(nodeMap.Keys)
      ensures Contents() == old(Contents())[..|old(Contents())| - 1] && forall i :: 0 <= i < |nodeList| ==> nodeList[i] in old(nodeList)
    {
      hide Mapped, Distinct, Entries;
      ghost var ns, i := nodeList, |nodeList| - 1;
      var itt := nodeList[|nodeList| - 1];
      RemoveMapped(nodeMap, ns, i);
      DropEntries(ns, i);
      DropLast(ns);
      DropLast(Contents());
      PopDistinct(ns, i);
      nodeMap := nodeMap - {itt.key};
      nodeList := nodeList[..|nodeList| - 1];
    }

    /** get. */
    method Get(key: int) returns (r: int)
      requires Valid()
      modifies this`nodeList, this`nodeMap
      ensures Valid() && r == Answer(old(Contents()), key) && Contents() == Touched(old(Contents()), key) && OldOrNew()
    {
      hide Mapped, Distinct, Entries, Drop, Find;
      NotMapped(nodeMap, nodeList, key);
      if key !in nodeMap {
        return -1;
      }
      ghost var i := Located(nodeMap, nodeList, key, cap);
      var kv := nodeMap[key];
      assert Contents()[i] == Entry(key, kv.value);
      Erase(kv, i);
      PushFront(key, kv.value);
      return kv.value;
    }

    /** The first part of put: without the entry of the key, or else the last one if there is no
        room. */
    method MakeRoom(key: int)
      requires Valid() && cap > 0
      modifies this`nodeList, this`nodeMap
      ensures |nodeList| < cap && Distinct(nodeList) && Mapped(nodeMap - {key}, nodeList) && Contents() == Room(cap, old(Contents()), key)
      ensures forall i :: 0 <= i < |nodeList| ==> nodeList[i] in old(nodeList)
    {
      hide Mapped, Distinct, Entries, Drop, Find, Has;
      ghost var es := Contents();
      NotMapped(nodeMap, nodeList, key);
      MapSize(nodeMap, nodeList);
      if key in nodeMap {
        ghost var i := Located(nodeMap, nodeList, key, cap);
        Erase(nodeMap[key], i);
      } else {
        if |nodeMap| >= cap {
          PopBack();
        }
        assert nodeMap - {key} == nodeMap;
      }
    }

    /** put. */
    method Put(key: int, value: int)
      requires Valid() && cap > 0
      modifies this`nodeList, this`nodeMap
      ensures Valid() && Contents() == Stored(cap, old(Contents()), key, value) && OldOrNew()
    {
      hide Mapped, Distinct, Entries, Room, Stored;
      StoredIs(cap, Contents(), key, value);
      MakeRoom(key);
      hide Valid;
      PushFront(key, value);
    }
  }

  /** put's three ways of making room. */
  ghost function Room(cap: nat, es: seq<Entry>, key: int): seq<Entry>
    requires cap > 0
  {
    if Has(es, key) then Drop(es, Find(es, key)) else if |es| < cap then es else es[..|es| - 1]
  }

  lemma StoredIs(cap: nat, es: seq<Entry>, key: int, value: int)
    requires |es| <= cap && cap > 0
    ensures Stored(cap, es, key, value) == [Entry(key, value)] + Room(cap, es, key)
  {}

  function Without(s: seq<Node>, n: Node): seq<Node> {
    if s == [] then [] else if s[0] == n then s[1..] else [s[0]] + Without(s[1..], n)
  }

  lemma {:induction false} WithoutIs(s: seq<Node>, i: nat)
    requires Distinct(s) && i < |s|
    ensures Without(s, s[i]) == Drop(s, i)
  {
    if i > 0 {
      assert s[0] != s[i] && s[1..][i - 1] == s[i];
      WithoutIs(s[1..], i - 1);
      assert Drop(s, i) == [s[0]] + Drop(s[1..], i - 1);
    } else {
      assert Drop(s, 0) == s[1..];
    }
  }

  lemma DropNodes(ns: seq<Node>, i: nat)
    requires i < |ns|
    ensures forall j :: 0 <= j < |Drop(ns, i)| ==> Drop(ns, i)[j] in ns
  {}

  lemma DropDistinct(ns: seq<Node>, i: nat)
    requires Distinct(ns) && i < |ns|
    ensures Distinct(Drop(ns, i))
  {}

  // ---- both caches on one run -------------------------------------------------------------------

  /** What the gets of a run answer. */
  function Answers(cap: nat, s: seq<Entry>, ops: seq<Op>): seq<int>
    decreases |ops|
  {
    if ops == [] then [] else
      (if ops[0].Get? then [Answer(s, ops[0].key)] else []) + Answers(cap, Step(cap, s, ops[0]), ops[1..])
  }

  lemma AnswersStep(cap: nat, s: seq<Entry>, ops: seq<Op>, n: nat, out: seq<int>)
    requires n < |ops|
    ensures out + Answers(cap, s, ops[n..])
         == out + (if ops[n].Get? then [Answer(s, ops[n].key)] else []) + Answers(cap, Step(cap, s, ops[n]), ops[n + 1..])
  {
    hide Answer, Step;
    assert ops[n..][1..] == ops[n + 1..];
  }

  /** Two caches that share no node. */
  ghost predicate Beside(a: RingCache, b: ListCache)
    reads a, b
  {
    a.dummy !in b.nodeList && forall i :: 0 <= i < |b.nodeList| ==> b.nodeList[i] !in a.list
  }

  /** One operation on both. */
  method Both(a: RingCache, b: ListCache, op: Op, ghost s: seq<Entry>) returns (ring: seq<int>, list: seq<int>)
    requires a.Valid() && b.Valid() && a.cap == b.cap > 0 && a.Contents() == b.Contents() == s && Beside(a, b)
    modifies a, a.dummy, a.list, b
    ensures a.Valid() && b.Valid() && a.Contents() == b.Contents() == Step(a.cap, s, op) && Beside(a, b)
    ensures ring == list == if op.Get? then [Answer(s, op.key)] else []
    ensures a.OldOrNew() && b.OldOrNew()
  {
    hide Answer, Touched, Stored, RingCache.Valid, ListCache.Valid, RingCache.Contents, ListCache.Contents, RingCache.Repr;
    ring, list := [], [];
    match op {
      case Get(key) =>
        var r := a.Get(key);
        var l := b.Get(key);
        ring, list := [r], [l];
      case Put(key, value) =>
        a.Put(key, value);
        b.Put(key, value);
    }
  }

  /** From the empty caches on, both give the answers of the recency list. */
  method RunBoth(cap: nat, ops: seq<Op>) returns (ring: seq<int>, list: seq<int>)
    requires cap > 0
    ensures ring == list == Answers(cap, [], ops)
  {
    hide RingCache.Valid, ListCache.Valid, RingCache.Contents, ListCache.Contents, Answer, Step, Answers;
    var a := new RingCache(cap);
    var b := new ListCache(cap);
    ghost var s: seq<Entry> := [];
    var n := 0;
    ring, list := [], [];
    assert ops[0..] == ops;
    while n < |ops|
      invariant n <= |ops| && ring == list && ring + Answers(cap, s, ops[n..]) == Answers(cap, [], ops)
      invariant a.Valid() && b.Valid() && a.cap == b.cap == cap && a.Contents() == b.Contents() == s && Beside(a, b)
      invariant fresh(a) && fresh(a.dummy) && fresh(b) && forall i :: 0 <= i < |a.list| ==> fresh(a.list[i])
    {
      AnswersStep(cap, s, ops, n, ring);
      var r, l := Both(a, b, ops[n], s);
      ring, list := ring + r, list + l;
      s := Step(cap, s, ops[n]);
      n := n + 1;
    }
    NoMore(cap, s, ops, n);
  }

  lemma NoMore(cap: nat, s: seq<Entry>, ops: seq<Op>, n: nat)
    requires n == |ops|
    ensures Answers(cap, s, ops[n..]) == []
  {}
}
