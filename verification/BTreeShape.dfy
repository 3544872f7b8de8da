/** The trees that the nodes of code/tree/b-tree.c stand for: their keys in order, their
    shape, and what splitting, merging and borrowing do to them. */
module BTreeShape {
  class BNode {
    const keys: array<int>
    const childrens: array<BNode?>
    var num: nat
    var leaf: bool

    /** btree_create_node: room for 2t - 1 keys; the room for children is counted in nodes,
        not in pointers, which is three times as much. */
    constructor (t: nat, l: bool)
      requires t >= 1
      ensures num == 0 && leaf == l && keys.Length == 2 * t - 1 && childrens.Length == 6 * t
      ensures fresh(keys) && fresh(childrens)
    {
      keys := new int[2 * t - 1](_ => 0);
      childrens := new BNode?[6 * t](_ => null);
      num, leaf := 0, l;
    }
  }

  datatype Tree = Tree(node: BNode, keys: seq<int>, kids: seq<Tree>)

  /** A child before and behind every key, or no children. */
  predicate Wide(t: Tree) { t.kids == [] || |t.kids| == |t.keys| + 1 }

  // ---- contents ------------------------------------------------------------------------

  /** The keys in order. */
  function In(t: Tree): seq<int>
    requires AllWide(t)
    decreases t, 1, 0
  {
    if t.kids == [] then t.keys else Pre(t, |t.keys|) + In(t.kids[|t.keys|])
  }

  predicate AllWide(t: Tree) { Wide(t) && forall i :: 0 <= i < |t.kids| ==> AllWide(t.kids[i]) }

  /** The keys in front of the `i`-th child. */
  function Pre(t: Tree, i: nat): seq<int>
    requires AllWide(t) && t.kids != [] && i <= |t.keys|
    decreases t, 0, i
  {
    if i == 0 then [] else Pre(t, i - 1) + In(t.kids[i - 1]) + [t.keys[i - 1]]
  }

  /** The keys behind the `i`-th child. */
  function Post(t: Tree, i: nat): seq<int>
    requires AllWide(t) && t.kids != [] && i <= |t.keys|
    decreases t, 0, |t.keys| - i
  {
    if i == |t.keys| then [] else [t.keys[i]] + In(t.kids[i + 1]) + Post(t, i + 1)
  }

  lemma Assoc(a: seq<int>, b: seq<int>, c: seq<int>)
    ensures (a + b) + c == a + (b + c)
  {}

  lemma {:induction false} Around(t: Tree, i: nat)
    requires AllWide(t) && t.kids != [] && i <= |t.keys|
    ensures In(t) == Pre(t, i) + In(t.kids[i]) + Post(t, i)
    decreases |t.keys| - i
  {
    if i == |t.keys| {
      assert In(t) + [] == In(t);
    } else {
      Around(t, i + 1);
      Shift(Pre(t, i), In(t.kids[i]), t.keys[i], In(t.kids[i + 1]), Post(t, i + 1));
    }
  }

  lemma Shift(p: seq<int>, a: seq<int>, k: int, b: seq<int>, q: seq<int>)
    ensures (p + a + [k]) + b + q == p + a + ([k] + b + q)
  {}

  lemma {:induction false} PreSame(t: Tree, u: Tree, i: nat)
    requires AllWide(t) && AllWide(u) && t.kids != [] && u.kids != [] && i <= |t.keys| && i <= |u.keys|
    requires t.keys[..i] == u.keys[..i] && t.kids[..i] == u.kids[..i]
    ensures Pre(t, i) == Pre(u, i)
    decreases i
  {
    if i > 0 {
      assert t.keys[i - 1] == t.keys[..i][i - 1] == u.keys[i - 1] && t.kids[i - 1] == t.kids[..i][i - 1] == u.kids[i - 1];
      assert t.keys[..i - 1] == t.keys[..i][..i - 1] == u.keys[..i - 1];
      assert t.kids[..i - 1] == t.kids[..i][..i - 1] == u.kids[..i - 1];
      PreSame(t, u, i - 1);
    }
  }

  lemma {:induction false} PostSame(t: Tree, i: nat, u: Tree, j: nat)
    requires AllWide(t) && AllWide(u) && t.kids != [] && u.kids != [] && i <= |t.keys| && j <= |u.keys|
    requires t.keys[i..] == u.keys[j..] && t.kids[i + 1..] == u.kids[j + 1..]
    ensures Post(t, i) == Post(u, j)
    decreases |t.keys| - i
  {
    if i < |t.keys| {
      assert t.keys[i] == t.keys[i..][0] == u.keys[j] && t.kids[i + 1] == t.kids[i + 1..][0] == u.kids[j + 1];
      assert t.keys[i + 1..] == t.keys[i..][1..] == u.keys[j + 1..];
      assert t.kids[i + 2..] == t.kids[i + 1..][1..] == u.kids[j + 2..];
      PostSame(t, i + 1, u, j + 1);
    }
  }

  // ---- shape -----------------------------------------------------------------------------

  /** At most 2d - 1 keys in a node, at least d - 1 in all nodes but the topmost, and all
      leaves `h` levels down. */
  predicate Balanced(t: Tree, d: nat, h: nat) {
    && |t.keys| <= 2 * d - 1 && Wide(t) && (t.kids == [] <==> h == 0)
    && forall i :: 0 <= i < |t.kids| ==> h > 0 && Balanced(t.kids[i], d, h - 1) && |t.kids[i].keys| >= d - 1
  }

  lemma {:induction false} BalancedWide(t: Tree, d: nat, h: nat)
    requires Balanced(t, d, h)
    ensures AllWide(t)
    decreases t
  {
    forall i | 0 <= i < |t.kids| ensures AllWide(t.kids[i]) { BalancedWide(t.kids[i], d, h - 1); }
  }

  // ---- splitting and merging ---------------------------------------------------------------

  function LowHalf(y: Tree, d: nat): Tree
    requires 0 < d <= |y.keys| && Wide(y)
  {
    Tree(y.node, y.keys[..d - 1], if y.kids == [] then [] else y.kids[..d])
  }

  function HighHalf(y: Tree, d: nat, z: BNode): Tree
    requires 0 < d <= |y.keys| && Wide(y)
  {
    Tree(z, y.keys[d..], if y.kids == [] then [] else y.kids[d..])
  }

  /** The full child `i` is split around its middle key into itself and the new node `z`. */
  function Split(t: Tree, i: nat, d: nat, z: BNode): Tree
    requires i < |t.kids| && i <= |t.keys| && d > 0 && |t.kids[i].keys| == 2 * d - 1 && Wide(t.kids[i])
  {
    var y := t.kids[i];
    Tree(t.node, t.keys[..i] + [y.keys[d - 1]] + t.keys[i..], t.kids[..i] + [LowHalf(y, d), HighHalf(y, d, z)] + t.kids[i + 1..])
  }

  /** Children `i` and `i + 1` are merged around the key between them into the first one. */
  function Merged(y: Tree, k: int, z: Tree): Tree { Tree(y.node, y.keys + [k] + z.keys, y.kids + z.kids) }

  function Merge(t: Tree, i: nat): Tree
    requires i < |t.keys| && i + 1 < |t.kids|
  {
    Tree(t.node, t.keys[..i] + t.keys[i + 1..], t.kids[..i] + [Merged(t.kids[i], t.keys[i], t.kids[i + 1])] + t.kids[i + 2..])
  }

  lemma MergedHalves(y: Tree, d: nat, z: BNode)
    requires d > 0 && |y.keys| == 2 * d - 1 && Wide(y)
    ensures Merged(LowHalf(y, d), y.keys[d - 1], HighHalf(y, d, z)) == y
  {
    assert y.keys == y.keys[..d - 1] + [y.keys[d - 1]] + y.keys[d..];
    assert y.kids != [] ==> y.kids == y.kids[..d] + y.kids[d..];
  }

  /** Merging undoes splitting. */
  lemma MergeUndoesSplit(t: Tree, i: nat, d: nat, z: BNode)
    requires Wide(t) && i < |t.kids| && d > 0 && |t.kids[i].keys| == 2 * d - 1 && Wide(t.kids[i])
    ensures Merge(Split(t, i, d, z), i) == t
  {
    var y, s := t.kids[i], Split(t, i, d, z);
    MergedHalves(y, d, z);
    hide Merged, LowHalf, HighHalf;
    assert s.kids[i] == LowHalf(y, d) && s.kids[i + 1] == HighHalf(y, d, z) && s.keys[i] == y.keys[d - 1];
    assert s.keys[..i] == t.keys[..i] && s.keys[i + 1..] == t.keys[i..] && t.keys[..i] + t.keys[i..] == t.keys;
    assert s.kids[..i] == t.kids[..i] && s.kids[i + 2..] == t.kids[i + 1..];
    assert t.kids[..i] + [y] + t.kids[i + 1..] == t.kids;
  }

  lemma MergedWide(y: Tree, k: int, z: Tree)
    requires AllWide(y) && AllWide(z) && (y.kids == [] <==> z.kids == [])
    ensures AllWide(Merged(y, k, z))
  {
    var m := Merged(y, k, z);
    forall i | 0 <= i < |m.kids| ensures AllWide(m.kids[i]) {
      assert m.kids[i] == if i < |y.kids| then y.kids[i] else z.kids[i - |y.kids|];
    }
  }

  lemma MergedPieces(y: Tree, k: int, z: Tree)
    requires AllWide(y) && AllWide(z) && y.kids != [] && z.kids != [] && AllWide(Merged(y, k, z))
    ensures var m, n := Merged(y, k, z), |y.keys|;
      Pre(m, n) == Pre(y, n) && m.kids[n] == y.kids[n] && Post(m, n) == [k] + In(z.kids[0]) + Post(z, 0)
  {
    var m, n := Merged(y, k, z), |y.keys|;
    assert m.keys[..n] == y.keys[..n] && m.kids[..n] == y.kids[..n] && m.kids[n] == y.kids[n];
    PreSame(m, y, n);
    assert m.keys[n + 1..] == z.keys[0..] && m.kids[n + 2..] == z.kids[1..] && m.kids[n + 1] == z.kids[0] && m.keys[n] == k;
    PostSame(m, n + 1, z, 0);
  }

  /** The keys of two halves and the one between them. */
  lemma MergedIn(y: Tree, k: int, z: Tree)
    requires AllWide(y) && AllWide(z) && (y.kids == [] <==> z.kids == [])
    ensures AllWide(Merged(y, k, z)) && In(Merged(y, k, z)) == In(y) + [k] + In(z)
  {
    MergedWide(y, k, z);
    if y.kids != [] { MergedInner(y, k, z); }
  }

  lemma MergedInner(y: Tree, k: int, z: Tree)
    requires AllWide(y) && AllWide(z) && y.kids != [] && z.kids != [] && AllWide(Merged(y, k, z))
    ensures In(Merged(y, k, z)) == In(y) + [k] + In(z)
  {
    hide In, Pre, Post, AllWide;
    var m, n := Merged(y, k, z), |y.keys|;
    WideKids(y);
    WideKids(z);
    MergedPieces(y, k, z);
    Around(m, n);
    InFirst(z);
    InLast(y);
    Assoc([k], In(z.kids[0]), Post(z, 0));
    Assoc(In(y), [k], In(z));
  }

  lemma WideKids(t: Tree)
    requires AllWide(t)
    ensures Wide(t) && forall i :: 0 <= i < |t.kids| ==> AllWide(t.kids[i])
  {}

  lemma InLast(t: Tree)
    requires AllWide(t) && t.kids != []
    ensures In(t) == Pre(t, |t.keys|) + In(t.kids[|t.keys|])
  {}

  lemma InFirst(t: Tree)
    requires AllWide(t) && t.kids != []
    ensures In(t) == In(t.kids[0]) + Post(t, 0)
  {
    hide In, Post;
    Around(t, 0);
    assert [] + In(t.kids[0]) + Post(t, 0) == In(t.kids[0]) + Post(t, 0);
  }

  lemma MergeWide(t: Tree, i: nat)
    requires AllWide(t) && i < |t.keys| && i + 1 < |t.kids| && (t.kids[i].kids == [] <==> t.kids[i + 1].kids == [])
    ensures AllWide(Merge(t, i)) && Merge(t, i).kids[i] == Merged(t.kids[i], t.keys[i], t.kids[i + 1])
  {
    var m := Merge(t, i);
    MergedWide(t.kids[i], t.keys[i], t.kids[i + 1]);
    forall j | 0 <= j < |m.kids| ensures AllWide(m.kids[j]) {
      assert j != i ==> m.kids[j] == if j < i then t.kids[j] else t.kids[j + 1];
    }
  }

  lemma MergePieces(t: Tree, i: nat)
    requires AllWide(t) && i < |t.keys| && i + 1 < |t.kids| && AllWide(Merge(t, i))
    ensures Pre(Merge(t, i), i) == Pre(t, i) && Post(Merge(t, i), i) == Post(t, i + 1)
    ensures Post(t, i) == [t.keys[i]] + In(t.kids[i + 1]) + Post(t, i + 1)
  {
    var m := Merge(t, i);
    assert m.keys[..i] == t.keys[..i] && m.kids[..i] == t.kids[..i];
    PreSame(m, t, i);
    assert m.keys[i..] == t.keys[i + 1..] && m.kids[i + 1..] == t.kids[i + 2..];
    PostSame(m, i, t, i + 1);
  }

  /** A merge changes no key and no order. */
  lemma MergeIn(t: Tree, i: nat)
    requires AllWide(t) && i < |t.keys| && i + 1 < |t.kids| && (t.kids[i].kids == [] <==> t.kids[i + 1].kids == [])
    ensures AllWide(Merge(t, i)) && In(Merge(t, i)) == In(t)
  {
    hide In, Pre, Post, AllWide, Merged;
    WideKids(t);
    MergeWide(t, i);
    MergePieces(t, i);
    MergedIn(t.kids[i], t.keys[i], t.kids[i + 1]);
    Around(Merge(t, i), i);
    Around(t, i);
    Regroup(Pre(t, i), In(t.kids[i]), t.keys[i], In(t.kids[i + 1]), Post(t, i + 1));
  }

  lemma Regroup(p: seq<int>, a: seq<int>, k: int, b: seq<int>, q: seq<int>)
    ensures p + (a + [k] + b) + q == p + a + ([k] + b + q)
  {}

  lemma SplitKeeps(t: Tree, i: nat, d: nat, z: BNode, h: nat)
    requires Balanced(t, d, h) && d >= 2 && i < |t.kids| && |t.kids[i].keys| == 2 * d - 1 && |t.keys| < 2 * d - 1
    ensures Wide(t) && Wide(t.kids[i]) && var s := Split(t, i, d, z);
      (Balanced(s, d, h) && AllWide(s) && AllWide(t) && In(s) == In(t))
    ensures |LowHalf(t.kids[i], d).keys| == d - 1 && |HighHalf(t.kids[i], d, z).keys| == d - 1
  {
    assert Balanced(t.kids[i], d, h - 1);
    var s := Split(t, i, d, z);
    SplitBalanced(t, i, d, z, h);
    BalancedWide(s, d, h);
    BalancedWide(t, d, h);
    MergeUndoesSplit(t, i, d, z);
    hide Balanced, AllWide, In, LowHalf, HighHalf;
    MergeIn(s, i);
  }

  lemma SplitBalanced(t: Tree, i: nat, d: nat, z: BNode, h: nat)
    requires Balanced(t, d, h) && d >= 2 && i < |t.kids| && |t.kids[i].keys| == 2 * d - 1 && |t.keys| < 2 * d - 1 && Wide(t.kids[i])
    ensures var s := Split(t, i, d, z);
      Balanced(s, d, h) && s.kids[i] == LowHalf(t.kids[i], d) && s.kids[i + 1] == HighHalf(t.kids[i], d, z)
      && (s.kids[i].kids == [] <==> s.kids[i + 1].kids == [])
  {
    hide LowHalf, HighHalf, Split, Balanced;
    BalancedSizes(t, i, d, h);
    var s, y := Split(t, i, d, z), t.kids[i];
    HalvesBalanced(y, d, z, h - 1);
    SplitSizes(t, i, d, z);
    forall j | 0 <= j < |s.kids| ensures Balanced(s.kids[j], d, h - 1) && |s.kids[j].keys| >= d - 1 {
      SplitKid(t, i, d, z, j);
      if j < i { BalancedKid(t, j, d, h); }
      if j > i + 1 { BalancedKid(t, j - 1, d, h); }
    }
    MakeBalanced(s, d, h);
  }

  lemma BalancedSizes(t: Tree, i: nat, d: nat, h: nat)
    requires Balanced(t, d, h) && i < |t.kids|
    ensures h > 0 && |t.kids| == |t.keys| + 1 && Balanced(t.kids[i], d, h - 1) && Wide(t.kids[i])
  {}

  lemma BalancedKid(t: Tree, j: nat, d: nat, h: nat)
    requires Balanced(t, d, h) && j < |t.kids|
    ensures h > 0 && Balanced(t.kids[j], d, h - 1) && |t.kids[j].keys| >= d - 1
  {}

  lemma MakeBalanced(t: Tree, d: nat, h: nat)
    requires |t.keys| <= 2 * d - 1 && |t.kids| == |t.keys| + 1 && h > 0
    requires forall j :: 0 <= j < |t.kids| ==> Balanced(t.kids[j], d, h - 1) && |t.kids[j].keys| >= d - 1
    ensures Balanced(t, d, h)
  {}

  lemma SplitSizes(t: Tree, i: nat, d: nat, z: BNode)
    requires i < |t.kids| && i <= |t.keys| && d > 0 && |t.kids[i].keys| == 2 * d - 1 && Wide(t.kids[i])
    ensures var s, y := Split(t, i, d, z), t.kids[i];
      (&& |s.kids| == |t.kids| + 1 && |s.keys| == |t.keys| + 1 && s.kids[i] == LowHalf(y, d) && s.kids[i + 1] == HighHalf(y, d, z)
       && (s.kids[i].kids == [] <==> s.kids[i + 1].kids == []))
  {}

  lemma SplitKid(t: Tree, i: nat, d: nat, z: BNode, j: nat)
    requires i < |t.kids| && i <= |t.keys| && d > 0 && |t.kids[i].keys| == 2 * d - 1 && Wide(t.kids[i]) && j <= |t.kids|
    ensures var s, y := Split(t, i, d, z), t.kids[i];
      |s.kids| == |t.kids| + 1
      && s.kids[j] == if j < i then t.kids[j] else if j == i then LowHalf(y, d) else if j == i + 1 then HighHalf(y, d, z) else t.kids[j - 1]
  {}

  lemma HalvesBalanced(y: Tree, d: nat, z: BNode, h: nat)
    requires Balanced(y, d, h) && d >= 2 && |y.keys| == 2 * d - 1
    ensures Balanced(LowHalf(y, d), d, h) && Balanced(HighHalf(y, d, z), d, h)
    ensures |LowHalf(y, d).keys| == |HighHalf(y, d, z).keys| == d - 1
  {
    var a, b := LowHalf(y, d), HighHalf(y, d, z);
    forall j | 0 <= j < |a.kids| ensures Balanced(a.kids[j], d, h - 1) && |a.kids[j].keys| >= d - 1 {
      assert a.kids[j] == y.kids[j];
    }
    forall j | 0 <= j < |b.kids| ensures Balanced(b.kids[j], d, h - 1) && |b.kids[j].keys| >= d - 1 {
      assert b.kids[j] == y.kids[d + j];
    }
  }

  lemma MergeKeeps(t: Tree, i: nat, d: nat, h: nat)
    requires Balanced(t, d, h) && d >= 2 && i < |t.keys| && h > 0
    requires |t.kids[i].keys| == d - 1 && |t.kids[i + 1].keys| == d - 1
    ensures Balanced(Merge(t, i), d, h) && AllWide(t) && AllWide(Merge(t, i)) && In(Merge(t, i)) == In(t)
  {
    var m, y, z := Merge(t, i), t.kids[i], t.kids[i + 1];
    var u := Merged(y, t.keys[i], z);
    assert Balanced(y, d, h - 1) && Balanced(z, d, h - 1);
    forall j | 0 <= j < |u.kids| ensures h > 1 && Balanced(u.kids[j], d, h - 2) && |u.kids[j].keys| >= d - 1 {
      assert u.kids[j] == if j < |y.kids| then y.kids[j] else z.kids[j - |y.kids|];
    }
    forall j | 0 <= j < |m.kids| ensures Balanced(m.kids[j], d, h - 1) && |m.kids[j].keys| >= d - 1 {
      assert m.kids[j] == if j < i then t.kids[j] else if j == i then u else t.kids[j + 1];
    }
    BalancedWide(t, d, h);
    MergeIn(t, i);
  }

  // ---- borrowing -----------------------------------------------------------------------------

  /** Child `i` takes the key behind it and the first child of its right sibling, whose first
      key moves up. */
  function BorrowNext(t: Tree, i: nat): Tree
    requires i < |t.keys| && i + 1 < |t.kids| && t.kids[i + 1].keys != []
  {
    var c, r := t.kids[i], t.kids[i + 1];
    var c' := Tree(c.node, c.keys + [t.keys[i]], c.kids + if r.kids == [] then [] else [r.kids[0]]);
    var r' := Tree(r.node, r.keys[1..], if r.kids == [] then [] else r.kids[1..]);
    Tree(t.node, t.keys[i := r.keys[0]], t.kids[i := c'][i + 1 := r'])
  }

  /** Child `i + 1` takes the key in front of it and the last child of its left sibling, whose
      last key moves up. */
  function BorrowPrev(t: Tree, i: nat): Tree
    requires i < |t.keys| && i + 1 < |t.kids| && t.kids[i].keys != []
  {
    var l, c := t.kids[i], t.kids[i + 1];
    var n, m := |l.keys|, |l.kids|;
    var l' := Tree(l.node, l.keys[..n - 1], if l.kids == [] then [] else l.kids[..m - 1]);
    var c' := Tree(c.node, [t.keys[i]] + c.keys, (if l.kids == [] then [] else [l.kids[m - 1]]) + c.kids);
    Tree(t.node, t.keys[i := l.keys[n - 1]], t.kids[i := l'][i + 1 := c'])
  }

  /** Borrowing moves the border between two siblings: merging them gives the same. */
  lemma BorrowNextMerges(t: Tree, i: nat)
    requires i < |t.keys| && i + 1 < |t.kids| && t.kids[i + 1].keys != []
    ensures Merge(BorrowNext(t, i), i) == Merge(t, i)
  {
    var b, c, r := BorrowNext(t, i), t.kids[i], t.kids[i + 1];
    assert b.keys[..i] == t.keys[..i] && b.keys[i + 1..] == t.keys[i + 1..];
    assert b.kids[..i] == t.kids[..i] && b.kids[i + 2..] == t.kids[i + 2..];
    var m, n := Merged(b.kids[i], b.keys[i], b.kids[i + 1]), Merged(c, t.keys[i], r);
    assert r.keys == [r.keys[0]] + r.keys[1..] && m.keys == n.keys;
    assert r.kids != [] ==> r.kids == [r.kids[0]] + r.kids[1..];
    assert m.kids == n.kids;
  }

  lemma BorrowPrevMerges(t: Tree, i: nat)
    requires i < |t.keys| && i + 1 < |t.kids| && t.kids[i].keys != []
    ensures Merge(BorrowPrev(t, i), i) == Merge(t, i)
  {
    var b, l, c := BorrowPrev(t, i), t.kids[i], t.kids[i + 1];
    var k := |l.kids|;
    assert b.keys[..i] == t.keys[..i] && b.keys[i + 1..] == t.keys[i + 1..];
    assert b.kids[..i] == t.kids[..i] && b.kids[i + 2..] == t.kids[i + 2..];
    var m, n := Merged(b.kids[i], b.keys[i], b.kids[i + 1]), Merged(l, t.keys[i], c);
    assert l.keys == l.keys[..|l.keys| - 1] + [l.keys[|l.keys| - 1]] && m.keys == n.keys;
    assert l.kids != [] ==> l.kids == l.kids[..k - 1] + [l.kids[k - 1]];
    assert m.kids == n.kids;
  }

  /** Two trees that merge to the same one at the same place hold the same keys in order. */
  lemma SameMerge(t: Tree, u: Tree, i: nat)
    requires AllWide(t) && AllWide(u) && i < |t.keys| && i < |u.keys| && i + 1 < |t.kids| && i + 1 < |u.kids|
    requires (t.kids[i].kids == [] <==> t.kids[i + 1].kids == []) && (u.kids[i].kids == [] <==> u.kids[i + 1].kids == [])
    requires Merge(t, i) == Merge(u, i)
    ensures In(t) == In(u)
  {
    MergeIn(t, i);
    MergeIn(u, i);
  }

  lemma SiblingsBalanced(t: Tree, i: nat, d: nat, h: nat)
    requires Balanced(t, d, h) && i < |t.keys| && h > 0
    ensures i + 1 < |t.kids| && Balanced(t.kids[i], d, h - 1) && Balanced(t.kids[i + 1], d, h - 1)
    ensures t.kids[i].kids == [] <==> t.kids[i + 1].kids == []
  {}

  lemma BorrowNextKeeps(t: Tree, i: nat, d: nat, h: nat)
    requires Balanced(t, d, h) && d >= 2 && i < |t.keys| && h > 0
    requires |t.kids[i].keys| == d - 1 && |t.kids[i + 1].keys| >= d
    ensures var b := BorrowNext(t, i);
      Balanced(b, d, h) && AllWide(t) && AllWide(b) && In(b) == In(t) && |b.kids[i].keys| == d
  {
    var b, c, r := BorrowNext(t, i), t.kids[i], t.kids[i + 1];
    SiblingsBalanced(t, i, d, h);
    var c', r' := b.kids[i], b.kids[i + 1];
    forall j | 0 <= j < |c'.kids| ensures h > 1 && Balanced(c'.kids[j], d, h - 2) && |c'.kids[j].keys| >= d - 1 {
      assert c'.kids[j] == if j < |c.kids| then c.kids[j] else r.kids[0];
    }
    forall j | 0 <= j < |r'.kids| ensures h > 1 && Balanced(r'.kids[j], d, h - 2) && |r'.kids[j].keys| >= d - 1 {
      assert r'.kids[j] == r.kids[j + 1];
    }
    assert Balanced(c', d, h - 1) && Balanced(r', d, h - 1);
    BorrowedBalanced(t, b, i, d, h);
    BorrowNextMerges(t, i);
    SameMerge(b, t, i);
  }

  lemma BorrowPrevKeeps(t: Tree, i: nat, d: nat, h: nat)
    requires Balanced(t, d, h) && d >= 2 && i < |t.keys| && h > 0
    requires |t.kids[i].keys| >= d && |t.kids[i + 1].keys| == d - 1
    ensures var b := BorrowPrev(t, i);
      Balanced(b, d, h) && AllWide(t) && AllWide(b) && In(b) == In(t) && |b.kids[i + 1].keys| == d
  {
    var b, l, c := BorrowPrev(t, i), t.kids[i], t.kids[i + 1];
    SiblingsBalanced(t, i, d, h);
    var l', c' := b.kids[i], b.kids[i + 1];
    forall j | 0 <= j < |c'.kids| ensures h > 1 && Balanced(c'.kids[j], d, h - 2) && |c'.kids[j].keys| >= d - 1 {
      assert c'.kids[j] == if j == 0 then l.kids[|l.kids| - 1] else c.kids[j - 1];
    }
    forall j | 0 <= j < |l'.kids| ensures h > 1 && Balanced(l'.kids[j], d, h - 2) && |l'.kids[j].keys| >= d - 1 {
      assert l'.kids[j] == l.kids[j];
    }
    assert Balanced(c', d, h - 1) && Balanced(l', d, h - 1);
    BorrowedBalanced(t, b, i, d, h);
    BorrowPrevMerges(t, i);
    SameMerge(b, t, i);
  }

  /** Only two neighbouring children changed, and they are still balanced. */
  lemma BorrowedBalanced(t: Tree, b: Tree, i: nat, d: nat, h: nat)
    requires Balanced(t, d, h) && i < |t.keys| && h > 0 && |b.keys| == |t.keys| && |b.kids| == |t.kids|
    requires forall j :: 0 <= j < |t.kids| && j != i && j != i + 1 ==> b.kids[j] == t.kids[j]
    requires Balanced(b.kids[i], d, h - 1) && |b.kids[i].keys| >= d - 1
    requires Balanced(b.kids[i + 1], d, h - 1) && |b.kids[i + 1].keys| >= d - 1
    ensures Balanced(b, d, h) && AllWide(b) && AllWide(t)
  {
    forall j | 0 <= j < |b.kids| ensures Balanced(b.kids[j], d, h - 1) && |b.kids[j].keys| >= d - 1 {
      if j != i && j != i + 1 { assert b.kids[j] == t.kids[j]; }
    }
    BalancedWide(b, d, h);
    BalancedWide(t, d, h);
  }

  // ---- order ---------------------------------------------------------------------------------

  predicate Sorted(s: seq<int>) { forall i, j :: 0 <= i < j < |s| ==> s[i] <= s[j] }

  /** The key goes in front of the first larger one. */
  function InsertKey(s: seq<int>, k: int): seq<int> {
    if s == [] then [k] else if s[0] > k then [k] + s else [s[0]] + InsertKey(s[1..], k)
  }

  predicate AtMost(s: seq<int>, k: int) { forall i :: 0 <= i < |s| ==> s[i] <= k }

  predicate AtLeast(s: seq<int>, k: int) { forall i :: 0 <= i < |s| ==> s[i] >= k }

  lemma SortedTail(s: seq<int>)
    requires s != [] && Sorted(s)
    ensures Sorted(s[1..])
  {}

  lemma {:induction false} InsertFront(b: seq<int>, k: int)
    requires AtLeast(b, k)
    ensures InsertKey(b, k) == [k] + b
    decreases |b|
  {
    if b == [] {
      assert [k] + b == [k];
    } else if b[0] == k {
      InsertFront(b[1..], k);
      assert b == [k] + b[1..];
    }
  }

  /** Wherever the key goes among equal ones, the sequence is the same. */
  lemma {:induction false} InsertBetween(a: seq<int>, b: seq<int>, k: int)
    requires AtMost(a, k) && AtLeast(b, k)
    ensures InsertKey(a + b, k) == a + [k] + b
    decreases |a|
  {
    if a == [] {
      InsertFront(b, k);
      assert a + b == b && a + [k] + b == [k] + b;
    } else {
      var a', x := a[1..], a[0];
      assert (a + b)[1..] == a' + b && (a + b)[0] == x;
      InsertBetween(a', b, k);
      assert InsertKey(a + b, k) == [x] + (a' + [k] + b);
      PutFront(x, a', [k], b);
      assert a == [x] + a';
    }
  }

  lemma PutFront(x: int, a: seq<int>, m: seq<int>, b: seq<int>)
    ensures [x] + (a + m + b) == ([x] + a) + m + b
  {}

  lemma InsertSorted(s: seq<int>, k: int)
    requires Sorted(s)
    ensures Sorted(InsertKey(s, k)) && multiset(InsertKey(s, k)) == multiset(s) + multiset{k}
  {
    var n := Place(s, k);
    var a, b := s[..n], s[n..];
    assert s == a + b;
    InsertBetween(a, b, k);
    SortedAround(a, k, b);
  }

  lemma SortedAround(a: seq<int>, k: int, b: seq<int>)
    requires Sorted(a + b) && AtMost(a, k) && AtLeast(b, k)
    ensures Sorted(a + [k] + b)
  {
    var s, r, n := a + b, a + [k] + b, |a|;
    assert forall i :: 0 <= i < n ==> r[i] == a[i] == s[i];
    assert forall i :: n < i < |r| ==> r[i] == b[i - n - 1] == s[i - 1];
  }

  lemma Outer(a: seq<int>, m: seq<int>, n: seq<int>, b: seq<int>)
    ensures a + (m + n) + b == (a + m) + (n + b)
  {}

  lemma OuterKey(a: seq<int>, m: seq<int>, k: int, n: seq<int>, b: seq<int>)
    ensures (a + m) + [k] + (n + b) == a + (m + [k] + n) + b
  {}

  lemma MiddleSorted(a: seq<int>, m: seq<int>, b: seq<int>)
    requires Sorted(a + m + b)
    ensures Sorted(m)
  {
    var s := a + m + b;
    forall i, j | 0 <= i < j < |m| ensures m[i] <= m[j] { assert s[|a| + i] == m[i] && s[|a| + j] == m[j]; }
  }

  /** A key put into the middle part of a sorted sequence. */
  lemma InsertMiddle(a: seq<int>, m: seq<int>, b: seq<int>, k: int)
    requires Sorted(a + m + b) && AtMost(a, k) && AtLeast(b, k)
    ensures InsertKey(a + m + b, k) == a + InsertKey(m, k) + b
  {
    hide Sorted, InsertKey;
    MiddleSorted(a, m, b);
    var n := Place(m, k);
    assert m == m[..n] + m[n..];
    InsertBetween(m[..n], m[n..], k);
    Outer(a, m[..n], m[n..], b);
    InsertBetween(a + m[..n], m[n..] + b, k);
    OuterKey(a, m[..n], k, m[n..], b);
  }

  lemma {:induction false} Place(s: seq<int>, k: int) returns (n: nat)
    requires Sorted(s)
    ensures n <= |s| && AtMost(s[..n], k) && AtLeast(s[n..], k)
    decreases |s|
  {
    if s == [] || s[0] > k {
      n := 0;
    } else {
      SortedTail(s);
      n := Place(s[1..], k);
      assert s[1..][n..] == s[n + 1..] && s[..n + 1] == [s[0]] + s[1..][..n];
      n := n + 1;
    }
  }

  /** With another child at `c`. */
  function WithKid(t: Tree, c: nat, u: Tree): Tree
    requires c < |t.kids|
  {
    Tree(t.node, t.keys, t.kids[c := u])
  }

  /** A key that belongs between two keys of a node is inserted by inserting it into the
      child between them. */
  lemma InsertIntoKid(t: Tree, c: nat, u: Tree, k: int)
    requires AllWide(t) && AllWide(u) && c < |t.kids| && Sorted(In(t)) && In(u) == InsertKey(In(t.kids[c]), k)
    requires (c > 0 ==> t.keys[c - 1] <= k) && (c < |t.keys| ==> t.keys[c] >= k)
    ensures AllWide(WithKid(t, c, u)) && In(WithKid(t, c, u)) == InsertKey(In(t), k)
  {
    var t' := WithKid(t, c, u);
    assert AllWide(t');
    PreSame(t', t, c);
    PostSame(t', c, t, c);
    Around(t, c);
    Around(t', c);
    Bounds(t, c, k);
    InsertMiddle(Pre(t, c), In(t.kids[c]), Post(t, c), k);
  }

  lemma Bounds(t: Tree, c: nat, k: int)
    requires AllWide(t) && c < |t.kids| && Sorted(In(t))
    requires (c > 0 ==> t.keys[c - 1] <= k) && (c < |t.keys| ==> t.keys[c] >= k)
    ensures AtMost(Pre(t, c), k) && AtLeast(Post(t, c), k)
  {
    Around(t, c);
    var a, m, b, s := Pre(t, c), In(t.kids[c]), Post(t, c), In(t);
    if c > 0 {
      assert a[|a| - 1] == t.keys[c - 1];
      forall i | 0 <= i < |a| ensures a[i] <= k { assert s[i] == a[i] && s[|a| - 1] == a[|a| - 1]; }
    }
    if c < |t.keys| {
      assert b[0] == t.keys[c];
      forall i | 0 <= i < |b| ensures b[i] >= k { assert s[|a| + |m|] == b[0] && s[|a| + |m| + i] == b[i]; }
    }
  }

  /** The keys of a node are in order if all keys are. */
  lemma {:induction false} KeysSorted(t: Tree)
    requires AllWide(t) && Sorted(In(t))
    ensures Sorted(t.keys)
  {
    if t.kids != [] {
      forall i, j | 0 <= i < j < |t.keys| ensures t.keys[i] <= t.keys[j] {
        Bounds2(t, i, j);
      }
    }
  }

  lemma {:induction false} Bounds2(t: Tree, i: nat, j: nat)
    requires AllWide(t) && t.kids != [] && Sorted(In(t)) && i < j < |t.keys|
    ensures t.keys[i] <= t.keys[j]
  {
    Around(t, j);
    InPre(t, i, j);
    var a, s := Pre(t, j), In(t);
    var p :| 0 <= p < |a| && a[p] == t.keys[i];
    assert s[p] == a[p];
    var b := Post(t, j);
    assert b[0] == t.keys[j];
    assert s[|a| + |In(t.kids[j])|] == b[0];
  }

  lemma {:induction false} InPre(t: Tree, i: nat, j: nat)
    requires AllWide(t) && t.kids != [] && i < j <= |t.keys|
    ensures t.keys[i] in Pre(t, j)
    decreases j
  {
    if i < j - 1 { InPre(t, i, j - 1); }
  }
}
