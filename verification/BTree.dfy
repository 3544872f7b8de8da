/** The B-tree of code/tree/b-tree.c on linked nodes: inserting, with the splits on the way
    down, and the merging and borrowing steps of deletion. */
module BTree {
  import opened BTreeShape

  /** The three pieces of memory of a node. */
  ghost function Own(n: BNode): set<object> { {n, n.keys, n.childrens} }

  ghost function Objs(t: Tree): set<object>
    decreases t, 1
  {
    Own(t.node) + KidObjs(t, |t.kids|)
  }

  /** The memory of the first `n` subtrees. */
  ghost function KidObjs(t: Tree, n: nat): (r: set<object>)
    requires n <= |t.kids|
    ensures forall i :: 0 <= i < n ==> Objs(t.kids[i]) <= r
    decreases t, 0, n
  {
    if n == 0 then {} else KidObjs(t, n - 1) + Objs(t.kids[n - 1])
  }

  lemma {:induction false} InKid(t: Tree, n: nat, o: object) returns (i: nat)
    requires n <= |t.kids| && o in KidObjs(t, n)
    ensures i < n && o in Objs(t.kids[i])
    decreases n
  {
    if o in Objs(t.kids[n - 1]) { i := n - 1; } else { i := InKid(t, n - 1, o); }
  }

  lemma KidsAvoid(u: Tree, avoid: set<object>)
    requires forall j :: 0 <= j < |u.kids| ==> Objs(u.kids[j]) !! avoid
    ensures KidObjs(u, |u.kids|) !! avoid
  {
    forall o | o in KidObjs(u, |u.kids|) ensures o !in avoid { var j := InKid(u, |u.kids|, o); }
  }

  lemma KidsWithin(u: Tree, all: set<object>)
    requires forall j :: 0 <= j < |u.kids| ==> Objs(u.kids[j]) <= all
    ensures KidObjs(u, |u.kids|) <= all
  {
    forall o | o in KidObjs(u, |u.kids|) ensures o in all { var j := InKid(u, |u.kids|, o); }
  }

  lemma KidsApart(u: Tree, w: Tree)
    requires forall i, j :: 0 <= i < |u.kids| && 0 <= j < |w.kids| ==> Objs(u.kids[i]) !! Objs(w.kids[j])
    ensures KidObjs(u, |u.kids|) !! KidObjs(w, |w.kids|)
  {
    forall j | 0 <= j < |w.kids| ensures Objs(w.kids[j]) !! KidObjs(u, |u.kids|) { KidsAvoid(u, Objs(w.kids[j])); }
    KidsAvoid(w, KidObjs(u, |u.kids|));
  }

  lemma ObjsAre(t: Tree)
    ensures Objs(t) == Own(t.node) + KidObjs(t, |t.kids|)
  {}

  /** No piece of memory belongs to two nodes. */
  ghost predicate Sep(t: Tree) {
    && (forall i :: 0 <= i < |t.kids| ==> Own(t.node) !! Objs(t.kids[i]) && Sep(t.kids[i]))
    && (forall i, j :: 0 <= i < j < |t.kids| ==> Objs(t.kids[i]) !! Objs(t.kids[j]))
  }

  /** The node holds these keys and points to the nodes of these subtrees. */
  ghost predicate Holds(n: BNode, keys: seq<int>, kids: seq<Tree>, d: nat)
    reads n, n.keys, n.childrens
  {
    && n.keys.Length == 2 * d - 1 && n.childrens.Length == 6 * d && |kids| <= 2 * d
    && n.num == |keys| <= 2 * d - 1 && n.leaf == (kids == []) && n.keys[..n.num] == keys
    && forall i :: 0 <= i < |kids| ==> n.childrens[i] == kids[i].node
  }

  ghost predicate Linked(t: Tree, d: nat)
    reads Objs(t)
  {
    Wide(t) && Holds(t.node, t.keys, t.kids, d) && forall i :: 0 <= i < |t.kids| ==> Linked(t.kids[i], d)
  }

  lemma {:induction false} ObjsAllocated(t: Tree)
    ensures forall o :: o in Objs(t) ==> allocated(o)
    decreases t
  {
    forall o | o in Objs(t) ensures allocated(o) {
      if o !in Own(t.node) {
        var i := InKid(t, |t.kids|, o);
        ObjsAllocated(t.kids[i]);
      }
    }
  }

  /** A subtree whose memory did not change. */
  twostate lemma LinkedFrame(new t: Tree, new d: nat, new same: set<object>)
    requires old(allocated(t)) && old(allocated(same))
    requires old(Linked(t, d)) && Objs(t) <= same && unchanged(same)
    ensures Linked(t, d)
  {}

  // ---- loops over arrays ---------------------------------------------------------------

  /** Moves the elements from `lo` to `hi` one place up. */
  method MoveUp<T>(a: array<T>, lo: nat, hi: nat)
    requires lo <= hi < a.Length
    modifies a
    ensures a[..lo] == old(a[..lo]) && a[lo + 1..hi + 1] == old(a[lo..hi]) && a[hi + 1..] == old(a[hi + 1..])
  {
    var j := hi;
    while j > lo
      invariant lo <= j <= hi && a[..j] == old(a[..j]) && a[j + 1..hi + 1] == old(a[j..hi]) && a[hi + 1..] == old(a[hi + 1..])
    {
      a[j] := a[j - 1];
      j := j - 1;
    }
  }

  /** Moves the elements from `lo` to `hi` one place down, onto the one before `lo`. */
  method MoveDown<T>(a: array<T>, lo: nat, hi: nat)
    requires 0 < lo <= hi <= a.Length
    modifies a
    ensures a[..lo - 1] == old(a[..lo - 1]) && a[lo - 1..hi - 1] == old(a[lo..hi]) && a[hi - 1..] == old(a[hi - 1..])
  {
    for j := lo to hi
      invariant a[..lo - 1] == old(a[..lo - 1]) && a[lo - 1..j - 1] == old(a[lo..j]) && a[j - 1..] == old(a[j - 1..])
    {
      a[j - 1] := a[j];
    }
  }

  /** Copies `n` elements from position `from` of one array to position `to` of another. */
  method Copy<T>(a: array<T>, from: nat, b: array<T>, to: nat, n: nat)
    requires a != b && from + n <= a.Length && to + n <= b.Length
    modifies b
    ensures b[..to] == old(b[..to]) && b[to..to + n] == a[from..from + n] && b[to + n..] == old(b[to + n..])
  {
    for j := 0 to n
      invariant b[..to] == old(b[..to]) && b[to..to + j] == a[from..from + j] && b[to + j..] == old(b[to + j..])
    {
      b[to + j] := a[from + j];
    }
  }

  // ---- splitting -----------------------------------------------------------------------

  /** The subtrees of `u` are among those of `t`. */
  lemma ObjsAmong(t: Tree, u: Tree)
    requires forall i :: 0 <= i < |u.kids| ==> u.kids[i] in t.kids
    ensures Objs(u) <= Own(u.node) + Objs(t)
  {
    forall o | o in Objs(u) ensures o in Own(u.node) + Objs(t) {
      if o !in Own(u.node) {
        var i := InKid(u, |u.kids|, o);
        assert u.kids[i] in t.kids;
        var j :| 0 <= j < |t.kids| && t.kids[j] == u.kids[i];
      }
    }
  }

  lemma HalvesObjs(y: Tree, d: nat, z: BNode)
    requires 0 < d && |y.keys| == 2 * d - 1 && Wide(y)
    ensures Objs(LowHalf(y, d)) <= Objs(y) && Objs(HighHalf(y, d, z)) <= Objs(y) + Own(z)
    ensures Objs(LowHalf(y, d)) + Objs(HighHalf(y, d, z)) == Objs(y) + Own(z)
  {
    var a, b := LowHalf(y, d), HighHalf(y, d, z);
    ObjsAmong(y, a);
    ObjsAmong(y, b);
    forall o | o in Objs(y) ensures o in Objs(a) + Objs(b) {
      if o !in Own(y.node) {
        var i := InKid(y, |y.kids|, o);
        assert y.kids[i] == if i < d then a.kids[i] else b.kids[i - d];
      }
    }
  }

  lemma HalvesSep(y: Tree, d: nat, z: BNode)
    requires 0 < d && |y.keys| == 2 * d - 1 && Wide(y) && Sep(y) && Own(z) !! Objs(y)
    ensures Sep(LowHalf(y, d)) && Sep(HighHalf(y, d, z)) && Objs(LowHalf(y, d)) !! Objs(HighHalf(y, d, z))
  {
    hide Objs, LowHalf, HighHalf;
    var a, b := LowHalf(y, d), HighHalf(y, d, z);
    HalvesParts(y, d, z);
    HalvesObjs(y, d, z);
    forall i, j | 0 <= i < |a.kids| && 0 <= j < |b.kids| ensures Objs(a.kids[i]) !! Objs(b.kids[j]) {
      assert Objs(y.kids[i]) !! Objs(y.kids[d + j]);
    }
    KidsApart(a, b);
    KidsAvoid(b, Own(y.node));
    ObjsAre(y);
    ObjsAre(a);
    ObjsAre(b);
    forall i, j | 0 <= i < j < |b.kids| ensures Objs(b.kids[i]) !! Objs(b.kids[j]) {
      assert Objs(y.kids[d + i]) !! Objs(y.kids[d + j]);
    }
    forall j | 0 <= j < |b.kids| ensures Own(z) !! Objs(b.kids[j]) {
      assert Objs(y.kids[d + j]) <= Objs(y);
    }
  }

  lemma HalvesParts(y: Tree, d: nat, z: BNode)
    requires 0 < d && |y.keys| == 2 * d - 1 && Wide(y)
    ensures var a := LowHalf(y, d);
      a.node == y.node && |a.kids| <= |y.kids| && forall i :: 0 <= i < |a.kids| ==> a.kids[i] == y.kids[i]
    ensures var b := HighHalf(y, d, z);
      b.node == z && (b.kids != [] ==> |y.kids| == d + |b.kids| && |LowHalf(y, d).kids| == d)
      && forall i :: 0 <= i < |b.kids| ==> b.kids[i] == y.kids[d + i]
  {}

  /** The loops that fill the new node. */
  method CopyHalf(y: BNode, z: BNode, d: nat)
    requires d >= 2 && Own(y) !! Own(z) && y.keys.Length == z.keys.Length == 2 * d - 1
    requires y.childrens.Length == z.childrens.Length == 6 * d
    modifies z`num, z.keys, z.childrens
    ensures z.num == d - 1 && z.keys[..d - 1] == y.keys[d..]
    ensures !y.leaf ==> z.childrens[..d] == y.childrens[d..2 * d]
  {
    z.num := d - 1;
    Copy(y.keys, d, z.keys, 0, d - 1);
    assert z.keys[..d - 1] == z.keys[0..d - 1];
    if !y.leaf {
      Copy(y.childrens, d, z.childrens, 0, d);
      assert z.childrens[..d] == z.childrens[0..d];
    }
  }

  twostate lemma LowLinked(new t: Tree, new d: nat, new same: set<object>)
    requires old(allocated(t)) && old(allocated(same))
    requires d >= 2 && old(Linked(t, d)) && Sep(t) && |t.keys| == 2 * d - 1
    requires t.node.num == d - 1 && t.node.leaf == old(t.node.leaf)
    requires Objs(t) - {t.node} <= same && unchanged(same)
    ensures Linked(LowHalf(t, d), d)
  {
    var a := LowHalf(t, d);
    assert t.node.keys[..d - 1] == old(t.node.keys[..t.node.num])[..d - 1];
    forall i | 0 <= i < |a.kids| ensures Linked(a.kids[i], d) {
      assert a.kids[i] == t.kids[i];
      LinkedFrame(t.kids[i], d, same);
    }
  }

  twostate lemma HighLinked(new t: Tree, new d: nat, new z: BNode, new same: set<object>)
    requires old(allocated(t)) && old(allocated(same))
    requires d >= 2 && old(Linked(t, d)) && Sep(t) && |t.keys| == 2 * d - 1
    requires t.node.leaf == old(t.node.leaf) && Objs(t) - {t.node} <= same && unchanged(same)
    requires z.keys.Length == 2 * d - 1 && z.childrens.Length == 6 * d && z.leaf == t.node.leaf
    requires z.num == d - 1 && z.keys[..d - 1] == t.node.keys[d..]
    requires !t.node.leaf ==> z.childrens[..d] == t.node.childrens[d..2 * d]
    ensures Linked(HighHalf(t, d, z), d)
  {
    var b := HighHalf(t, d, z);
    assert t.node.keys[d..] == old(t.node.keys[..t.node.num])[d..];
    forall i | 0 <= i < |b.kids| ensures Linked(b.kids[i], d) && z.childrens[i] == b.kids[i].node {
      assert b.kids[i] == t.kids[d + i];
      LinkedFrame(t.kids[d + i], d, same);
      assert z.childrens[..d][i] == t.node.childrens[d..2 * d][i];
    }
  }

  /** The full node `y` keeps its lower half; the new node gets the upper one. */
  method SplitNode(y: BNode, d: nat, ghost t: Tree) returns (z: BNode)
    requires d >= 2 && Linked(t, d) && Sep(t) && t.node == y && |t.keys| == 2 * d - 1
    modifies y`num
    ensures fresh(Own(z)) && Linked(LowHalf(t, d), d) && Linked(HighHalf(t, d, z), d)
    ensures y.keys[d - 1] == t.keys[d - 1]
  {
    hide Linked;
    ghost var same := Objs(t) - {y};
    ObjsAllocated(t);
    NodeHolds(t, d);
    z := new BNode(d, y.leaf);
    CopyHalf(y, z, d);
    y.num := d - 1;
    LowLinked(t, d, same);
    HighLinked(t, d, z, same);
  }

  lemma NodeHolds(t: Tree, d: nat)
    requires Linked(t, d)
    ensures Wide(t) && Holds(t.node, t.keys, t.kids, d)
    ensures forall i :: 0 <= i < |t.keys| ==> t.node.keys[i] == t.keys[i]
    ensures forall i :: 0 <= i < |t.kids| ==> Linked(t.kids[i], d) && Objs(t.kids[i]) <= Objs(t) && t.kids[i].node in Objs(t)
  {
    assert forall i :: 0 <= i < |t.keys| ==> t.node.keys[..t.node.num][i] == t.keys[i];
  }

  /** The pointers after one was put between those at `i` and `i + 1`. */
  lemma Opened(cs: seq<BNode?>, now: seq<BNode?>, i: nat, n: nat, kids: seq<Tree>, kids': seq<Tree>)
    requires i <= n && |kids| == n + 1 && |kids'| == n + 2 && n + 1 < |cs| && n + 1 < |now|
    requires now[..i + 1] == cs[..i + 1] && now[i + 1] == kids'[i + 1].node && now[i + 2..n + 2] == cs[i + 1..n + 1]
    requires forall j :: 0 <= j < |kids| ==> cs[j] == kids[j].node
    requires forall j :: 0 <= j < |kids| ==> kids[j].node == kids'[if j <= i then j else j + 1].node
    ensures forall j :: 0 <= j < |kids'| ==> now[j] == kids'[j].node
  {
    forall j | 0 <= j < |kids'| ensures now[j] == kids'[j].node {
      if j <= i {
        assert now[j] == now[..i + 1][j] == cs[..i + 1][j];
      } else if j > i + 1 {
        assert now[j] == now[i + 2..n + 2][j - i - 2] == cs[i + 1..n + 1][j - i - 2] == cs[j - 1];
        assert kids[j - 1].node == kids'[if j - 1 <= i then j - 1 else j].node;
      }
    }
  }

  /** The loops that put a key and the child behind it into a node. */
  method InsertChild(x: BNode, i: nat, z: BNode, k: int, ghost d: nat, ghost keys: seq<int>, ghost kids: seq<Tree>,
                     ghost kids': seq<Tree>)
    requires d >= 2 && Holds(x, keys, kids, d) && |kids| == |keys| + 1 && i <= |keys| < 2 * d - 1
    requires |kids'| == |kids| + 1 && kids'[i + 1].node == z
    requires forall j :: 0 <= j < |kids| ==> kids[j].node == kids'[if j <= i then j else j + 1].node
    modifies x`num, x.keys, x.childrens
    ensures Holds(x, keys[..i] + [k] + keys[i..], kids', d)
  {
    ghost var cs, ks := x.childrens[..], x.keys[..];
    MoveUp(x.childrens, i + 1, x.num + 1);
    x.childrens[i + 1] := z;
    MoveUp(x.keys, i, x.num);
    x.keys[i] := k;
    x.num := x.num + 1;
    Opened(cs, x.childrens[..], i, |keys|, kids, kids');
    KeyPut(ks, x.keys[..], i, k, keys);
  }

  lemma KeyPut(ks: seq<int>, now: seq<int>, i: nat, k: int, keys: seq<int>)
    requires i <= |keys| < |ks| == |now| && ks[..|keys|] == keys
    requires now[..i] == ks[..i] && now[i] == k && now[i + 1..|keys| + 1] == ks[i..|keys|]
    ensures now[..|keys| + 1] == keys[..i] + [k] + keys[i..]
  {
    assert now[..i] == keys[..i] && now[i + 1..|keys| + 1] == keys[i..];
    assert now[..|keys| + 1] == now[..i] + [now[i]] + now[i + 1..|keys| + 1];
  }

  ghost function SplitPart(t: Tree, i: nat, d: nat, z: BNode, j: nat): Tree
    requires Wide(t) && i < |t.kids| && d > 0 && |t.kids[i].keys| == 2 * d - 1 && Wide(t.kids[i]) && j <= |t.kids|
  {
    if j < i then t.kids[j] else if j == i then LowHalf(t.kids[i], d) else if j == i + 1 then HighHalf(t.kids[i], d, z)
    else t.kids[j - 1]
  }

  lemma SplitParts(t: Tree, i: nat, d: nat, z: BNode)
    requires Wide(t) && i < |t.kids| && d > 0 && |t.kids[i].keys| == 2 * d - 1 && Wide(t.kids[i])
    ensures var s := Split(t, i, d, z);
      s.node == t.node && |s.kids| == |t.kids| + 1 && forall j :: 0 <= j < |s.kids| ==> s.kids[j] == SplitPart(t, i, d, z, j)
    ensures var s := Split(t, i, d, z);
      (&& s.kids[i].node == t.kids[i].node && s.kids[i + 1].node == z
       && s.keys == t.keys[..i] + [t.kids[i].keys[d - 1]] + t.keys[i..])
    ensures forall j :: 0 <= j < |t.kids| ==> t.kids[j].node == Split(t, i, d, z).kids[if j <= i then j else j + 1].node
  {}

  lemma SplitObjs(t: Tree, i: nat, d: nat, z: BNode)
    requires Wide(t) && i < |t.kids| && d > 0 && |t.kids[i].keys| == 2 * d - 1 && Wide(t.kids[i])
    ensures Objs(Split(t, i, d, z)) == Objs(t) + Own(z)
  {
    SplitObjsFrom(t, i, d, z);
    SplitObjsTo(t, i, d, z);
  }

  lemma SplitObjsFrom(t: Tree, i: nat, d: nat, z: BNode)
    requires Wide(t) && i < |t.kids| && d > 0 && |t.kids[i].keys| == 2 * d - 1 && Wide(t.kids[i])
    ensures Objs(Split(t, i, d, z)) <= Objs(t) + Own(z)
  {
    hide Split, LowHalf, HighHalf;
    var s := Split(t, i, d, z);
    HalvesObjs(t.kids[i], d, z);
    SplitParts(t, i, d, z);
    forall o | o in Objs(s) ensures o in Objs(t) + Own(z) {
      if o !in Own(t.node) { var j := InKid(s, |s.kids|, o); }
    }
  }

  /** The subtrees beside the split one stay. */
  lemma SplitOther(t: Tree, i: nat, d: nat, z: BNode, j: nat)
    requires Wide(t) && i < |t.kids| && d > 0 && |t.kids[i].keys| == 2 * d - 1 && Wide(t.kids[i]) && j < |t.kids| && j != i
    ensures Objs(t.kids[j]) <= Objs(Split(t, i, d, z))
  {
    hide Split, LowHalf, HighHalf, Own;
    SplitParts(t, i, d, z);
    assert Split(t, i, d, z).kids[if j < i then j else j + 1] == t.kids[j];
  }

  lemma SplitObjsTo(t: Tree, i: nat, d: nat, z: BNode)
    requires Wide(t) && i < |t.kids| && d > 0 && |t.kids[i].keys| == 2 * d - 1 && Wide(t.kids[i])
    ensures Objs(t) + Own(z) <= Objs(Split(t, i, d, z))
  {
    hide Split, LowHalf, HighHalf;
    var s := Split(t, i, d, z);
    HalvesObjs(t.kids[i], d, z);
    SplitParts(t, i, d, z);
    forall o | o in Objs(t) ensures o in Objs(s) {
      if o !in Own(t.node) {
        var j := InKid(t, |t.kids|, o);
        if j != i { SplitOther(t, i, d, z, j); }
      }
    }
    assert Own(z) <= Objs(s.kids[i]) + Objs(s.kids[i + 1]);
  }

  lemma SplitApart(t: Tree, i: nat, d: nat, z: BNode, j: nat, k: nat)
    requires Wide(t) && i < |t.kids| && d > 0 && |t.kids[i].keys| == 2 * d - 1 && Wide(t.kids[i])
    requires Sep(t) && Own(z) !! Objs(t) && j < k <= |t.kids|
    ensures Objs(SplitPart(t, i, d, z, j)) !! Objs(SplitPart(t, i, d, z, k))
  {
    hide LowHalf, HighHalf, Objs;
    SepParts(t, i);
    HalvesObjs(t.kids[i], d, z);
    HalvesSep(t.kids[i], d, z);
  }

  lemma SplitSep(t: Tree, i: nat, d: nat, z: BNode)
    requires Wide(t) && i < |t.kids| && d > 0 && |t.kids[i].keys| == 2 * d - 1 && Wide(t.kids[i])
    requires Sep(t) && Own(z) !! Objs(t)
    ensures Sep(Split(t, i, d, z))
  {
    hide Split, LowHalf, HighHalf, Objs;
    var s := Split(t, i, d, z);
    SepParts(t, i);
    HalvesObjs(t.kids[i], d, z);
    HalvesSep(t.kids[i], d, z);
    SplitParts(t, i, d, z);
    forall j, k | 0 <= j < k < |s.kids| ensures Objs(s.kids[j]) !! Objs(s.kids[k]) { SplitApart(t, i, d, z, j, k); }
  }

  /** btree_split_child. */
  method SplitChild(x: BNode, i: nat, d: nat, ghost t: Tree) returns (ghost z: BNode)
    requires d >= 2 && Linked(t, d) && Sep(t) && t.node == x && i < |t.kids| && |t.keys| < 2 * d - 1
    requires |t.kids[i].keys| == 2 * d - 1
    modifies x`num, x.keys, x.childrens, t.kids[i].node`num
    ensures fresh(Own(z)) && Wide(t.kids[i]) && Wide(t)
    ensures var s := Split(t, i, d, z); Linked(s, d) && Sep(s) && Objs(s) == Objs(t) + Own(z)
  {
    hide Linked, Sep, Objs, Split, LowHalf, HighHalf;
    NodeHolds(t, d);
    NodeHolds(t.kids[i], d);
    SepParts(t, i);
    ObjsAllocated(t);
    var y: BNode := x.childrens[i];
    label before:
    var w := SplitNode(y, d, t.kids[i]);
    z := w;
    ghost var s := Split(t, i, d, w);
    HalvesObjs(t.kids[i], d, w);
    ObjsAllocated(LowHalf(t.kids[i], d));
    ObjsAllocated(HighHalf(t.kids[i], d, w));
    SplitParts(t, i, d, w);
    InsertChild(x, i, w, y.keys[d - 1], d, t.keys, t.kids, s.kids);
    SplitObjs(t, i, d, w);
    SplitSep(t, i, d, w);
    SplitLinked@before(t, i, d, w, Objs(t) - Own(x) - {y});
  }

  lemma SepParts(t: Tree, i: nat)
    requires Sep(t) && i < |t.kids|
    ensures Sep(t.kids[i]) && Own(t.node) !! Objs(t.kids[i]) && Own(t.node) <= Objs(t) && Own(t.kids[i].node) <= Objs(t.kids[i])
    ensures forall j :: 0 <= j < |t.kids| && j != i ==> Objs(t.kids[j]) !! Objs(t.kids[i]) && Own(t.node) !! Objs(t.kids[j])
    ensures forall j :: 0 <= j < |t.kids| ==> Objs(t.kids[j]) <= Objs(t)
  {}

  twostate lemma SplitLinked(new t: Tree, new i: nat, new d: nat, new z: BNode, new same: set<object>)
    requires old(allocated(t)) && old(allocated(same))
    requires Wide(t) && i < |t.kids| && d > 0 && |t.kids[i].keys| == 2 * d - 1 && Wide(t.kids[i]) && Sep(t)
    requires old(Linked(t, d)) && Objs(t) - Own(t.node) - {t.kids[i].node} <= same && unchanged(same)
    requires var s := Split(t, i, d, z); Holds(s.node, s.keys, s.kids, d)
    requires Linked(LowHalf(t.kids[i], d), d) && Linked(HighHalf(t.kids[i], d, z), d)
    ensures Linked(Split(t, i, d, z), d)
  {
    hide Sep, Objs;
    var s := Split(t, i, d, z);
    SepParts(t, i);
    SplitParts(t, i, d, z);
    forall j | 0 <= j < |s.kids| ensures Linked(s.kids[j], d) {
      assert SplitPart(t, i, d, z, j) == s.kids[j];
      if j < i { LinkedFrame(t.kids[j], d, same); }
      if j > i + 1 { LinkedFrame(t.kids[j - 1], d, same); }
    }
  }

  // ---- inserting ---------------------------------------------------------------------------

  /** The loop for a leaf: moves the larger keys one place up. */
  method MoveLarger(a: array<int>, n: nat, k: int) returns (i: nat)
    requires n < a.Length
    modifies a
    ensures i <= n && a[..i] == old(a[..i]) && a[i + 1..n + 1] == old(a[i..n])
    ensures (i > 0 ==> a[i - 1] <= k) && forall j :: i <= j < n ==> old(a[j]) > k
  {
    i := n;
    while i > 0 && a[i - 1] > k
      invariant i <= n && a[..i] == old(a[..i]) && a[i + 1..n + 1] == old(a[i..n])
      invariant forall j :: i <= j < n ==> old(a[j]) > k
    {
      assert a[i - 1] == a[..i][i - 1] == old(a[..i])[i - 1];
      a[i] := a[i - 1];
      i := i - 1;
    }
  }

  method InsertLeaf(x: BNode, k: int, d: nat, ghost keys: seq<int>)
    requires Holds(x, keys, [], d) && |keys| < 2 * d - 1 && Sorted(keys)
    modifies x`num, x.keys
    ensures Holds(x, InsertKey(keys, k), [], d)
  {
    hide Sorted, InsertKey;
    ghost var n, ks := |keys|, x.keys[..];
    assert ks[..n] == keys;
    var i := MoveLarger(x.keys, x.num, k);
    assert x.keys[..i] == ks[..i] == keys[..i] && x.keys[i + 1..n + 1] == ks[i..n] == keys[i..];
    assert forall j :: 0 <= j < n ==> ks[j] == ks[..n][j];
    assert i > 0 ==> x.keys[i - 1] == x.keys[..i][i - 1] == keys[i - 1];
    LeafPlace(keys, i, k);
    x.keys[i] := k;
    x.num := x.num + 1;
    assert x.keys[..x.num] == x.keys[..i] + [x.keys[i]] + x.keys[i + 1..n + 1];
  }

  lemma LeafPlace(keys: seq<int>, i: nat, k: int)
    requires Sorted(keys) && i <= |keys| && (i > 0 ==> keys[i - 1] <= k) && forall j :: i <= j < |keys| ==> keys[j] > k
    ensures InsertKey(keys, k) == keys[..i] + [k] + keys[i..] && |InsertKey(keys, k)| == |keys| + 1
  {
    forall j | 0 <= j < i ensures keys[..i][j] <= k { assert keys[j] <= keys[i - 1]; }
    InsertBetween(keys[..i], keys[i..], k);
    assert keys == keys[..i] + keys[i..];
  }

  /** The loop for an inner node: the child for the key. */
  method FindChild(x: BNode, k: int, ghost d: nat, ghost keys: seq<int>, ghost kids: seq<Tree>) returns (c: nat)
    requires Holds(x, keys, kids, d) && Sorted(keys)
    ensures c <= |keys| && (c > 0 ==> keys[c - 1] <= k) && (c < |keys| ==> keys[c] > k)
  {
    c := x.num;
    while c > 0 && x.keys[c - 1] > k
      invariant c <= |keys| && (c < |keys| ==> keys[c] > k)
    {
      assert x.keys[c - 1] == x.keys[..x.num][c - 1];
      c := c - 1;
    }
    if c > 0 { assert x.keys[c - 1] == x.keys[..x.num][c - 1]; }
  }

  /** One subtree was replaced by another on the same node. */
  twostate lemma KidReplaced(new t: Tree, new c: nat, new u: Tree, new d: nat, new same: set<object>)
    requires old(allocated(t)) && old(allocated(same))
    requires old(Linked(t, d)) && Sep(t) && c < |t.kids| && u.node == t.kids[c].node && Linked(u, d)
    requires Objs(t) - Objs(t.kids[c]) <= same && unchanged(same)
    ensures Linked(WithKid(t, c, u), d)
  {
    hide Sep, Objs;
    var t' := WithKid(t, c, u);
    SepParts(t, c);
    forall j | 0 <= j < |t'.kids| ensures Linked(t'.kids[j], d) {
      if j != c { LinkedFrame(t.kids[j], d, same); }
    }
  }

  lemma KidSep(t: Tree, c: nat, u: Tree)
    requires Sep(t) && c < |t.kids| && Sep(u) && Objs(t.kids[c]) <= Objs(u) && (Objs(u) - Objs(t.kids[c])) !! Objs(t)
    ensures Sep(WithKid(t, c, u)) && Objs(WithKid(t, c, u)) == Objs(t) + Objs(u)
  {
    var t' := WithKid(t, c, u);
    SepParts(t, c);
    forall j, k | 0 <= j < k < |t'.kids| ensures Objs(t'.kids[j]) !! Objs(t'.kids[k]) {
      assert Objs(t.kids[j]) !! Objs(t.kids[k]);
    }
    forall o | o in Objs(t') ensures o in Objs(t) + Objs(u) {
      if o !in Own(t.node) { var j := InKid(t', |t'.kids|, o); }
    }
    forall o | o in Objs(t) + Objs(u) ensures o in Objs(t') {
      assert t'.kids[c] == u;
      if o !in Own(t.node) + Objs(u) {
        var j := InKid(t, |t.kids|, o);
        assert t'.kids[j] == t.kids[j];
      }
    }
  }

  /** What an insertion does to a subtree. */
  ghost predicate Inserted(t: Tree, t': Tree, k: int, d: nat, h: nat)
  {
    && t'.node == t.node && Balanced(t, d, h) && Balanced(t', d, h) && |t'.keys| >= |t.keys| && Objs(t) <= Objs(t') && Sep(t')
    && AllWide(t) && AllWide(t') && In(t') == InsertKey(In(t), k)
  }

  /** The parts of an insertion fit together. */
  lemma InsertedBelow(t: Tree, c: nat, u: Tree, k: int, d: nat, h: nat)
    requires d >= 2 && Balanced(t, d, h) && Sep(t) && c < |t.kids| && h > 0 && AllWide(t) && Sorted(In(t))
    requires Inserted(t.kids[c], u, k, d, h - 1) && (Objs(u) - Objs(t.kids[c])) !! Objs(t)
    requires (c > 0 ==> t.keys[c - 1] <= k) && (c < |t.keys| ==> t.keys[c] >= k)
    ensures Inserted(t, WithKid(t, c, u), k, d, h)
  {
    InsertIntoKid(t, c, u, k);
    KidSep(t, c, u);
    assert |t.kids[c].keys| >= d - 1;
    hide In, Sep, Objs, AllWide, Sorted;
    BelowBalanced(t, c, u, d, h);
  }

  lemma BelowBalanced(t: Tree, c: nat, u: Tree, d: nat, h: nat)
    requires Balanced(t, d, h) && c < |t.kids| && h > 0 && Balanced(u, d, h - 1) && |u.keys| >= d - 1
    ensures Balanced(WithKid(t, c, u), d, h)
  {
    var t' := WithKid(t, c, u);
    forall i | 0 <= i < |t'.kids| ensures Balanced(t'.kids[i], d, h - 1) && |t'.kids[i].keys| >= d - 1 {
      assert i != c ==> t'.kids[i] == t.kids[i];
    }
  }

  /** btree_insert_nonfull. */
  method InsertNonfull(x: BNode, k: int, d: nat, ghost t: Tree, ghost h: nat) returns (ghost t': Tree)
    requires d >= 2 && Linked(t, d) && Sep(t) && t.node == x && Balanced(t, d, h) && |t.keys| < 2 * d - 1
    requires AllWide(t) && Sorted(In(t))
    modifies Objs(t)
    ensures Linked(t', d) && Inserted(t, t', k, d, h) && fresh(Objs(t') - Objs(t))
    decreases h, 1
  {
    NodeHolds(t, d);
    KeysSorted(t);
    if x.leaf {
      InsertLeaf(x, k, d, t.keys);
      t' := Tree(x, InsertKey(t.keys, k), []);
      InsertSorted(t.keys, k);
      LeafInserted(t, t', k, d);
    } else {
      t' := InsertInner(x, k, d, t, h);
    }
  }

  lemma LeafInserted(t: Tree, t': Tree, k: int, d: nat)
    requires Balanced(t, d, 0) && |t.keys| < 2 * d - 1 && t' == Tree(t.node, InsertKey(t.keys, k), []) && Sorted(t.keys)
    ensures Inserted(t, t', k, d, 0) && Objs(t') == Objs(t)
  {
    InsertSorted(t.keys, k);
    assert |multiset(t'.keys)| == |multiset(t.keys)| + 1;
  }

  /** The child for the key, split first if it is full. */
  method MakeRoom(x: BNode, k: int, d: nat, ghost t: Tree, ghost h: nat) returns (c: nat, ghost s: Tree)
    requires d >= 2 && Linked(t, d) && Sep(t) && t.node == x && Balanced(t, d, h) && |t.keys| < 2 * d - 1 && h > 0
    requires AllWide(t) && Sorted(In(t))
    modifies Objs(t)
    ensures Linked(s, d) && Sep(s) && s.node == x && Balanced(s, d, h) && AllWide(s) && In(s) == In(t)
    ensures |s.keys| >= |t.keys| && Objs(t) <= Objs(s) && fresh(Objs(s) - Objs(t))
    ensures c < |s.kids| && |s.kids[c].keys| < 2 * d - 1
    ensures (c > 0 ==> s.keys[c - 1] <= k) && (c < |s.keys| ==> s.keys[c] >= k)
  {
    hide Linked, Sep, Objs, In, AllWide, Balanced, Sorted, Split;
    NodeHolds(t, d);
    KeysSorted(t);
    ObjsAllocated(t);
    c := FindChild(x, k, d, t.keys, t.kids);
    s := t;
    InnerHas(t, d, h, c);
    NodeHolds(t.kids[c], d);
    if x.childrens[c].num == 2 * d - 1 {
      c, s := SplitFull(x, c, k, d, t, h);
    }
  }

  /** The full child is split, and the half for the key chosen. */
  method SplitFull(x: BNode, c0: nat, k: int, d: nat, ghost t: Tree, ghost h: nat) returns (c: nat, ghost s: Tree)
    requires d >= 2 && Linked(t, d) && Sep(t) && t.node == x && Balanced(t, d, h) && |t.keys| < 2 * d - 1
    requires c0 < |t.kids| && |t.kids[c0].keys| == 2 * d - 1 && AllWide(t)
    requires (c0 > 0 ==> t.keys[c0 - 1] <= k) && (c0 < |t.keys| ==> t.keys[c0] > k)
    modifies Objs(t)
    ensures Linked(s, d) && Sep(s) && s.node == x && Balanced(s, d, h) && AllWide(s) && In(s) == In(t)
    ensures |s.keys| >= |t.keys| && Objs(t) <= Objs(s) && fresh(Objs(s) - Objs(t))
    ensures c < |s.kids| && |s.kids[c].keys| < 2 * d - 1
    ensures (c > 0 ==> s.keys[c - 1] <= k) && (c < |s.keys| ==> s.keys[c] >= k)
  {
    hide Linked, Sep, Objs, In, AllWide, Balanced, Split;
    SepParts(t, c0);
    ghost var z := SplitChild(x, c0, d, t);
    SplitKeeps(t, c0, d, z, h);
    s := Split(t, c0, d, z);
    SplitBounds(t, c0, d, z, k);
    SplitHalves(t, c0, d, z, h);
    SplitParts(t, c0, d, z);
    NodeHolds(s, d);
    c := c0;
    if k > x.keys[c] {
      c := c + 1;
    }
  }

  lemma InnerHas(t: Tree, d: nat, h: nat, c: nat)
    requires Balanced(t, d, h) && h > 0 && c <= |t.keys|
    ensures c < |t.kids| && |t.kids| == |t.keys| + 1 && Balanced(t.kids[c], d, h - 1) && |t.kids[c].keys| <= 2 * d - 1
    ensures |t.kids[c].keys| >= d - 1
  {}

  lemma SplitHalves(t: Tree, c: nat, d: nat, z: BNode, h: nat)
    requires d >= 2 && Balanced(t, d, h) && c < |t.kids| && |t.kids[c].keys| == 2 * d - 1 && |t.keys| < 2 * d - 1
    ensures Wide(t) && Wide(t.kids[c]) && var s := Split(t, c, d, z);
      (c + 1 < |s.kids| && |s.kids| == |s.keys| + 1 && |s.kids[c].keys| == d - 1 && |s.kids[c + 1].keys| == d - 1 && |s.keys| == |t.keys| + 1)
  {
    assert Balanced(t.kids[c], d, h - 1);
  }

  lemma SplitBounds(t: Tree, c: nat, d: nat, z: BNode, k: int)
    requires Wide(t) && c < |t.kids| && d > 0 && |t.kids[c].keys| == 2 * d - 1 && Wide(t.kids[c])
    requires (c > 0 ==> t.keys[c - 1] <= k) && (c < |t.keys| ==> t.keys[c] > k)
    ensures var s := Split(t, c, d, z);
      (&& c < |s.keys| && (c > 0 ==> s.keys[c - 1] <= k) && (c + 1 < |s.keys| ==> s.keys[c + 1] > k))
  {}

  /** The branch of btree_insert_nonfull for an inner node. */
  method InsertInner(x: BNode, k: int, d: nat, ghost t: Tree, ghost h: nat) returns (ghost t': Tree)
    requires d >= 2 && Linked(t, d) && Sep(t) && t.node == x && Balanced(t, d, h) && |t.keys| < 2 * d - 1 && h > 0
    requires AllWide(t) && Sorted(In(t))
    modifies Objs(t)
    ensures Linked(t', d) && Inserted(t, t', k, d, h) && fresh(Objs(t') - Objs(t))
    decreases h, 0, 1
  {
    hide Linked, Sep, Objs, In, AllWide, Balanced, Sorted, Inserted;
    var c;
    ghost var s;
    c, s := MakeRoom(x, k, d, t, h);
    label before:
    t' := InsertInto(x, c, k, d, s, h);
    InsertedNode(s, t', k, d, h);
    InsertedThrough(t, s, t', k, d, h);
    ghost var more, above := Objs(t') - Objs(s), Objs(s) - Objs(t);
    assert fresh@before(more);
    forall o | o in more ensures fresh(o) {
      assert !old@before(allocated(o));
    }
    assert fresh(more) && fresh(above);
    ghost var all := Objs(t') - Objs(t);
    assert all <= above + more;
    assert fresh(above + more);
    assert fresh(all);
  }

  /** The recursive call on the child for the key. */
  method InsertInto(x: BNode, c: nat, k: int, d: nat, ghost s: Tree, ghost h: nat) returns (ghost t': Tree)
    requires d >= 2 && Linked(s, d) && Sep(s) && s.node == x && Balanced(s, d, h) && AllWide(s) && Sorted(In(s))
    requires c < |s.kids| && |s.kids[c].keys| < 2 * d - 1
    requires (c > 0 ==> s.keys[c - 1] <= k) && (c < |s.keys| ==> s.keys[c] >= k)
    modifies Objs(s)
    ensures Linked(t', d) && Inserted(s, t', k, d, h) && fresh(Objs(t') - Objs(s))
    decreases h, 0, 0
  {
    hide Linked, Sep, Objs, In, AllWide, Balanced, Sorted, Inserted;
    NodeHolds(s, d);
    KidReady(s, d, h, c);
    SepParts(s, c);
    ObjsAllocated(s);
    label before:
    var child: BNode := x.childrens[c];
    ghost var u := InsertNonfull(child, k, d, s.kids[c], h - 1);
    InsertedNode(s.kids[c], u, k, d, h - 1);
    KidReplaced@before(s, c, u, d, Objs(s) - Objs(s.kids[c]));
    InsertedBelow(s, c, u, k, d, h);
    KidSep(s, c, u);
    t' := WithKid(s, c, u);
    assert Objs(t') - Objs(s) <= Objs(u) - Objs(s.kids[c]);
  }

  lemma KidReady(s: Tree, d: nat, h: nat, c: nat)
    requires Balanced(s, d, h) && AllWide(s) && c < |s.kids| && Sorted(In(s))
    ensures h > 0 && Balanced(s.kids[c], d, h - 1) && AllWide(s.kids[c]) && Sorted(In(s.kids[c]))
  {
    Around(s, c);
    MiddleSorted(Pre(s, c), In(s.kids[c]), Post(s, c));
  }

  lemma InsertedNode(t: Tree, u: Tree, k: int, d: nat, h: nat)
    requires Inserted(t, u, k, d, h)
    ensures u.node == t.node && Sep(u) && Objs(t) <= Objs(u)
  {}

  lemma InsertedThrough(t: Tree, s: Tree, t': Tree, k: int, d: nat, h: nat)
    requires Inserted(s, t', k, d, h) && s.node == t.node && Balanced(t, d, h) && AllWide(t) && In(s) == In(t)
    requires |s.keys| >= |t.keys| && Objs(t) <= Objs(s)
    ensures Inserted(t, t', k, d, h)
  {}

  class Root {
    var root: BNode?
    const t: nat

    ghost var shape: Tree
    ghost var height: nat

    ghost function Contents(): seq<int>
      reads this
    {
      if AllWide(shape) then In(shape) else []
    }

    /** Linked nodes, sorted keys, all leaves at one depth, and t - 1 to 2t - 1 keys in every
        node but the root. */
    ghost predicate Valid()
      reads this, Objs(shape)
    {
      && t >= 2 && root == shape.node && this !in Objs(shape) && Linked(shape, t) && Sep(shape) && Balanced(shape, t, height) && AllWide(shape)
      && Sorted(Contents()) && (height > 0 ==> shape.keys != [])
    }

    /** btree_create. */
    constructor (d: nat)
      requires d >= 2
      ensures Valid() && Contents() == [] && t == d && fresh(Objs(shape))
    {
      t := d;
      var x := new BNode(d, true);
      root := x;
      shape, height := Tree(x, [], []), 0;
    }

    /** btree_insert. */
    method Insert(key: int)
      requires Valid()
      modifies this, Objs(shape)
      ensures Valid() && Contents() == InsertKey(old(Contents()), key) && fresh(Objs(shape) - old(Objs(shape)))
    {
      hide Linked, Sep, Objs, In, AllWide, Balanced, Sorted, Inserted, InsertKey;
      ghost var s, h := shape, height;
      NodeHolds(s, t);
      InsertSorted(In(s), key);
      ghost var s';
      label before:
      if root.num == 2 * t - 1 {
        var node := Grow(root, t, s, h);
        root := node;
        label grown:
        ghost var u := Tree(node, [], [s]);
        s' := InsertSplit(node, key, t, u, h + 1);
        InsertedIs(u, s', key, t, h + 1);
        assert fresh@grown(Objs(s') - Objs(u));
        forall o | o in Objs(s') - Objs(u) ensures fresh(o) {
          assert !old@grown(allocated(o));
        }
        assert Objs(s') - Objs(s) <= Own(node) + (Objs(s') - Objs(u));
        height := h + 1;
      } else {
        s' := InsertNonfull(root, key, t, s, h);
        InsertedIs(s, s', key, t, h);
      }
      shape := s';
    }
  }

  lemma InsertedIs(t: Tree, t': Tree, k: int, d: nat, h: nat)
    requires Inserted(t, t', k, d, h)
    ensures t'.node == t.node && Balanced(t', d, h) && |t'.keys| >= |t.keys| && Objs(t) <= Objs(t') && Sep(t')
    ensures AllWide(t) && AllWide(t') && In(t') == InsertKey(In(t), k)
  {}

  /** The part of btree_insert behind a new root. */
  method InsertSplit(node: BNode, key: int, d: nat, ghost t: Tree, ghost h: nat) returns (ghost t': Tree)
    requires d >= 2 && Linked(t, d) && Sep(t) && t.node == node && Balanced(t, d, h) && AllWide(t) && Sorted(In(t)) && h > 0
    requires t.keys == [] && |t.kids| == 1 && |t.kids[0].keys| == 2 * d - 1
    modifies Objs(t)
    ensures Linked(t', d) && Inserted(t, t', key, d, h) && fresh(Objs(t') - Objs(t)) && t'.keys != []
  {
    hide Linked, Sep, Objs, In, AllWide, Balanced, Sorted, Inserted, Split;
    SepParts(t, 0);
    ghost var z := SplitChild(node, 0, d, t);
    SplitKeeps(t, 0, d, z, h);
    ghost var s := Split(t, 0, d, z);
    SplitHalves(t, 0, d, z, h);
    SplitParts(t, 0, d, z);
    NodeHolds(s, d);
    var i := 0;
    if node.keys[0] < key {
      i := i + 1;
    }
    label before:
    t' := InsertInto(node, i, key, d, s, h);
    InsertedNode(s, t', key, d, h);
    InsertedThrough(t, s, t', key, d, h);
    InsertedGrows(s, t', key, d, h);
    ghost var more, above := Objs(t') - Objs(s), Objs(s) - Objs(t);
    assert fresh@before(more);
    forall o | o in more ensures fresh(o) {
      assert !old@before(allocated(o));
    }
    assert fresh(more) && fresh(above);
    ghost var all := Objs(t') - Objs(t);
    assert all <= above + more;
    assert fresh(above + more);
    assert fresh(all);
  }

  lemma InsertedGrows(t: Tree, t': Tree, k: int, d: nat, h: nat)
    requires Inserted(t, t', k, d, h)
    ensures |t'.keys| >= |t.keys|
  {}

  /** A new root above a full one. */
  method Grow(r: BNode, d: nat, ghost t: Tree, ghost h: nat) returns (node: BNode)
    requires d >= 2 && Linked(t, d) && Sep(t) && Balanced(t, d, h) && AllWide(t) && t.node == r && |t.keys| == 2 * d - 1
    ensures fresh(Own(node))
    ensures var u := Tree(node, [], [t]);
      (&& Linked(u, d) && Sep(u) && Balanced(u, d, h + 1) && AllWide(u) && In(u) == In(t) && Objs(u) == Objs(t) + Own(node))
  {
    ObjsAllocated(t);
    node := new BNode(d, false);
    node.childrens[0] := r;
    ghost var u := Tree(node, [], [t]);
    assert Pre(u, 0) + In(t) == In(t);
    assert KidObjs(u, 1) == KidObjs(u, 0) + Objs(t);
  }
}
