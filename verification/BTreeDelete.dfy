/** The steps that deletion in code/tree/b-tree.c uses on its way down: merging two children
    and borrowing from a sibling, on linked nodes. */
module BTreeDelete {
  import opened BTree
  import opened BTreeShape

  /** Two subtrees that share no memory and are linked. */
  ghost predicate Pair(y: Tree, z: Tree, d: nat)
    reads Objs(y), Objs(z)
  {
    Linked(y, d) && Linked(z, d) && Sep(y) && Sep(z) && Objs(y) !! Objs(z) && (y.kids == [] <==> z.kids == [])
  }

  /** The subtrees of `t` are among those of `y` and `z`. */
  lemma KidsAmong(t: Tree, y: Tree, z: Tree)
    requires forall i :: 0 <= i < |t.kids| ==> t.kids[i] in y.kids || t.kids[i] in z.kids
    ensures Objs(t) <= Own(t.node) + Objs(y) + Objs(z)
  {
    hide Objs;
    forall i | 0 <= i < |t.kids| ensures Objs(t.kids[i]) <= Objs(y) + Objs(z) {
      if t.kids[i] in y.kids { KidWithin(y, t.kids[i]); } else { KidWithin(z, t.kids[i]); }
    }
    KidsWithin(t, Objs(y) + Objs(z));
    ObjsAre(t);
  }

  lemma KidWithin(t: Tree, u: Tree)
    requires u in t.kids
    ensures Objs(u) <= Objs(t)
  {
    var i :| 0 <= i < |t.kids| && t.kids[i] == u;
  }

  // ---- merging -----------------------------------------------------------------------------

  lemma MergedParts(y: Tree, k: int, z: Tree)
    ensures var m := Merged(y, k, z);
      |m.kids| == |y.kids| + |z.kids|
      && forall i :: 0 <= i < |m.kids| ==> m.kids[i] == if i < |y.kids| then y.kids[i] else z.kids[i - |y.kids|]
  {}

  lemma MergedSep(y: Tree, k: int, z: Tree)
    requires Sep(y) && Sep(z) && Objs(y) !! Objs(z)
    ensures Sep(Merged(y, k, z)) && Objs(Merged(y, k, z)) <= Objs(y) + Objs(z)
  {
    hide Merged;
    var m := Merged(y, k, z);
    MergedParts(y, k, z);
    assert m.node == y.node by { MergedNode(y, k, z); }
    KidsAmong(m, y, z);
    forall i, j | 0 <= i < j < |m.kids| ensures Objs(m.kids[i]) !! Objs(m.kids[j]) {
      if i < |y.kids| <= j { assert Objs(y.kids[i]) <= Objs(y) && Objs(z.kids[j - |y.kids|]) <= Objs(z); }
    }
  }

  lemma MergedNode(y: Tree, k: int, z: Tree)
    ensures Merged(y, k, z).node == y.node && Merged(y, k, z).keys == y.keys + [k] + z.keys
  {}

  /** The data part of btree_merge. */
  method MergeNodes(left: BNode, right: BNode, k: int, d: nat, ghost y: Tree, ghost z: Tree)
    requires d >= 2 && Pair(y, z, d) && y.node == left && z.node == right && |y.keys| == |z.keys| == d - 1
    modifies left`num, left.keys, left.childrens
    ensures Linked(Merged(y, k, z), d)
  {
    hide Linked, Objs, Sep;
    NodeHolds(y, d);
    NodeHolds(z, d);
    Apart(y, z);
    ObjsAllocated(y);
    ObjsAllocated(z);
    label before:
    CopyRight(left, right, k, d, y.keys, z.keys);
    left.num := left.num + d;
    MergedLinked@before(y, k, z, d, Objs(y) + Objs(z) - Own(left));
  }

  lemma Apart(y: Tree, z: Tree)
    requires Objs(y) !! Objs(z)
    ensures Own(y.node) !! Own(z.node) && Own(y.node) <= Objs(y) && Own(z.node) <= Objs(z)
  {}

  /** The loops of btree_merge over keys and children. */
  method CopyRight(left: BNode, right: BNode, k: int, d: nat, ghost ks: seq<int>, ghost js: seq<int>)
    requires d >= 2 && Own(left) !! Own(right) && |ks| == |js| == d - 1
    requires left.keys.Length == right.keys.Length == 2 * d - 1 && left.childrens.Length == right.childrens.Length == 6 * d
    requires left.keys[..d - 1] == ks && right.keys[..d - 1] == js
    modifies left.keys, left.childrens
    ensures left.keys[..2 * d - 1] == ks + [k] + js
    ensures left.childrens[..d] == old(left.childrens[..d])
    ensures !left.leaf ==> left.childrens[d..2 * d] == old(right.childrens[..d])
  {
    left.keys[d - 1] := k;
    assert left.keys[..d] == ks + [k];
    Copy(right.keys, 0, left.keys, d, d - 1);
    assert right.keys[0..d - 1] == js;
    assert left.keys[..2 * d - 1] == left.keys[..d] + left.keys[d..d + (d - 1)];
    if !left.leaf {
      Copy(right.childrens, 0, left.childrens, d, d);
      assert left.childrens[d..2 * d] == left.childrens[d..d + d];
      assert right.childrens[0..d] == right.childrens[..d];
    }
  }

  twostate lemma MergedLinked(new y: Tree, new k: int, new z: Tree, new d: nat, new same: set<object>)
    requires old(allocated(y)) && old(allocated(z)) && old(allocated(same))
    requires d >= 2 && old(Pair(y, z, d)) && |y.keys| == |z.keys| == d - 1
    requires Objs(y) + Objs(z) - Own(y.node) <= same && unchanged(same)
    requires y.node.num == 2 * d - 1 && y.node.leaf == old(y.node.leaf) && y.node.keys[..2 * d - 1] == y.keys + [k] + z.keys
    requires y.node.childrens[..d] == old(y.node.childrens[..d])
    requires !y.node.leaf ==> y.node.childrens[d..2 * d] == old(z.node.childrens[..d])
    ensures Linked(Merged(y, k, z), d)
  {
    var m := Merged(y, k, z);
    MergedParts(y, k, z);
    MergedPointers(y, k, z, d);
    forall i | 0 <= i < |m.kids| ensures Linked(m.kids[i], d) {
      if i < |y.kids| { LinkedFrame(y.kids[i], d, same); } else { LinkedFrame(z.kids[i - d], d, same); }
    }
  }

  twostate lemma MergedPointers(new y: Tree, new k: int, new z: Tree, new d: nat)
    requires old(allocated(y)) && old(allocated(z))
    requires d >= 2 && old(Pair(y, z, d)) && |y.keys| == |z.keys| == d - 1 && y.node.leaf == old(y.node.leaf)
    requires y.node.childrens[..d] == old(y.node.childrens[..d])
    requires !y.node.leaf ==> y.node.childrens[d..2 * d] == old(z.node.childrens[..d])
    ensures forall i :: 0 <= i < |Merged(y, k, z).kids| ==> y.node.childrens[i] == Merged(y, k, z).kids[i].node
  {
    var m := Merged(y, k, z);
    forall i | 0 <= i < |m.kids| ensures y.node.childrens[i] == m.kids[i].node {
      if i < d {
        assert y.node.childrens[i] == y.node.childrens[..d][i] == old(y.node.childrens[..d])[i];
      } else {
        assert y.node.childrens[i] == y.node.childrens[d..2 * d][i - d] == old(z.node.childrens[..d])[i - d];
      }
    }
  }

  // ---- two neighbouring children -------------------------------------------------------------

  /** The tree with its children `i` and `i + 1` replaced, and the key between them. */
  function WithPair(t: Tree, i: nat, y: Tree, k: int, z: Tree): Tree
    requires i < |t.keys| && i + 1 < |t.kids|
  {
    Tree(t.node, t.keys[i := k], t.kids[i := y][i + 1 := z])
  }

  lemma PairOf(t: Tree, i: nat, d: nat, h: nat)
    requires Linked(t, d) && Sep(t) && Balanced(t, d, h) && i < |t.keys| && h > 0
    ensures i + 1 < |t.kids| && Pair(t.kids[i], t.kids[i + 1], d)
    ensures i < t.node.keys.Length && i + 1 < t.node.childrens.Length && |t.keys| <= 2 * d - 1
    ensures t.node.keys[i] == t.keys[i] && t.node.childrens[i] == t.kids[i].node && t.node.childrens[i + 1] == t.kids[i + 1].node
    ensures Objs(t.kids[i]) + Objs(t.kids[i + 1]) <= Objs(t)
    ensures Own(t.node) !! Objs(t.kids[i]) + Objs(t.kids[i + 1]) && Own(t.node) <= Objs(t)
  {
    SiblingsBalanced(t, i, d, h);
    NodeHolds(t, d);
  }

  lemma PairSep(t: Tree, i: nat, y: Tree, k: int, z: Tree)
    requires Sep(t) && i < |t.keys| && i + 1 < |t.kids| && Sep(y) && Sep(z) && Objs(y) !! Objs(z)
    requires Objs(y) + Objs(z) <= Objs(t.kids[i]) + Objs(t.kids[i + 1])
    ensures Sep(WithPair(t, i, y, k, z)) && Objs(WithPair(t, i, y, k, z)) <= Objs(t)
  {
    var b := WithPair(t, i, y, k, z);
    forall j, l | 0 <= j < l < |b.kids| ensures Objs(b.kids[j]) !! Objs(b.kids[l]) {
      assert Objs(t.kids[j]) !! Objs(t.kids[l]);
      assert l != i && l != i + 1 ==> Objs(t.kids[i]) !! Objs(t.kids[l]) && Objs(t.kids[i + 1]) !! Objs(t.kids[l]);
      assert j != i && j != i + 1 ==> Objs(t.kids[j]) !! Objs(t.kids[i]) && Objs(t.kids[j]) !! Objs(t.kids[i + 1]);
    }
    forall o | o in Objs(b) ensures o in Objs(t) {
      if o !in Own(t.node) {
        var j := InKid(b, |b.kids|, o);
        assert j != i && j != i + 1 ==> b.kids[j] == t.kids[j];
      }
    }
  }

  twostate lemma PairLinked(new t: Tree, new i: nat, new y: Tree, new k: int, new z: Tree, new d: nat, new same: set<object>)
    requires old(allocated(t)) && old(allocated(y)) && old(allocated(z)) && old(allocated(same))
    requires old(Linked(t, d)) && Sep(t) && i < |t.keys| && i + 1 < |t.kids| && Linked(y, d) && Linked(z, d)
    requires y.node == t.kids[i].node && z.node == t.kids[i + 1].node
    requires t.node.num == old(t.node.num) && t.node.leaf == old(t.node.leaf)
    requires t.node.childrens[..] == old(t.node.childrens[..]) && t.node.keys[..] == old(t.node.keys[..])[i := k]
    requires Objs(t) - Own(t.node) - Objs(t.kids[i]) - Objs(t.kids[i + 1]) <= same && unchanged(same)
    ensures Linked(WithPair(t, i, y, k, z), d)
  {
    hide Objs, Sep;
    var b := WithPair(t, i, y, k, z);
    SepParts(t, i);
    SepParts(t, i + 1);
    assert t.node.keys[..t.node.num] == old(t.node.keys[..t.node.num])[i := k];
    forall j | 0 <= j < |t.kids| ensures t.node.childrens[j] == b.kids[j].node {
      assert t.node.childrens[j] == t.node.childrens[..][j] == old(t.node.childrens[..])[j];
    }
    forall j | 0 <= j < |b.kids| ensures Linked(b.kids[j], d) {
      if j != i && j != i + 1 { LinkedFrame(t.kids[j], d, same); }
    }
  }

  // ---- btree_merge ---------------------------------------------------------------------------

  /** The last loop of btree_merge: the key and the pointer to the right child go. */
  method RemoveRight(x: BNode, i: nat, ghost d: nat, ghost keys: seq<int>, ghost kids: seq<Tree>, ghost kids': seq<Tree>)
    requires d >= 2 && Holds(x, keys, kids, d) && |kids| == |keys| + 1 && i < |keys|
    requires |kids'| == |kids| - 1 && kids' != []
    requires forall j :: 0 <= j < |kids'| ==> kids'[j].node == kids[if j <= i then j else j + 1].node
    modifies x`num, x.keys, x.childrens
    ensures Holds(x, keys[..i] + keys[i + 1..], kids', d)
  {
    ghost var n, cs, ks := |keys|, x.childrens[..], x.keys[..];
    MoveDown(x.keys, i + 1, x.num);
    MoveDown(x.childrens, i + 2, x.num + 1);
    x.childrens[x.num + 1] := null;
    x.num := x.num - 1;
    assert x.keys[..i] == ks[..i] == keys[..i] && x.keys[i..n - 1] == ks[i + 1..n] == keys[i + 1..];
    assert x.keys[..x.num] == x.keys[..i] + x.keys[i..n - 1];
    ghost var now := x.childrens[..];
    assert now[..i + 1] == cs[..i + 1] && now[i + 1..n] == cs[i + 2..n + 1];
    Dropped(cs, now, i, n, kids, kids');
  }

  lemma Dropped(cs: seq<BNode?>, now: seq<BNode?>, i: nat, n: nat, kids: seq<Tree>, kids': seq<Tree>)
    requires i < n && |kids| == n + 1 && |kids'| == n && n < |cs| && n < |now|
    requires now[..i + 1] == cs[..i + 1] && now[i + 1..n] == cs[i + 2..n + 1]
    requires forall j :: 0 <= j < |kids| ==> cs[j] == kids[j].node
    requires forall j :: 0 <= j < |kids'| ==> kids'[j].node == kids[if j <= i then j else j + 1].node
    ensures forall j :: 0 <= j < |kids'| ==> now[j] == kids'[j].node
  {
    forall j | 0 <= j < |kids'| ensures now[j] == kids'[j].node {
      if j <= i {
        assert now[j] == now[..i + 1][j] == cs[..i + 1][j];
      } else {
        assert now[j] == now[i + 1..n][j - i - 1] == cs[i + 2..n + 1][j - i - 1] == cs[j + 1];
      }
    }
  }

  function MergePart(t: Tree, i: nat, j: nat): Tree
    requires i < |t.keys| && i + 1 < |t.kids| && j < |t.kids| - 1
  {
    if j < i then t.kids[j] else if j == i then Merged(t.kids[i], t.keys[i], t.kids[i + 1]) else t.kids[j + 1]
  }

  lemma MergeParts(t: Tree, i: nat)
    requires i < |t.keys| && i + 1 < |t.kids|
    ensures var m := Merge(t, i);
      (&& m.node == t.node && m.keys == t.keys[..i] + t.keys[i + 1..] && |m.kids| == |t.kids| - 1
       && (forall j :: 0 <= j < |m.kids| ==> m.kids[j] == MergePart(t, i, j))
       && (forall j :: 0 <= j < |m.kids| ==> m.kids[j].node == t.kids[if j <= i then j else j + 1].node))
  {}

  lemma MergeApart(t: Tree, i: nat, j: nat, l: nat)
    requires Sep(t) && i < |t.keys| && i + 1 < |t.kids| && j < l < |t.kids| - 1
    ensures Objs(MergePart(t, i, j)) !! Objs(MergePart(t, i, l))
  {
    hide Merged, Objs;
    assert Objs(t.kids[i]) !! Objs(t.kids[i + 1]);
    MergedSep(t.kids[i], t.keys[i], t.kids[i + 1]);
    SepParts(t, i);
    SepParts(t, i + 1);
    if j < i && l != i { SepParts(t, j); }
    if j > i { SepParts(t, j + 1); }
  }

  lemma MergeSep(t: Tree, i: nat)
    requires Sep(t) && i < |t.keys| && i + 1 < |t.kids|
    ensures Sep(Merge(t, i)) && Objs(Merge(t, i)) <= Objs(t)
  {
    hide Merge, Merged, Objs;
    var m, y, z := Merge(t, i), t.kids[i], t.kids[i + 1];
    MergeParts(t, i);
    SepParts(t, i);
    assert Objs(y) !! Objs(z);
    MergedSep(y, t.keys[i], z);
    forall j, l | 0 <= j < l < |m.kids| ensures Objs(m.kids[j]) !! Objs(m.kids[l]) { MergeApart(t, i, j, l); }
    MergeObjs(t, i);
  }

  lemma MergeObjs(t: Tree, i: nat)
    requires Sep(t) && i < |t.keys| && i + 1 < |t.kids|
    ensures Objs(Merge(t, i)) <= Objs(t)
  {
    hide Merge, Merged;
    var m := Merge(t, i);
    MergeParts(t, i);
    MergedSep(t.kids[i], t.keys[i], t.kids[i + 1]);
    forall o | o in Objs(m) ensures o in Objs(t) {
      if o !in Own(t.node) {
        var j := InKid(m, |m.kids|, o);
        assert m.kids[j] == MergePart(t, i, j);
      }
    }
  }

  /** btree_merge: the two children and the key between them become one node; a root that has
      no key left is given up for that node. */
  method MergeChildren(r: Root, node: BNode, idx: nat, d: nat, ghost t: Tree, ghost h: nat)
    requires d >= 2 && Linked(t, d) && Sep(t) && Balanced(t, d, h) && t.node == node && h > 0 && idx < |t.keys|
    requires |t.kids[idx].keys| == |t.kids[idx + 1].keys| == d - 1 && r !in Objs(t)
    modifies r`root, Objs(t)
    ensures var m := Merge(t, idx);
      (&& Linked(m, d) && Sep(m) && Balanced(m, d, h) && Objs(m) <= Objs(t)
       && AllWide(t) && AllWide(m) && In(m) == In(t)
       && r.root == if |t.keys| == 1 then t.kids[idx].node else old(r.root))
    ensures |t.keys| == 1 ==>
      (&& var u := Merged(t.kids[0], t.keys[0], t.kids[1]);
       && Linked(u, d) && Sep(u) && Balanced(u, d, h - 1) && AllWide(u) && AllWide(t) && In(u) == In(t))
  {
    hide Linked, Sep, Objs, In, AllWide, Balanced, Merge, Merged, Pair;
    NodeHolds(t, d);
    PairOf(t, idx, d, h);
    PairIs(t.kids[idx], t.kids[idx + 1], d);
    ObjsAllocated(t);
    ghost var y, z, k := t.kids[idx], t.kids[idx + 1], t.keys[idx];
    var left: BNode := node.childrens[idx];
    var right: BNode := node.childrens[idx + 1];
    label before:
    MergeNodes(left, right, node.keys[idx], d, y, z);
    MergeParts(t, idx);
    MergedNode(y, k, z);
    MergedSep(y, k, z);
    RemoveRight(node, idx, d, t.keys, t.kids, Merge(t, idx).kids);
    MergeLinked@before(t, idx, d, Objs(t) - Own(node) - Own(left));
    MergeSep(t, idx);
    MergeKeeps(t, idx, d, h);
    if node.num == 0 {
      OnlyChild(t, d, h);
      r.root := left;
    }
  }

  lemma PairIs(y: Tree, z: Tree, d: nat)
    requires Pair(y, z, d)
    ensures Linked(y, d) && Linked(z, d) && Sep(y) && Sep(z) && Objs(y) !! Objs(z) && (y.kids == [] <==> z.kids == [])
    ensures Own(y.node) <= Objs(y) && Own(z.node) <= Objs(z)
  {}

  twostate lemma MergeLinked(new t: Tree, new i: nat, new d: nat, new same: set<object>)
    requires old(allocated(t)) && old(allocated(same))
    requires old(Linked(t, d)) && Sep(t) && i < |t.keys| && i + 1 < |t.kids|
    requires Linked(Merged(t.kids[i], t.keys[i], t.kids[i + 1]), d)
    requires var m := Merge(t, i); Holds(m.node, m.keys, m.kids, d)
    requires Objs(t) - Own(t.node) - Own(t.kids[i].node) <= same && unchanged(same)
    ensures Linked(Merge(t, i), d)
  {
    hide Objs, Sep, Merged;
    var m := Merge(t, i);
    SepParts(t, i);
    MergeParts(t, i);
    forall j | 0 <= j < |m.kids| ensures Linked(m.kids[j], d) {
      if j < i { LinkedFrame(t.kids[j], d, same); }
      if j > i { LinkedFrame(t.kids[j + 1], d, same); }
    }
  }

  /** What is left below a root that lost its only key. */
  lemma OnlyChild(t: Tree, d: nat, h: nat)
    requires Balanced(t, d, h) && d >= 2 && h > 0 && |t.keys| == 1 && |t.kids[0].keys| == |t.kids[1].keys| == d - 1
    ensures var u := Merged(t.kids[0], t.keys[0], t.kids[1]);
      Balanced(u, d, h - 1) && AllWide(u) && AllWide(t) && In(u) == In(t)
  {
    var m, u := Merge(t, 0), Merged(t.kids[0], t.keys[0], t.kids[1]);
    MergeKeeps(t, 0, d, h);
    assert m.kids == [u] && m.keys == [];
    assert Pre(m, 0) + In(u) == In(u);
  }

  // ---- borrowing -------------------------------------------------------------------------------

  /** The border between the subtrees of two siblings was moved. */
  ghost predicate Shifted(c: Tree, r: Tree, c': Tree, r': Tree) {
    c'.node == c.node && r'.node == r.node && c'.kids + r'.kids == c.kids + r.kids
  }

  /** The subtrees of `m` are those of `u` and then those of `w`. */
  ghost predicate Tiles(m: Tree, u: Tree, w: Tree) {
    |m.kids| == |u.kids| + |w.kids| && Stretch(m, 0, u) && Stretch(m, |u.kids|, w)
  }

  /** The subtrees of `u` are those of `m` from position `n` on. */
  ghost predicate Stretch(m: Tree, n: nat, u: Tree) {
    n + |u.kids| <= |m.kids| && forall j :: 0 <= j < |u.kids| ==> u.kids[j] == m.kids[n + j]
  }

  /** The subtrees of `m` avoid some memory and lie in other. */
  ghost predicate Clear(m: Tree, avoid: set<object>, all: set<object>) {
    forall j :: 0 <= j < |m.kids| ==> avoid !! Objs(m.kids[j]) && Objs(m.kids[j]) <= all
  }

  ghost predicate KidsDisjoint(m: Tree) { forall i, j :: 0 <= i < j < |m.kids| ==> Objs(m.kids[i]) !! Objs(m.kids[j]) }

  lemma ShiftedKids(c: Tree, r: Tree, c': Tree, r': Tree)
    requires Shifted(c, r, c', r')
    ensures Tiles(Merged(c, 0, r), c', r')
  {
    var m, n := Merged(c, 0, r), |c'.kids|;
    assert m.kids == c'.kids + r'.kids;
  }

  lemma ShiftedSep(c: Tree, r: Tree, c': Tree, r': Tree)
    requires Shifted(c, r, c', r') && Sep(c) && Sep(r) && Objs(c) !! Objs(r)
    ensures Sep(c') && Sep(r') && Objs(c') !! Objs(r') && Objs(c') + Objs(r') <= Objs(c) + Objs(r)
  {
    hide *;
    var m := Merged(c, 0, r);
    ShiftedNodes(c, r, c', r');
    ShiftedKids(c, r, c', r');
    MergedSep(c, 0, r);
    KidsFree(c, r, m);
    PartsSep(m, c', r', Objs(c) + Objs(r));
    SepPairs(m);
    ShiftedApart(c, r, c', r', m);
  }

  lemma PartsSep(m: Tree, u: Tree, w: Tree, all: set<object>)
    requires Sep(m) && Tiles(m, u, w) && Clear(m, Own(u.node), all) && Clear(m, Own(w.node), all)
    ensures Sep(u) && Sep(w)
  {
    hide Objs, Sep, Own, Clear, Stretch;
    PartSep(m, 0, u, all);
    PartSep(m, |u.kids|, w, all);
  }

  lemma SepPairs(t: Tree)
    requires Sep(t)
    ensures KidsDisjoint(t)
  {}

  /** A node with some neighbouring subtrees of another. */
  lemma PartSep(m: Tree, n: nat, u: Tree, all: set<object>)
    requires Sep(m) && Stretch(m, n, u) && Clear(m, Own(u.node), all)
    ensures Sep(u)
  {
    hide Objs;
    forall i, j | 0 <= i < j < |u.kids| ensures Objs(u.kids[i]) !! Objs(u.kids[j]) {
      assert Objs(m.kids[n + i]) !! Objs(m.kids[n + j]);
    }
  }

  lemma ShiftedNodes(c: Tree, r: Tree, c': Tree, r': Tree)
    requires Shifted(c, r, c', r')
    ensures c'.node == c.node && r'.node == r.node
  {}

  /** No subtree touches the memory of the two siblings themselves. */
  lemma KidsFree(c: Tree, r: Tree, m: Tree)
    requires m == Merged(c, 0, r) && Sep(c) && Sep(r) && Objs(c) !! Objs(r)
    ensures Own(c.node) !! Own(r.node) && Clear(m, Own(c.node), Objs(c) + Objs(r)) && Clear(m, Own(r.node), Objs(c) + Objs(r))
  {
    MergedParts(c, 0, r);
  }

  lemma ShiftedApart(c: Tree, r: Tree, c': Tree, r': Tree, m: Tree)
    requires c'.node == c.node && r'.node == r.node && Own(c.node) !! Own(r.node) && Tiles(m, c', r')
    requires Clear(m, Own(c.node), Objs(c) + Objs(r)) && Clear(m, Own(r.node), Objs(c) + Objs(r)) && KidsDisjoint(m)
    ensures Objs(c') !! Objs(r') && Objs(c') + Objs(r') <= Objs(c) + Objs(r)
  {
    PartsOf(m, c', r', Own(r.node), Own(c.node), Objs(c) + Objs(r));
    PartsApart(m, c', r');
    hide *;
    ObjsOf(c', r', c, r);
  }

  lemma PartsOf(m: Tree, u: Tree, w: Tree, o: set<object>, p: set<object>, all: set<object>)
    requires Tiles(m, u, w) && Clear(m, o, all) && Clear(m, p, all)
    ensures KidObjs(u, |u.kids|) !! o && KidObjs(u, |u.kids|) <= all
    ensures KidObjs(w, |w.kids|) !! p && KidObjs(w, |w.kids|) <= all
  {
    hide KidObjs, Objs, Clear, Stretch;
    PartOf(m, 0, u, o, all);
    PartOf(m, |u.kids|, w, p, all);
  }

  /** What is true of all subtrees of `m` is true of some of them. */
  lemma PartOf(m: Tree, n: nat, u: Tree, avoid: set<object>, all: set<object>)
    requires Stretch(m, n, u) && Clear(m, avoid, all)
    ensures KidObjs(u, |u.kids|) !! avoid && KidObjs(u, |u.kids|) <= all
  {
    hide KidObjs, Objs;
    forall j | 0 <= j < |u.kids| ensures Objs(u.kids[j]) !! avoid && Objs(u.kids[j]) <= all { assert u.kids[j] == m.kids[n + j]; }
    KidsAvoid(u, avoid);
    KidsWithin(u, all);
  }

  lemma PartsApart(m: Tree, u: Tree, w: Tree)
    requires Tiles(m, u, w) && KidsDisjoint(m)
    ensures KidObjs(u, |u.kids|) !! KidObjs(w, |w.kids|)
  {
    hide KidObjs, Objs;
    forall i, j | 0 <= i < |u.kids| && 0 <= j < |w.kids| ensures Objs(u.kids[i]) !! Objs(w.kids[j]) {
      assert Objs(m.kids[i]) !! Objs(m.kids[|u.kids| + j]);
    }
    KidsApart(u, w);
  }

  lemma ObjsOf(u: Tree, w: Tree, c: Tree, r: Tree)
    requires u.node == c.node && w.node == r.node && Own(c.node) !! Own(r.node)
    requires KidObjs(u, |u.kids|) !! KidObjs(w, |w.kids|)
    requires KidObjs(u, |u.kids|) !! Own(r.node) && KidObjs(w, |w.kids|) !! Own(c.node)
    requires KidObjs(u, |u.kids|) <= Objs(c) + Objs(r) && KidObjs(w, |w.kids|) <= Objs(c) + Objs(r)
    ensures Objs(u) !! Objs(w) && Objs(u) + Objs(w) <= Objs(c) + Objs(r)
  {
    hide KidObjs, Objs, Own;
    ObjsAre(c);
    ObjsAre(r);
    ObjsAre(u);
    ObjsAre(w);
  }

  /** Two siblings whose nodes hold the shifted keys and subtrees. */
  twostate lemma ShiftedLinked(new c: Tree, new r: Tree, new c': Tree, new r': Tree, new d: nat, new same: set<object>)
    requires old(allocated(c)) && old(allocated(r)) && old(allocated(c')) && old(allocated(r')) && old(allocated(same))
    requires Shifted(c, r, c', r') && old(Pair(c, r, d)) && Wide(c') && Wide(r')
    requires Objs(c) + Objs(r) - Own(c.node) - Own(r.node) <= same && unchanged(same)
    requires Holds(c'.node, c'.keys, c'.kids, d) && Holds(r'.node, r'.keys, r'.kids, d)
    ensures Linked(c', d) && Linked(r', d)
  {
    hide Objs, Sep, Merged, Tiles;
    var m := Merged(c, 0, r);
    ShiftedNodes(c, r, c', r');
    ShiftedKids(c, r, c', r');
    KidsStay(c, r, d, same);
    TilesLinked(m, c', r', d);
  }

  lemma TilesLinked(m: Tree, u: Tree, w: Tree, d: nat)
    requires Tiles(m, u, w) && forall j :: 0 <= j < |m.kids| ==> Linked(m.kids[j], d)
    ensures forall j :: 0 <= j < |u.kids| ==> Linked(u.kids[j], d)
    ensures forall j :: 0 <= j < |w.kids| ==> Linked(w.kids[j], d)
  {
    hide Linked;
    forall j | 0 <= j < |w.kids| ensures Linked(w.kids[j], d) { assert w.kids[j] == m.kids[|u.kids| + j]; }
  }

  twostate lemma KidsStay(new c: Tree, new r: Tree, new d: nat, new same: set<object>)
    requires old(allocated(c)) && old(allocated(r)) && old(allocated(same))
    requires old(Pair(c, r, d)) && Objs(c) + Objs(r) - Own(c.node) - Own(r.node) <= same && unchanged(same)
    ensures forall j :: 0 <= j < |Merged(c, 0, r).kids| ==> Linked(Merged(c, 0, r).kids[j], d)
  {
    var m := Merged(c, 0, r);
    MergedParts(c, 0, r);
    KidsFree(c, r, m);
    forall j | 0 <= j < |m.kids| ensures Linked(m.kids[j], d) {
      LinkedFrame(m.kids[j], d, same);
    }
  }

  /** A key and a child behind the last ones of a node. */
  method PushBack(x: BNode, k: int, kid: BNode?, ghost d: nat, ghost c: Tree, ghost c': Tree)
    requires Holds(x, c.keys, c.kids, d) && Wide(c) && |c.keys| < 2 * d - 1 && c'.keys == c.keys + [k]
    requires if c.kids == [] then c'.kids == [] else |c'.kids| == |c.kids| + 1 && c'.kids[..|c.kids|] == c.kids
    requires c.kids != [] ==> kid == c'.kids[|c.kids|].node
    modifies x`num, x.keys, x.childrens
    ensures Holds(x, c'.keys, c'.kids, d) && Wide(c')
  {
    x.keys[x.num] := k;
    x.childrens[x.num + 1] := kid;
    x.num := x.num + 1;
    forall j | 0 <= j < |c'.kids| ensures x.childrens[j] == c'.kids[j].node {
      if j < |c.kids| { assert c'.kids[j] == c'.kids[..|c.kids|][j]; }
    }
  }

  /** The first key and the first child of a node go. */
  method PopFront(x: BNode, ghost d: nat, ghost r: Tree, ghost r': Tree)
    requires Holds(x, r.keys, r.kids, d) && Wide(r) && r.keys != [] && r'.keys == r.keys[1..]
    requires r'.kids == if r.kids == [] then [] else r.kids[1..]
    modifies x`num, x.keys, x.childrens
    ensures Holds(x, r'.keys, r'.kids, d) && Wide(r')
  {
    ghost var n, cs := |r.keys|, x.childrens[..];
    DropKey(x.keys, x.num, r.keys);
    DropChild(x.childrens, x.num);
    x.num := x.num - 1;
    if r.kids != [] { RestPointers(cs, x.childrens[..], n, r.kids, r'.kids); }
  }

  method DropKey(a: array<int>, n: nat, ghost keys: seq<int>)
    requires 0 < n == |keys| <= a.Length && a[..n] == keys
    modifies a
    ensures a[..n - 1] == keys[1..]
  {
    ghost var ks := a[..];
    MoveDown(a, 1, n);
    a[n - 1] := 0;
    assert a[..n - 1] == a[0..n - 1] == ks[1..n] == keys[1..];
  }

  method DropChild(a: array<BNode?>, n: nat)
    requires 0 < n < a.Length
    modifies a
    ensures a[0..n] == old(a[1..n + 1])
  {
    ghost var cs := a[..];
    MoveDown(a, 1, n);
    a[n - 1] := a[n];
    a[n] := null;
    assert a[0..n] == a[0..n - 1] + [a[n - 1]];
    assert cs[1..n + 1] == cs[1..n] + [cs[n]];
  }

  lemma RestPointers(cs: seq<BNode?>, now: seq<BNode?>, n: nat, kids: seq<Tree>, kids': seq<Tree>)
    requires n < |cs| && n <= |now| && now[0..n] == cs[1..n + 1] && |kids| == n + 1 && kids' == kids[1..]
    requires forall j :: 0 <= j < |kids| ==> cs[j] == kids[j].node
    ensures forall j :: 0 <= j < |kids'| ==> now[j] == kids'[j].node
  {
    forall j | 0 <= j < |kids'| ensures now[j] == kids'[j].node {
      assert now[j] == now[0..n][j] == cs[1..n + 1][j] == cs[j + 1];
    }
  }

  /** A key and a child in front of the first ones of a node. */
  method PushFront(x: BNode, k: int, kid: BNode?, ghost d: nat, ghost c: Tree, ghost c': Tree)
    requires Holds(x, c.keys, c.kids, d) && Wide(c) && |c.keys| < 2 * d - 1 && c'.keys == [k] + c.keys
    requires if c.kids == [] then c'.kids == [] else |c'.kids| == |c.kids| + 1 && c'.kids[1..] == c.kids
    requires c.kids != [] ==> kid == c'.kids[0].node
    modifies x`num, x.keys, x.childrens
    ensures Holds(x, c'.keys, c'.kids, d) && Wide(c')
  {
    ghost var n, cs := |c.keys|, x.childrens[..];
    MakeFront(x, k, kid, c.keys);
    if c.kids != [] { FrontPointers(cs, x.childrens[..], n, kid, c.kids, c'.kids); }
  }

  /** The loop and the assignments of that branch. */
  method MakeFront(x: BNode, k: int, kid: BNode?, ghost keys: seq<int>)
    requires x.num == |keys| < x.keys.Length && |keys| + 1 < x.childrens.Length && x.keys[..x.num] == keys
    modifies x`num, x.keys, x.childrens
    ensures x.num == |keys| + 1 && x.keys[..x.num] == [k] + keys
    ensures x.childrens[0] == kid && x.childrens[1] == old(x.childrens[0])
    ensures x.childrens[2..|keys| + 2] == old(x.childrens[1..|keys| + 1])
  {
    FrontKey(x.keys, x.num, k, keys);
    FrontChild(x.childrens, x.num, kid);
    x.num := x.num + 1;
  }

  method FrontKey(a: array<int>, n: nat, k: int, ghost keys: seq<int>)
    requires n == |keys| < a.Length && a[..n] == keys
    modifies a
    ensures a[..n + 1] == [k] + keys
  {
    ghost var ks := a[..];
    MoveUp(a, 0, n);
    a[0] := k;
    assert a[1..n + 1] == ks[0..n] == keys;
    assert a[..n + 1] == [a[0]] + a[1..n + 1];
  }

  method FrontChild(a: array<BNode?>, n: nat, kid: BNode?)
    requires n + 1 < a.Length
    modifies a
    ensures a[0] == kid && a[1] == old(a[0]) && a[2..n + 2] == old(a[1..n + 1])
  {
    MoveUp(a, 1, n + 1);
    a[1] := a[0];
    a[0] := kid;
  }

  lemma FrontPointers(cs: seq<BNode?>, now: seq<BNode?>, n: nat, kid: BNode?, kids: seq<Tree>, kids': seq<Tree>)
    requires n + 2 <= |now| && n + 1 <= |cs| && now[2..n + 2] == cs[1..n + 1] && now[1] == cs[0] && now[0] == kid
    requires |kids| == n + 1 && |kids'| == n + 2 && kids'[1..] == kids && kid == kids'[0].node
    requires forall j :: 0 <= j < |kids| ==> cs[j] == kids[j].node
    ensures forall j :: 0 <= j < |kids'| ==> now[j] == kids'[j].node
  {
    forall j | 0 <= j < |kids'| ensures now[j] == kids'[j].node {
      if j > 0 { assert kids'[j] == kids'[1..][j - 1] == kids[j - 1]; }
      if j > 1 { assert now[j] == now[2..n + 2][j - 2] == cs[1..n + 1][j - 2] == cs[j - 1]; }
    }
  }

  /** The last key and the last child of a node go. */
  method PopBack(x: BNode, ghost d: nat, ghost l: Tree, ghost l': Tree)
    requires Holds(x, l.keys, l.kids, d) && Wide(l) && l.keys != [] && l'.keys == l.keys[..|l.keys| - 1]
    requires l'.kids == if l.kids == [] then [] else l.kids[..|l.kids| - 1]
    modifies x`num, x.keys, x.childrens
    ensures Holds(x, l'.keys, l'.kids, d) && Wide(l')
  {
    ghost var n := |l.keys|;
    assert x.keys[..n - 1] == x.keys[..n][..n - 1];
    x.keys[x.num - 1] := 0;
    x.childrens[x.num] := null;
    x.num := x.num - 1;
  }

  /** What a borrowing step does to a node and the two children. */
  ghost predicate Borrowed(t: Tree, b: Tree, d: nat, h: nat)
    reads Objs(b)
  {
    && Linked(b, d) && Sep(b) && Balanced(b, d, h) && Objs(b) <= Objs(t) && b.node == t.node
    && AllWide(t) && AllWide(b) && In(b) == In(t)
  }

  lemma Held(t: Tree, d: nat)
    requires Linked(t, d)
    ensures Wide(t) && Holds(t.node, t.keys, t.kids, d)
    ensures t.keys != [] ==> t.node.keys[0] == t.keys[0] && t.node.keys[|t.keys| - 1] == t.keys[|t.keys| - 1]
    ensures t.kids != [] ==> t.node.childrens[0] == t.kids[0].node && t.node.childrens[|t.keys|] == t.kids[|t.keys|].node
  {
    NodeHolds(t, d);
  }

  /** The assignments to the three nodes when borrowing from the next child. */
  method MoveFromNext(node: BNode, child: BNode, right: BNode, idx: nat, ghost d: nat, ghost c: Tree, ghost r: Tree,
                      ghost c': Tree, ghost r': Tree)
    requires Holds(child, c.keys, c.kids, d) && Holds(right, r.keys, r.kids, d) && Wide(c) && Wide(r) && idx < node.keys.Length
    requires Own(node) !! Own(child) && Own(node) !! Own(right) && Own(child) !! Own(right)
    requires |c.keys| < 2 * d - 1 && r.keys != [] && (c.kids == [] <==> r.kids == [])
    requires c'.keys == c.keys + [node.keys[idx]] && r'.keys == r.keys[1..]
    requires r'.kids == (if r.kids == [] then [] else r.kids[1..]) && c'.kids == c.kids + if r.kids == [] then [] else [r.kids[0]]
    modifies node.keys, child`num, child.keys, child.childrens, right`num, right.keys, right.childrens
    ensures Holds(child, c'.keys, c'.kids, d) && Holds(right, r'.keys, r'.kids, d) && Wide(c') && Wide(r')
    ensures node.keys[..] == old(node.keys[..])[idx := r.keys[0]]
  {
    ghost var first := right.keys[..right.num][0];
    PushBack(child, node.keys[idx], right.childrens[0], d, c, c');
    node.keys[idx] := right.keys[0];
    PopFront(right, d, r, r');
  }

  /** The assignments to the three nodes when borrowing from the previous child. */
  method MoveFromPrev(node: BNode, left: BNode, child: BNode, idx: nat, ghost d: nat, ghost l: Tree, ghost c: Tree,
                      ghost l': Tree, ghost c': Tree)
    requires Holds(child, c.keys, c.kids, d) && Holds(left, l.keys, l.kids, d) && Wide(c) && Wide(l) && 0 < idx <= node.keys.Length
    requires Own(node) !! Own(child) && Own(node) !! Own(left) && Own(child) !! Own(left)
    requires |c.keys| < 2 * d - 1 && l.keys != [] && (c.kids == [] <==> l.kids == [])
    requires c'.keys == [node.keys[idx - 1]] + c.keys && l'.keys == l.keys[..|l.keys| - 1]
    requires l'.kids == (if l.kids == [] then [] else l.kids[..|l.kids| - 1])
    requires c'.kids == (if l.kids == [] then [] else [l.kids[|l.kids| - 1]]) + c.kids
    modifies node.keys, child`num, child.keys, child.childrens, left`num, left.keys, left.childrens
    ensures Holds(child, c'.keys, c'.kids, d) && Holds(left, l'.keys, l'.kids, d) && Wide(c') && Wide(l')
    ensures node.keys[..] == old(node.keys[..])[idx - 1 := l.keys[|l.keys| - 1]]
  {
    ghost var last := left.keys[..left.num][left.num - 1];
    PushFront(child, node.keys[idx - 1], left.childrens[left.num], d, c, c');
    node.keys[idx - 1] := left.keys[left.num - 1];
    PopBack(left, d, l, l');
  }

  lemma PairSizes(c: Tree, r: Tree, d: nat)
    requires Pair(c, r, d)
    ensures Wide(c) && Wide(r) && (c.kids == [] <==> r.kids == []) && Own(c.node) <= Objs(c) && Own(r.node) <= Objs(r)
  {
    hide Objs;
    PairIs(c, r, d);
  }

  /** Borrowing from the next child, as far as the two children are concerned. */
  method ShiftFromNext(node: BNode, child: BNode, right: BNode, idx: nat, d: nat, ghost c: Tree, ghost r: Tree,
                       ghost c': Tree, ghost r': Tree)
    requires Pair(c, r, d) && c.node == child && r.node == right && Own(node) !! Objs(c) + Objs(r) && idx < node.keys.Length
    requires Wide(c) && |c.keys| < 2 * d - 1 && r.keys != [] && Shifted(c, r, c', r')
    requires c'.keys == c.keys + [node.keys[idx]] && r'.keys == r.keys[1..]
    requires r'.kids == (if r.kids == [] then [] else r.kids[1..]) && c'.kids == c.kids + if r.kids == [] then [] else [r.kids[0]]
    modifies node.keys, child`num, child.keys, child.childrens, right`num, right.keys, right.childrens
    ensures Linked(c', d) && Linked(r', d) && Sep(c') && Sep(r') && Objs(c') !! Objs(r') && Objs(c') + Objs(r') <= Objs(c) + Objs(r)
    ensures node.keys[..] == old(node.keys[..])[idx := r.keys[0]]
  {
    hide Linked, Objs, Sep, Pair, Shifted, Holds, Wide;
    PairIs(c, r, d);
    ShiftedNodes(c, r, c', r');
    Held(c, d);
    Held(r, d);
    Apart(c, r);
    ObjsAllocated(c);
    ObjsAllocated(r);
    MoveFromNext(node, child, right, idx, d, c, r, c', r');
    ShiftedLinked(c, r, c', r', d, Objs(c) + Objs(r) - Own(c.node) - Own(r.node));
    ShiftedSep(c, r, c', r');
  }

  /** Borrowing from the previous child, as far as the two children are concerned. */
  method ShiftFromPrev(node: BNode, left: BNode, child: BNode, idx: nat, d: nat, ghost l: Tree, ghost c: Tree,
                       ghost l': Tree, ghost c': Tree)
    requires Pair(l, c, d) && l.node == left && c.node == child && Own(node) !! Objs(l) + Objs(c) && 0 < idx <= node.keys.Length
    requires Wide(c) && |c.keys| < 2 * d - 1 && l.keys != [] && Shifted(l, c, l', c')
    requires c'.keys == [node.keys[idx - 1]] + c.keys && l'.keys == l.keys[..|l.keys| - 1]
    requires l'.kids == (if l.kids == [] then [] else l.kids[..|l.kids| - 1])
    requires c'.kids == (if l.kids == [] then [] else [l.kids[|l.kids| - 1]]) + c.kids
    modifies node.keys, child`num, child.keys, child.childrens, left`num, left.keys, left.childrens
    ensures Linked(l', d) && Linked(c', d) && Sep(l') && Sep(c') && Objs(l') !! Objs(c') && Objs(l') + Objs(c') <= Objs(l) + Objs(c)
    ensures node.keys[..] == old(node.keys[..])[idx - 1 := l.keys[|l.keys| - 1]]
  {
    hide Linked, Objs, Sep, Pair, Shifted, Holds, Wide;
    PairIs(l, c, d);
    ShiftedNodes(l, c, l', c');
    Held(l, d);
    Held(c, d);
    Apart(l, c);
    ObjsAllocated(l);
    ObjsAllocated(c);
    MoveFromPrev(node, left, child, idx, d, l, c, l', c');
    ShiftedLinked(l, c, l', c', d, Objs(l) + Objs(c) - Own(l.node) - Own(c.node));
    ShiftedSep(l, c, l', c');
  }

  /** The branch that borrows from the next child. */
  method BorrowFromNext(node: BNode, idx: nat, d: nat, ghost t: Tree, ghost h: nat)
    requires d >= 2 && Linked(t, d) && Sep(t) && Balanced(t, d, h) && t.node == node && h > 0 && idx < |t.keys|
    requires |t.kids[idx].keys| == d - 1 && |t.kids[idx + 1].keys| >= d
    modifies Objs(t)
    ensures Borrowed(t, BorrowNext(t, idx), d, h) && |BorrowNext(t, idx).kids[idx].keys| == d
  {
    hide Linked, Objs, Sep, In, AllWide, Balanced, BorrowNext, Pair, Shifted, Holds, Borrowed, WithPair, Wide;
    Held(t, d);
    PairOf(t, idx, d, h);
    ghost var c, r := t.kids[idx], t.kids[idx + 1];
    PairSizes(c, r, d);
    ObjsAllocated(t);
    ghost var c', r' := NextParts(t, idx);
    var child: BNode := node.childrens[idx];
    var right: BNode := node.childrens[idx + 1];
    label before:
    ShiftFromNext(node, child, right, idx, d, c, r, c', r');
    Finish@before(t, idx, c', r.keys[0], r', d, Objs(t) - Own(node) - Objs(c) - Objs(r));
    BorrowNextKeeps(t, idx, d, h);
    PairKids(t, idx, c', r.keys[0], r');
    MakeBorrowed(t, BorrowNext(t, idx), d, h);
  }

  lemma PairKids(t: Tree, i: nat, y: Tree, k: int, z: Tree)
    requires i < |t.keys| && i + 1 < |t.kids|
    ensures var b := WithPair(t, i, y, k, z); b.node == t.node && |b.kids| == |t.kids| && b.kids[i] == y && b.kids[i + 1] == z
  {}

  lemma MakeBorrowed(t: Tree, b: Tree, d: nat, h: nat)
    requires Linked(b, d) && Sep(b) && Balanced(b, d, h) && Objs(b) <= Objs(t) && b.node == t.node
    requires AllWide(t) && AllWide(b) && In(b) == In(t)
    ensures Borrowed(t, b, d, h)
  {}

  lemma NextParts(t: Tree, i: nat) returns (c': Tree, r': Tree)
    requires i < |t.keys| && i + 1 < |t.kids| && t.kids[i + 1].keys != [] && (t.kids[i].kids == [] <==> t.kids[i + 1].kids == [])
    requires Wide(t.kids[i + 1])
    ensures BorrowNext(t, i) == WithPair(t, i, c', t.kids[i + 1].keys[0], r') && Shifted(t.kids[i], t.kids[i + 1], c', r')
    ensures c'.keys == t.kids[i].keys + [t.keys[i]] && r'.keys == t.kids[i + 1].keys[1..]
    ensures r'.kids == if t.kids[i + 1].kids == [] then [] else t.kids[i + 1].kids[1..]
    ensures c'.kids == t.kids[i].kids + if t.kids[i + 1].kids == [] then [] else [t.kids[i + 1].kids[0]]
    ensures c'.node == t.kids[i].node && r'.node == t.kids[i + 1].node
  {
    var b, r := BorrowNext(t, i), t.kids[i + 1];
    c', r' := b.kids[i], b.kids[i + 1];
    if r.kids != [] { assert [r.kids[0]] + r.kids[1..] == r.kids; }
  }

  lemma PrevParts(t: Tree, i: nat) returns (l': Tree, c': Tree)
    requires i < |t.keys| && i + 1 < |t.kids| && t.kids[i].keys != [] && (t.kids[i].kids == [] <==> t.kids[i + 1].kids == [])
    requires Wide(t.kids[i])
    ensures var l, c := t.kids[i], t.kids[i + 1];
      (&& BorrowPrev(t, i) == WithPair(t, i, l', l.keys[|l.keys| - 1], c') && Shifted(l, c, l', c')
       && c'.keys == [t.keys[i]] + c.keys && l'.keys == l.keys[..|l.keys| - 1]
       && l'.kids == (if l.kids == [] then [] else l.kids[..|l.kids| - 1])
       && c'.kids == (if l.kids == [] then [] else [l.kids[|l.kids| - 1]]) + c.kids
       && c'.node == c.node && l'.node == l.node)
  {
    var b, l := BorrowPrev(t, i), t.kids[i];
    l', c' := b.kids[i], b.kids[i + 1];
    if l.kids != [] { assert l.kids[..|l.kids| - 1] + [l.kids[|l.kids| - 1]] == l.kids; }
  }

  /** The node above the two children. */
  twostate lemma Finish(new t: Tree, new i: nat, new y: Tree, new k: int, new z: Tree, new d: nat, new same: set<object>)
    requires old(allocated(t)) && old(allocated(y)) && old(allocated(z)) && old(allocated(same))
    requires old(Linked(t, d)) && Sep(t) && i < |t.keys| && i + 1 < |t.kids| && Linked(y, d) && Linked(z, d)
    requires y.node == t.kids[i].node && z.node == t.kids[i + 1].node && Sep(y) && Sep(z) && Objs(y) !! Objs(z)
    requires Objs(y) + Objs(z) <= Objs(t.kids[i]) + Objs(t.kids[i + 1])
    requires t.node.num == old(t.node.num) && t.node.leaf == old(t.node.leaf)
    requires t.node.childrens[..] == old(t.node.childrens[..]) && t.node.keys[..] == old(t.node.keys[..])[i := k]
    requires Objs(t) - Own(t.node) - Objs(t.kids[i]) - Objs(t.kids[i + 1]) <= same && unchanged(same)
    ensures Linked(WithPair(t, i, y, k, z), d) && Sep(WithPair(t, i, y, k, z)) && Objs(WithPair(t, i, y, k, z)) <= Objs(t)
  {
    PairLinked(t, i, y, k, z, d, same);
    PairSep(t, i, y, k, z);
  }

  /** The branch that borrows from the previous child. */
  method BorrowFromPrev(node: BNode, idx: nat, d: nat, ghost t: Tree, ghost h: nat)
    requires d >= 2 && Linked(t, d) && Sep(t) && Balanced(t, d, h) && t.node == node && h > 0 && 0 < idx <= |t.keys|
    requires |t.kids[idx - 1].keys| >= d && |t.kids[idx].keys| == d - 1
    modifies Objs(t)
    ensures Borrowed(t, BorrowPrev(t, idx - 1), d, h) && |BorrowPrev(t, idx - 1).kids[idx].keys| == d
  {
    hide Linked, Objs, Sep, In, AllWide, Balanced, BorrowPrev, Pair, Shifted, Holds, Borrowed, WithPair, Wide;
    ghost var i := idx - 1;
    Held(t, d);
    PairOf(t, i, d, h);
    ghost var l, c := t.kids[i], t.kids[i + 1];
    PairSizes(l, c, d);
    ObjsAllocated(t);
    ghost var l', c' := PrevParts(t, i);
    var left: BNode := node.childrens[idx - 1];
    var child: BNode := node.childrens[idx];
    label before:
    ShiftFromPrev(node, left, child, idx, d, l, c, l', c');
    Finish@before(t, i, l', l.keys[|l.keys| - 1], c', d, Objs(t) - Own(node) - Objs(l) - Objs(c));
    BorrowPrevKeeps(t, i, d, h);
    PairKids(t, i, l', l.keys[|l.keys| - 1], c');
    MakeBorrowed(t, BorrowPrev(t, i), d, h);
  }
}
