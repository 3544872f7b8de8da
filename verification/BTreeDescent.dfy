/** The descent of btree_delete_key in code/tree/b-tree.c:252-395 for a key that is in a leaf. */
module BTreeDescent {
  import opened BTree
  import opened BTreeDelete
  import opened BTreeShape

  // ---- one occurrence goes ---------------------------------------------------------------------

  /** The first occurrence of the key goes. */
  function RemoveKey(s: seq<int>, k: int): seq<int> {
    if s == [] then [] else if s[0] == k then s[1..] else [s[0]] + RemoveKey(s[1..], k)
  }

  lemma {:induction false} RemoveFirstPart(m: seq<int>, b: seq<int>, k: int)
    requires k in m
    ensures RemoveKey(m + b, k) == RemoveKey(m, k) + b
    decreases |m|
  {
    assert (m + b)[1..] == m[1..] + b && (m + b)[0] == m[0];
    if m[0] != k {
      RemoveFirstPart(m[1..], b, k);
      assert [m[0]] + (RemoveKey(m[1..], k) + b) == ([m[0]] + RemoveKey(m[1..], k)) + b;
    }
  }

  lemma {:induction false} RemoveMiddle(a: seq<int>, m: seq<int>, b: seq<int>, k: int)
    requires k !in a && k in m
    ensures RemoveKey(a + m + b, k) == a + RemoveKey(m, k) + b
    decreases |a|
  {
    if a == [] {
      RemoveFirstPart(m, b, k);
      assert a + m + b == m + b && a + RemoveKey(m, k) + b == RemoveKey(m, k) + b;
    } else {
      var s := a + m + b;
      assert s[0] == a[0] && s[1..] == a[1..] + m + b;
      RemoveMiddle(a[1..], m, b, k);
      assert [a[0]] + (a[1..] + RemoveKey(m, k) + b) == a + RemoveKey(m, k) + b;
    }
  }

  lemma RemoveAt(s: seq<int>, i: nat, k: int)
    requires i < |s| && s[i] == k && forall j :: 0 <= j < i ==> s[j] < k
    ensures RemoveKey(s, k) == s[..i] + s[i + 1..]
  {
    assert s == s[..i] + [k] + s[i + 1..];
    RemoveMiddle(s[..i], [k], s[i + 1..], k);
    assert RemoveKey([k], k) == [];
    assert s[..i] + [] + s[i + 1..] == s[..i] + s[i + 1..];
  }

  lemma {:induction false} FirstAt(s: seq<int>, k: int) returns (i: nat)
    requires k in s
    ensures i < |s| && s[i] == k && RemoveKey(s, k) == s[..i] + s[i + 1..]
    decreases |s|
  {
    if s[0] == k {
      i := 0;
      assert s[1..] == s[..0] + s[1..];
    } else {
      i := FirstAt(s[1..], k);
      FrontSplit(s, i);
      i := i + 1;
    }
  }

  lemma FrontSplit(s: seq<int>, i: nat)
    requires i + 1 < |s|
    ensures [s[0]] + (s[1..][..i] + s[1..][i + 1..]) == s[..i + 1] + s[i + 2..]
  {}

  /** Exactly one occurrence goes, and the order stays. */
  lemma RemoveSorted(s: seq<int>, k: int)
    requires Sorted(s) && k in s
    ensures Sorted(RemoveKey(s, k)) && multiset(RemoveKey(s, k)) == multiset(s) - multiset{k} && |RemoveKey(s, k)| == |s| - 1
  {
    var i := FirstAt(s, k);
    hide *;
    WithoutSorted(s, i);
    WithoutBag(s, i);
  }

  lemma WithoutSorted(s: seq<int>, i: nat)
    requires Sorted(s) && i < |s|
    ensures Sorted(s[..i] + s[i + 1..]) && |s[..i] + s[i + 1..]| == |s| - 1
  {
    var r := s[..i] + s[i + 1..];
    assert forall x :: 0 <= x < |r| ==> r[x] == s[if x < i then x else x + 1];
  }

  lemma WithoutBag(s: seq<int>, i: nat)
    requires i < |s|
    ensures multiset(s[..i] + s[i + 1..]) == multiset(s) - multiset{s[i]}
  {
    assert s == s[..i] + [s[i]] + s[i + 1..];
  }

  // ---- where the key is ----------------------------------------------------------------------------

  /** The key is between the keys around the child `c`. */
  predicate Between(t: Tree, c: nat, k: int) {
    c <= |t.keys| && (c > 0 ==> t.keys[c - 1] < k) && (c < |t.keys| ==> t.keys[c] > k)
  }

  /** The keys in front of a child are smaller, and those behind it larger. */
  lemma Around2(t: Tree, c: nat, k: int)
    requires AllWide(t) && Sorted(In(t)) && c < |t.kids| && Between(t, c, k)
    ensures k !in Pre(t, c) && k !in Post(t, c)
    ensures (c > 0 ==> AtMost(Pre(t, c), t.keys[c - 1])) && (c < |t.keys| ==> AtLeast(Post(t, c), t.keys[c]))
  {
    KeysSorted(t);
    if c > 0 { Bounds(t, c, t.keys[c - 1]); }
    if c < |t.keys| { Bounds(t, c, t.keys[c]); }
  }

  lemma InChild(t: Tree, c: nat, k: int)
    requires AllWide(t) && Sorted(In(t)) && c < |t.kids| && Between(t, c, k) && k in In(t)
    ensures k in In(t.kids[c]) && Sorted(In(t.kids[c]))
  {
    Around2(t, c, k);
    Around(t, c);
    MiddleSorted(Pre(t, c), In(t.kids[c]), Post(t, c));
  }

  /** Removing the key from its child removes it from the tree. */
  lemma RemoveFromKid(t: Tree, c: nat, u: Tree, k: int)
    requires AllWide(t) && AllWide(u) && c < |t.kids| && Sorted(In(t)) && Between(t, c, k) && k in In(t.kids[c])
    requires In(u) == RemoveKey(In(t.kids[c]), k)
    ensures AllWide(WithKid(t, c, u)) && In(WithKid(t, c, u)) == RemoveKey(In(t), k)
  {
    var t' := WithKid(t, c, u);
    assert AllWide(t');
    PreSame(t', t, c);
    PostSame(t', c, t, c);
    Around(t, c);
    Around(t', c);
    Around2(t, c, k);
    RemoveMiddle(Pre(t, c), In(t.kids[c]), Post(t, c), k);
  }

  /** The keys of a node are among the keys of its tree. */
  lemma {:induction false} KeyInside(t: Tree, i: nat)
    requires AllWide(t) && i < |t.keys|
    ensures t.keys[i] in In(t)
  {
    if t.kids != [] {
      Around(t, i);
      assert Post(t, i)[0] == t.keys[i];
      assert In(t)[|Pre(t, i) + In(t.kids[i])|] == t.keys[i];
    }
  }

  /** The key is in no inner node. */
  predicate NotInner(t: Tree, k: int) {
    (t.kids != [] ==> k !in t.keys) && forall i :: 0 <= i < |t.kids| ==> NotInner(t.kids[i], k)
  }

  // ---- the child the descent goes on with ------------------------------------------------------------

  /** The node after the child for the key was made large enough: the child is the one at `c`. */
  ghost predicate Ready(t: Tree, s: Tree, c: nat, d: nat, h: nat, k: int)
    reads Objs(s)
  {
    && Linked(s, d) && Sep(s) && Balanced(s, d, h) && AllWide(t) && AllWide(s) && In(s) == In(t) && Objs(s) <= Objs(t) && s.node == t.node
    && c < |s.kids| && |s.kids[c].keys| >= d && Between(s, c, k) && NotInner(s.kids[c], k)
    && |s.keys| >= |t.keys| - 1 && (s.keys == [] ==> |s.kids| == 1)
  }

  lemma BorrowedIs(t: Tree, b: Tree, d: nat, h: nat)
    requires Borrowed(t, b, d, h)
    ensures Linked(b, d) && Sep(b) && Balanced(b, d, h) && Objs(b) <= Objs(t) && b.node == t.node
    ensures AllWide(t) && AllWide(b) && In(b) == In(t)
  {}

  lemma NextBetween(t: Tree, i: nat, k: int)
    requires AllWide(t) && Sorted(In(t)) && i < |t.keys| && i + 1 < |t.kids| && t.kids[i + 1].keys != [] && Between(t, i, k)
    ensures Between(BorrowNext(t, i), i, k)
  {
    hide In, Pre, Post, AllWide, Sorted;
    var r := t.kids[i + 1];
    Around2(t, i, k);
    WideKids(t);
    KeyInside(r, 0);
    PostIs(t, i);
    InPart([t.keys[i]], In(r), Post(t, i + 1), r.keys[0]);
  }

  lemma PostIs(t: Tree, i: nat)
    requires AllWide(t) && i < |t.keys| && i + 1 < |t.kids|
    ensures Post(t, i) == [t.keys[i]] + In(t.kids[i + 1]) + Post(t, i + 1)
  {}

  lemma PreIs(t: Tree, i: nat)
    requires AllWide(t) && i < |t.keys| && i + 1 < |t.kids|
    ensures Pre(t, i + 1) == Pre(t, i) + In(t.kids[i]) + [t.keys[i]]
  {}

  lemma InPart(a: seq<int>, m: seq<int>, b: seq<int>, x: int)
    requires x in m
    ensures x in a + m + b
  {}

  lemma PrevBetween(t: Tree, i: nat, k: int)
    requires AllWide(t) && Sorted(In(t)) && i < |t.keys| && i + 1 < |t.kids| && t.kids[i].keys != [] && Between(t, i + 1, k)
    ensures Between(BorrowPrev(t, i), i + 1, k)
  {
    hide In, Pre, Post, AllWide, Sorted;
    var l := t.kids[i];
    Around2(t, i + 1, k);
    WideKids(t);
    KeyInside(l, |l.keys| - 1);
    PreIs(t, i);
    InPart(Pre(t, i), In(l), [t.keys[i]], l.keys[|l.keys| - 1]);
  }

  lemma MergeBetween(t: Tree, i: nat, c: nat, k: int)
    requires AllWide(t) && Sorted(In(t)) && i < |t.keys| && i + 1 < |t.kids| && (c == i || c == i + 1) && Between(t, c, k)
    ensures Between(Merge(t, i), i, k)
  {
    KeysSorted(t);
  }

  lemma NotInnerMerged(y: Tree, x: int, z: Tree, k: int)
    requires NotInner(y, k) && NotInner(z, k) && x != k && (y.kids == [] <==> z.kids == [])
    ensures NotInner(Merged(y, x, z), k)
  {
    var m := Merged(y, x, z);
    forall i | 0 <= i < |m.kids| ensures NotInner(m.kids[i], k) {
      assert m.kids[i] == if i < |y.kids| then y.kids[i] else z.kids[i - |y.kids|];
    }
  }

  lemma NotInnerNext(t: Tree, i: nat, k: int)
    requires NotInner(t, k) && i < |t.keys| && i + 1 < |t.kids| && t.kids[i + 1].keys != []
    requires t.kids[i].kids == [] <==> t.kids[i + 1].kids == []
    ensures NotInner(BorrowNext(t, i).kids[i], k)
  {
    var c', c, r := BorrowNext(t, i).kids[i], t.kids[i], t.kids[i + 1];
    assert NotInner(c, k) && NotInner(r, k) && k != t.keys[i];
    forall j | 0 <= j < |c'.kids| ensures NotInner(c'.kids[j], k) {
      assert c'.kids[j] == if j < |c.kids| then c.kids[j] else r.kids[0];
    }
  }

  lemma NotInnerPrev(t: Tree, i: nat, k: int)
    requires NotInner(t, k) && i < |t.keys| && i + 1 < |t.kids| && t.kids[i].keys != []
    requires t.kids[i].kids == [] <==> t.kids[i + 1].kids == []
    ensures NotInner(BorrowPrev(t, i).kids[i + 1], k)
  {
    var c', l, c := BorrowPrev(t, i).kids[i + 1], t.kids[i], t.kids[i + 1];
    assert NotInner(c, k) && NotInner(l, k) && k != t.keys[i];
    forall j | 0 <= j < |c'.kids| ensures NotInner(c'.kids[j], k) {
      assert l.kids != [] ==> c'.kids[j] == if j == 0 then l.kids[|l.kids| - 1] else c.kids[j - 1];
    }
  }

  lemma ReadySame(t: Tree, c: nat, d: nat, h: nat, k: int)
    requires Linked(t, d) && Sep(t) && Balanced(t, d, h) && h > 0 && AllWide(t) && NotInner(t, k) && Between(t, c, k) && t.keys != []
    requires c < |t.kids| && |t.kids[c].keys| >= d
    ensures Ready(t, t, c, d, h, k)
  {}

  lemma ReadyNext(t: Tree, i: nat, d: nat, h: nat, k: int)
    requires Balanced(t, d, h) && h > 0 && i < |t.keys| && |t.kids[i].keys| == d - 1 && |t.kids[i + 1].keys| >= d >= 2
    requires AllWide(t) && Sorted(In(t)) && NotInner(t, k) && Between(t, i, k)
    requires Borrowed(t, BorrowNext(t, i), d, h) && |BorrowNext(t, i).kids[i].keys| == d
    ensures Ready(t, BorrowNext(t, i), i, d, h, k) && BorrowNext(t, i).kids[i].node == t.kids[i].node && BorrowNext(t, i).keys != []
  {
    SiblingsBalanced(t, i, d, h);
    NextBetween(t, i, k);
    NotInnerNext(t, i, k);
    BorrowedIs(t, BorrowNext(t, i), d, h);
    NextSizes(t, i);
    hide Linked, Sep, Balanced, AllWide, In, Objs, BorrowNext, NotInner, Borrowed;
  }

  lemma NextSizes(t: Tree, i: nat)
    requires i < |t.keys| && i + 1 < |t.kids| && t.kids[i + 1].keys != []
    ensures |BorrowNext(t, i).keys| == |t.keys| && |BorrowNext(t, i).kids| == |t.kids| && BorrowNext(t, i).kids[i].node == t.kids[i].node
  {}

  lemma PrevSizes(t: Tree, i: nat)
    requires i < |t.keys| && i + 1 < |t.kids| && t.kids[i].keys != []
    ensures |BorrowPrev(t, i).keys| == |t.keys| && |BorrowPrev(t, i).kids| == |t.kids|
    ensures BorrowPrev(t, i).kids[i + 1].node == t.kids[i + 1].node
  {}

  lemma ReadyPrev(t: Tree, i: nat, d: nat, h: nat, k: int)
    requires Balanced(t, d, h) && h > 0 && i < |t.keys| && |t.kids[i].keys| >= d >= 2 && |t.kids[i + 1].keys| == d - 1
    requires AllWide(t) && Sorted(In(t)) && NotInner(t, k) && Between(t, i + 1, k)
    requires Borrowed(t, BorrowPrev(t, i), d, h) && |BorrowPrev(t, i).kids[i + 1].keys| == d
    ensures Ready(t, BorrowPrev(t, i), i + 1, d, h, k) && BorrowPrev(t, i).kids[i + 1].node == t.kids[i + 1].node && BorrowPrev(t, i).keys != []
  {
    SiblingsBalanced(t, i, d, h);
    PrevBetween(t, i, k);
    NotInnerPrev(t, i, k);
    BorrowedIs(t, BorrowPrev(t, i), d, h);
    PrevSizes(t, i);
    hide Linked, Sep, Balanced, AllWide, In, Objs, BorrowPrev, NotInner, Borrowed;
  }

  lemma ReadyMerge(t: Tree, i: nat, c: nat, d: nat, h: nat, k: int)
    requires Balanced(t, d, h) && h > 0 && i < |t.keys| && |t.kids[i].keys| == |t.kids[i + 1].keys| == d - 1 && d >= 2
    requires AllWide(t) && Sorted(In(t)) && NotInner(t, k) && (c == i || c == i + 1) && Between(t, c, k)
    requires var m := Merge(t, i);
      Linked(m, d) && Sep(m) && Balanced(m, d, h) && Objs(m) <= Objs(t) && AllWide(m) && In(m) == In(t)
    ensures Ready(t, Merge(t, i), i, d, h, k) && Merge(t, i).kids[i].node == t.kids[i].node && |Merge(t, i).keys| == |t.keys| - 1
  {
    SiblingsBalanced(t, i, d, h);
    MergeBetween(t, i, c, k);
    assert NotInner(t.kids[i], k) && NotInner(t.kids[i + 1], k) && k != t.keys[i];
    NotInnerMerged(t.kids[i], t.keys[i], t.kids[i + 1], k);
    MergeParts(t, i);
    MergedNode(t.kids[i], t.keys[i], t.kids[i + 1]);
    assert Merge(t, i).kids[i] == MergePart(t, i, i);
    hide Linked, Sep, Balanced, AllWide, In, Objs, Merge, Merged, NotInner;
  }

  // ---- on the nodes ----------------------------------------------------------------------------------

  /** The part of btree_delete_key that makes the child large enough: it borrows from the larger
      sibling if one has a key to spare, and is merged with one otherwise. */
  method Enlarge(r: Root, node: BNode, idx: nat, k: int, d: nat, ghost t: Tree, ghost h: nat)
    returns (child: BNode, ghost s: Tree, ghost c: nat)
    requires d >= 2 && Linked(t, d) && Sep(t) && Balanced(t, d, h) && h > 0 && t.node == node && AllWide(t) && Sorted(In(t))
    requires t.keys != [] && NotInner(t, k) && Between(t, idx, k) && r !in Objs(t)
    modifies r`root, Objs(t)
    ensures Ready(t, s, c, d, h, k) && child == s.kids[c].node
    ensures r.root == if s.keys == [] then child else old(r.root)
  {
    hide Linked, Sep, Objs, In, AllWide, Balanced, Sorted, NotInner, Ready, Borrowed, BorrowNext, BorrowPrev, Merge, Merged, Between, Holds;
    Around1(t, idx, d, h, k);
    s, c := t, idx;
    child := node.childrens[idx];
    if child.num != d - 1 {
      ReadySame(t, idx, d, h, k);
      return;
    }
    var left: BNode?, right: BNode? := null, null;
    if idx >= 1 {
      left := node.childrens[idx - 1];
    }
    if idx + 1 <= node.num {
      right := node.childrens[idx + 1];
    }
    if (left != null && left.num >= d) || (right != null && right.num >= d) {
      var richR := right != null && (left == null || right.num > left.num);
      if right != null && right.num >= d && richR {
        s := BorrowNext(t, idx);
        BorrowFromNext(node, idx, d, t, h);
        ReadyNext(t, idx, d, h, k);
      } else {
        s := BorrowPrev(t, idx - 1);
        BorrowFromPrev(node, idx, d, t, h);
        ReadyPrev(t, idx - 1, d, h, k);
      }
    } else if left != null && left.num == d - 1 {
      s, c := Merge(t, idx - 1), idx - 1;
      MergeChildren(r, node, idx - 1, d, t, h);
      ReadyMerge(t, idx - 1, idx, d, h, k);
      child := left;
    } else {
      s := Merge(t, idx);
      MergeChildren(r, node, idx, d, t, h);
      ReadyMerge(t, idx, idx, d, h, k);
    }
  }

  /** The child and its siblings. */
  lemma Around1(t: Tree, c: nat, d: nat, h: nat, k: int)
    requires Linked(t, d) && Balanced(t, d, h) && h > 0 && d >= 2 && t.keys != [] && Between(t, c, k)
    ensures c < |t.kids| == |t.keys| + 1 && t.node.num == |t.keys| && |t.kids| <= t.node.childrens.Length
    ensures forall i :: 0 <= i < |t.kids| ==>
      t.node.childrens[i] == t.kids[i].node && t.kids[i].node.num == |t.kids[i].keys| && |t.kids[i].keys| >= d - 1
  {
    NodeHolds(t, d);
    forall i | 0 <= i < |t.kids| ensures t.kids[i].node.num == |t.kids[i].keys| && |t.kids[i].keys| >= d - 1 {
      assert Linked(t.kids[i], d);
      NodeHolds(t.kids[i], d);
    }
  }

  /** The first loop of btree_delete_key. */
  method FindKey(x: BNode, k: int, ghost d: nat, ghost keys: seq<int>, ghost kids: seq<Tree>) returns (idx: nat)
    requires Holds(x, keys, kids, d)
    ensures idx <= |keys| && (forall j :: 0 <= j < idx ==> keys[j] < k) && (idx < |keys| ==> keys[idx] >= k)
  {
    idx := 0;
    while idx < x.num && k > x.keys[idx]
      invariant idx <= |keys| && forall j :: 0 <= j < idx ==> keys[j] < k
    {
      assert x.keys[idx] == x.keys[..x.num][idx];
      idx := idx + 1;
    }
    if idx < x.num { assert x.keys[idx] == x.keys[..x.num][idx]; }
  }

  /** The branch for a leaf. */
  method DropFromLeaf(x: BNode, idx: nat, ghost d: nat, ghost keys: seq<int>)
    requires Holds(x, keys, [], d) && idx < |keys|
    modifies x`num, x.keys
    ensures Holds(x, keys[..idx] + keys[idx + 1..], [], d)
  {
    ghost var ks, n := x.keys[..], |keys|;
    MoveDown(x.keys, idx + 1, x.num);
    assert x.keys[..idx] == ks[..idx] == keys[..idx] && x.keys[idx..n - 1] == ks[idx + 1..n] == keys[idx + 1..];
    x.keys[x.num - 1] := 0;
    x.num := x.num - 1;
    assert x.keys[..n - 1] == x.keys[..idx] + x.keys[idx..n - 1];
  }

  /** What the deletion of one key gives: the tree, and what T->root is. */
  ghost predicate Deleted(t: Tree, t': Tree, k: int, d: nat, h: nat, h': nat)
    reads Objs(t')
  {
    && Linked(t', d) && Sep(t') && Balanced(t', d, h') && AllWide(t) && AllWide(t') && In(t') == RemoveKey(In(t), k) && Objs(t') <= Objs(t)
    && (|t.keys| >= d ==> t'.node == t.node && h' == h && |t'.keys| >= d - 1)
    && (|t.keys| < d ==> h' > 0 ==> t'.keys != [])
  }

  /** btree_delete_key, for a key that is in a leaf; the node is the root or has a key to spare. */
  method DeleteKey(r: Root, node: BNode, k: int, d: nat, ghost t: Tree, ghost h: nat) returns (ghost t': Tree, ghost h': nat)
    requires d >= 2 && Linked(t, d) && Sep(t) && Balanced(t, d, h) && t.node == node && AllWide(t) && Sorted(In(t))
    requires k in In(t) && NotInner(t, k) && r !in Objs(t)
    requires |t.keys| >= d || (r.root == node && (h > 0 ==> t.keys != []))
    modifies r`root, Objs(t)
    ensures Deleted(t, t', k, d, h, h')
    ensures r.root == if |t.keys| >= d then old(r.root) else if h == 0 && |t.keys| == 1 then null else t'.node
    decreases h, 1
  {
    hide Linked, Sep, Objs, In, AllWide, Balanced, Sorted, NotInner, Deleted, Ready, RemoveKey;
    NodeHolds(t, d);
    ObjsAllocated(t);
    ObjsAre(t);
    var idx := FindKey(node, k, d, t.keys, t.kids);
    if idx < node.num && k == node.keys[idx] {
      LeafHere(t, d, h, k, idx);
      DropFromLeaf(node, idx, d, t.keys);
      t', h' := Tree(node, t.keys[..idx] + t.keys[idx + 1..], []), 0;
      LeafDeleted(t, t', k, d, idx);
      if node.num == 0 {
        r.root := null;
      }
    } else {
      InnerHere(t, d, h, k, idx);
      t', h' := DeleteBelow(r, node, idx, k, d, t, h);
    }
  }

  /** The key is in this node, which is a leaf. */
  lemma LeafHere(t: Tree, d: nat, h: nat, k: int, idx: nat)
    requires Balanced(t, d, h) && NotInner(t, k) && idx < |t.keys| && t.keys[idx] == k
    ensures t.kids == [] && h == 0
  {}

  lemma LeafDeleted(t: Tree, t': Tree, k: int, d: nat, idx: nat)
    requires Balanced(t, d, 0) && AllWide(t) && t.kids == [] && idx < |t.keys| && t.keys[idx] == k && forall j :: 0 <= j < idx ==> t.keys[j] < k
    requires t' == Tree(t.node, t.keys[..idx] + t.keys[idx + 1..], []) && Holds(t.node, t'.keys, [], d)
    ensures Deleted(t, t', k, d, 0, 0) && |t'.keys| == |t.keys| - 1 && Objs(t') <= Objs(t)
  {
    RemoveAt(t.keys, idx, k);
    hide RemoveKey;
    assert Linked(t', d) && Sep(t') && Balanced(t', d, 0) && AllWide(t');
    assert In(t') == RemoveKey(In(t), k);
    assert KidObjs(t', 0) == {};
    assert Objs(t') <= Objs(t);
  }

  /** The key is further down. */
  lemma InnerHere(t: Tree, d: nat, h: nat, k: int, idx: nat)
    requires Balanced(t, d, h) && AllWide(t) && Sorted(In(t)) && k in In(t) && idx <= |t.keys|
    requires (forall j :: 0 <= j < idx ==> t.keys[j] < k) && (idx < |t.keys| ==> t.keys[idx] > k)
    ensures h > 0 && Between(t, idx, k)
  {
    KeysSorted(t);
    NoSuchKey(t.keys, idx, k);
  }

  lemma NoSuchKey(s: seq<int>, idx: nat, k: int)
    requires Sorted(s) && idx <= |s| && (forall j :: 0 <= j < idx ==> s[j] < k) && (idx < |s| ==> s[idx] > k)
    ensures k !in s
  {
    forall j | 0 <= j < |s| ensures s[j] != k { if j > idx { assert s[idx] <= s[j]; } }
  }

  /** The branch that goes down. */
  method DeleteBelow(r: Root, node: BNode, idx: nat, k: int, d: nat, ghost t: Tree, ghost h: nat) returns (ghost t': Tree, ghost h': nat)
    requires d >= 2 && Linked(t, d) && Sep(t) && Balanced(t, d, h) && h > 0 && t.node == node && AllWide(t) && Sorted(In(t))
    requires t.keys != [] && k in In(t) && NotInner(t, k) && r !in Objs(t) && Between(t, idx, k)
    requires |t.keys| >= d || r.root == node
    modifies r`root, Objs(t)
    ensures Deleted(t, t', k, d, h, h')
    ensures r.root == if |t.keys| >= d then old(r.root) else t'.node
    decreases h, 0
  {
    hide Linked, Sep, Objs, In, AllWide, Balanced, Sorted, NotInner, Deleted, Ready, RemoveKey, Between;
    var child;
    ghost var s, c;
    child, s, c := Enlarge(r, node, idx, k, d, t, h);
    ReadyKid(t, s, c, d, h, k);
    ObjsAllocated(s);
    label before:
    ghost var u, hu := DeleteKey(r, child, k, d, s.kids[c], h - 1);
    DeletedIs(s.kids[c], u, k, d, h - 1, hu);
    if s.keys == [] {
      t', h' := u, h - 1;
      OnlyKid(t, s, u, k, d, h);
    } else {
      t', h' := WithKid(s, c, u), h;
      KidReplaced@before(s, c, u, d, Objs(s) - Objs(s.kids[c]));
      KidDeleted(t, s, c, u, k, d, h);
    }
  }

  /** What the recursive call needs, and what does not depend on the nodes. */
  lemma ReadyKid(t: Tree, s: Tree, c: nat, d: nat, h: nat, k: int)
    requires Ready(t, s, c, d, h, k) && k in In(t) && Sorted(In(t)) && h > 0
    ensures Linked(s, d) && Sep(s) && Balanced(s, d, h) && AllWide(s) && In(s) == In(t) && Objs(s) <= Objs(t) && s.node == t.node
    ensures c < |s.kids| && Between(s, c, k) && |s.keys| >= |t.keys| - 1 && (s.keys == [] ==> |s.kids| == 1)
    ensures var y := s.kids[c];
      (&& Linked(y, d) && Sep(y) && Balanced(y, d, h - 1) && AllWide(y) && Sorted(In(y)) && k in In(y) && NotInner(y, k)
       && |y.keys| >= d && Objs(y) <= Objs(s))
  {
    InChild(s, c, k);
    SepParts(s, c);
    NodeHolds(s, d);
  }

  lemma DeletedIs(t: Tree, u: Tree, k: int, d: nat, h: nat, h': nat)
    requires Deleted(t, u, k, d, h, h') && |t.keys| >= d
    ensures Linked(u, d) && Sep(u) && Balanced(u, d, h) && AllWide(u) && In(u) == RemoveKey(In(t), k) && Objs(u) <= Objs(t)
    ensures u.node == t.node && h' == h && |u.keys| >= d - 1
  {}

  /** The root was given up for its only child. */
  lemma OnlyKid(t: Tree, s: Tree, u: Tree, k: int, d: nat, h: nat)
    requires d >= 2 && AllWide(t) && AllWide(s) && In(s) == In(t) && Objs(s) <= Objs(t) && |s.keys| >= |t.keys| - 1 && h > 0
    requires s.keys == [] && |s.kids| == 1 && Objs(u) <= Objs(s.kids[0]) <= Objs(s)
    requires Linked(u, d) && Sep(u) && Balanced(u, d, h - 1) && AllWide(u) && In(u) == RemoveKey(In(s.kids[0]), k) && |u.keys| >= d - 1
    ensures Deleted(t, u, k, d, h, h - 1)
  {
    InFirst(s);
    NoneBehind(s);
    hide RemoveKey, In, Linked, Sep, Balanced, AllWide, Objs;
    assert In(s.kids[0]) + [] == In(s.kids[0]);
  }

  lemma NoneBehind(s: Tree)
    requires AllWide(s) && s.keys == [] && |s.kids| == 1
    ensures Post(s, 0) == []
  {}

  lemma SmallerSep(t: Tree, c: nat, u: Tree)
    requires Sep(t) && c < |t.kids| && Sep(u) && Objs(u) <= Objs(t.kids[c])
    ensures Sep(WithKid(t, c, u)) && Objs(WithKid(t, c, u)) <= Objs(t)
  {
    var t' := WithKid(t, c, u);
    SepParts(t, c);
    forall j, k | 0 <= j < k < |t'.kids| ensures Objs(t'.kids[j]) !! Objs(t'.kids[k]) {
      assert Objs(t.kids[j]) !! Objs(t.kids[k]);
    }
    forall o | o in Objs(t') ensures o in Objs(t) {
      if o !in Own(t.node) { var j := InKid(t', |t'.kids|, o); }
    }
  }

  lemma KidDeleted(t: Tree, s: Tree, c: nat, u: Tree, k: int, d: nat, h: nat)
    requires d >= 2 && Balanced(s, d, h) && AllWide(t) && AllWide(s) && Sorted(In(s)) && In(s) == In(t) && Objs(s) <= Objs(t) && s.node == t.node
    requires h > 0 && c < |s.kids| && Between(s, c, k) && |s.keys| >= |t.keys| - 1 && s.keys != [] && Sep(s) && k in In(s.kids[c])
    requires Sep(u) && Balanced(u, d, h - 1) && AllWide(u) && In(u) == RemoveKey(In(s.kids[c]), k) && Objs(u) <= Objs(s.kids[c]) && |u.keys| >= d - 1
    requires Linked(WithKid(s, c, u), d)
    ensures Deleted(t, WithKid(s, c, u), k, d, h, h)
  {
    RemoveFromKid(s, c, u, k);
    SmallerSep(s, c, u);
    BelowBalanced(s, c, u, d, h);
    hide RemoveKey, In, Linked, Sep, Balanced, AllWide, Objs;
  }

  /** btree_delete of a key that is in a leaf: exactly one occurrence goes, and the tree stays a
      B-tree; with its last key T->root becomes null. Without a root the answer is -1. */
  method Delete(r: Root, key: int) returns (code: int)
    requires r.root == null || (r.Valid() && key in r.Contents() && NotInner(r.shape, key))
    modifies r, Objs(r.shape)
    ensures code == if old(r.root) == null then -1 else 0
    ensures old(r.root) == null ==> r.root == null
    ensures old(r.root) != null ==> if |old(r.Contents())| == 1 then r.root == null else r.Valid()
    ensures old(r.root) != null ==> r.Contents() == RemoveKey(old(r.Contents()), key) && Objs(r.shape) <= old(Objs(r.shape))
  {
    if r.root == null {
      return -1;
    }
    hide Objs, NotInner, RemoveKey, Root.Valid, Root.Contents;
    DeleteFound(r, key);
    return 0;
  }

  /** btree_delete with a root. */
  method DeleteFound(r: Root, key: int)
    requires r.root != null && r.Valid() && key in r.Contents() && NotInner(r.shape, key)
    modifies r, Objs(r.shape)
    ensures if |old(r.Contents())| == 1 then r.root == null else r.Valid()
    ensures r.Contents() == RemoveKey(old(r.Contents()), key) && Objs(r.shape) <= old(Objs(r.shape))
  {
    hide Linked, Sep, Objs, In, AllWide, Balanced, Sorted, NotInner, Deleted, RemoveKey, Root.Valid, Root.Contents;
    RootParts(r);
    ghost var s, h := r.shape, r.height;
    OneKey(s, r.t, h);
    RemoveSorted(In(s), key);
    ghost var s', h' := DeleteKey(r, r.root, key, r.t, s, h);
    DeletedWhole(s, s', key, r.t, h, h');
    Settle(r, s', h');
  }

  /** The tree that is now below the root. */
  method Settle(r: Root, ghost s: Tree, ghost h: nat)
    requires r.t >= 2 && r !in Objs(s) && AllWide(s) && Sorted(In(s))
    requires Linked(s, r.t) && Sep(s) && Balanced(s, r.t, h) && (h > 0 ==> s.keys != [])
    modifies r`shape, r`height
    ensures r.shape == s && r.Contents() == In(s) && (r.root == s.node ==> r.Valid())
  {
    hide Linked, Sep, Objs, In, AllWide, Balanced, Sorted, Root.Valid;
    ObjsAllocated(s);
    r.shape, r.height := s, h;
    RootWhole(r);
  }

  lemma RootParts(r: Root)
    requires r.Valid()
    ensures r.t >= 2 && r.root == r.shape.node && r !in Objs(r.shape) && AllWide(r.shape) && r.Contents() == In(r.shape) && Sorted(In(r.shape))
    ensures Linked(r.shape, r.t) && Sep(r.shape) && Balanced(r.shape, r.t, r.height) && (r.height > 0 ==> r.shape.keys != [])
  {}

  lemma RootWhole(r: Root)
    requires r.t >= 2 && r !in Objs(r.shape) && AllWide(r.shape) && Sorted(In(r.shape))
    requires Linked(r.shape, r.t) && Sep(r.shape) && Balanced(r.shape, r.t, r.height) && (r.height > 0 ==> r.shape.keys != [])
    ensures r.Contents() == In(r.shape) && (r.root == r.shape.node ==> r.Valid())
  {}

  /** A tree with one key is a leaf with that key. */
  lemma OneKey(t: Tree, d: nat, h: nat)
    requires Balanced(t, d, h) && AllWide(t) && d >= 2 && (h > 0 ==> t.keys != [])
    ensures (h == 0 && |t.keys| == 1) <==> |In(t)| == 1
    ensures |t.keys| >= d ==> |In(t)| > 1
  {
    if h > 0 {
      InnerSize(t, d, h);
    }
  }

  lemma {:induction false} PreSize(t: Tree, i: nat)
    requires AllWide(t) && t.kids != [] && i <= |t.keys|
    ensures |Pre(t, i)| >= i
    decreases i
  {
    if i > 0 { PreSize(t, i - 1); }
  }

  lemma {:induction false} InSize(t: Tree)
    requires AllWide(t)
    ensures |In(t)| >= |t.keys| + if t.kids == [] then 0 else |In(t.kids[|t.keys|])|
  {
    if t.kids != [] { PreSize(t, |t.keys|); }
  }

  lemma InnerSize(t: Tree, d: nat, h: nat)
    requires Balanced(t, d, h) && AllWide(t) && d >= 2 && h > 0
    ensures |In(t)| > |t.keys|
  {
    InSize(t);
    InSize(t.kids[|t.keys|]);
  }

  lemma DeletedWhole(t: Tree, u: Tree, k: int, d: nat, h: nat, h': nat)
    requires Deleted(t, u, k, d, h, h')
    ensures Linked(u, d) && Sep(u) && Balanced(u, d, h') && AllWide(u) && In(u) == RemoveKey(In(t), k) && Objs(u) <= Objs(t)
    ensures |t.keys| >= d ==> u.node == t.node && h' == h && |u.keys| >= d - 1
    ensures |t.keys| < d ==> h' > 0 ==> u.keys != []
  {}

  // ---- a key of an inner node --------------------------------------------------------------------------

  /** The branch for a key of an inner node whose left child has keys to spare: the last key of
      that child takes its place. */
  function Replaced(t: Tree, i: nat): Tree
    requires i < |t.keys| && i < |t.kids| && t.kids[i].keys != []
  {
    var y := t.kids[i];
    Tree(t.node, t.keys[i := y.keys[|y.keys| - 1]], t.kids)
  }

  predicate Ascending(s: seq<int>) { forall i, j :: 0 <= i < j < |s| ==> s[i] < s[j] }

  lemma ReplacedIn(t: Tree, i: nat)
    requires AllWide(t) && i < |t.keys| && i + 1 < |t.kids| && t.kids[i].keys != []
    ensures var y, t' := t.kids[i], Replaced(t, i);
      (&& AllWide(t') && In(t') == Pre(t, i) + In(y) + ([y.keys[|y.keys| - 1]] + In(t.kids[i + 1]) + Post(t, i + 1))
       && In(t) == Pre(t, i) + In(y) + ([t.keys[i]] + In(t.kids[i + 1]) + Post(t, i + 1)))
  {
    var t' := Replaced(t, i);
    Around(t, i);
    Around(t', i);
    PreSame(t', t, i);
    assert t'.keys[i + 1..] == t.keys[i + 1..];
    PostSame(t', i + 1, t, i + 1);
    PostIs(t, i);
    PostIs(t', i);
  }

  /** What is behind the last key of an inner node. */
  lemma LastPart(y: Tree)
    requires AllWide(y) && y.keys != [] && y.kids != []
    ensures var n := |y.keys| - 1; In(y) == Pre(y, n) + In(y.kids[n]) + ([y.keys[n]] + In(y.kids[n + 1]) + [])
  {
    var n := |y.keys| - 1;
    Around(y, n);
    PostIs(y, n);
    assert Post(y, n + 1) == [];
  }

  /** The keys stay in order if and only if that child is a leaf. */
  lemma PredecessorIff(t: Tree, i: nat, d: nat, h: nat)
    requires Balanced(t, d, h) && d >= 2 && h > 0 && i < |t.keys| && |t.kids[i].keys| >= d && AllWide(t) && Ascending(In(t))
    ensures i + 1 < |t.kids| && AllWide(Replaced(t, i)) && (Sorted(In(Replaced(t, i))) <==> t.kids[i].kids == [])
  {
    var y := t.kids[i];
    SiblingsBalanced(t, i, d, h);
    WideKids(t);
    ReplacedIn(t, i);
    hide Balanced, AllWide, Ascending, Sorted, In, Pre, Post, Replaced;
    var x, b := y.keys[|y.keys| - 1], In(t.kids[i + 1]) + Post(t, i + 1);
    Assoc([x], In(t.kids[i + 1]), Post(t, i + 1));
    Assoc([t.keys[i]], In(t.kids[i + 1]), Post(t, i + 1));
    ReplacedBelow(Pre(t, i), y, t.keys[i], b, d, h - 1);
  }

  lemma ReplacedBelow(a: seq<int>, y: Tree, k: int, b: seq<int>, d: nat, h: nat)
    requires Balanced(y, d, h) && d >= 2 && AllWide(y) && y.keys != [] && Ascending(a + In(y) + ([k] + b))
    ensures Sorted(a + In(y) + ([y.keys[|y.keys| - 1]] + b)) <==> y.kids == []
  {
    var x, m := y.keys[|y.keys| - 1], In(y);
    if y.kids == [] {
      LeafIn(y);
      hide *;
      ReplacedSorted(a, m, k, x, b);
    } else {
      LastPart(y);
      KeyOfLast(y, d, h);
      WideKids(y);
      hide *;
      Unsorted(a, Pre(y, |y.keys| - 1) + In(y.kids[|y.keys| - 1]), x, In(y.kids[|y.keys|]), k, b, m);
    }
  }

  lemma LeafIn(y: Tree)
    requires AllWide(y) && y.kids == []
    ensures In(y) == y.keys
  {}

  lemma KeyOfLast(y: Tree, d: nat, h: nat)
    requires Balanced(y, d, h) && d >= 2 && y.kids != [] && AllWide(y)
    ensures In(y.kids[|y.keys|]) != []
  {
    InSize(y.kids[|y.keys|]);
  }

  lemma ReplacedSorted(a: seq<int>, m: seq<int>, k: int, x: int, b: seq<int>)
    requires Ascending(a + m + ([k] + b)) && m != [] && x == m[|m| - 1]
    ensures Sorted(a + m + ([x] + b))
  {
    var s, r, n := a + m + ([k] + b), a + m + ([x] + b), |a + m|;
    assert r == s[n := x] && s[n] == k && s[n - 1] == x;
  }

  lemma Unsorted(a: seq<int>, p: seq<int>, x: int, z: seq<int>, k: int, b: seq<int>, m: seq<int>)
    requires m == p + ([x] + z + []) && z != [] && Ascending(a + m + ([k] + b))
    ensures !Sorted(a + m + ([x] + b))
  {
    var s, r := a + m + ([k] + b), a + m + ([x] + b);
    var i, j := |a| + |p|, |a| + |p| + 1;
    assert s[i] == m[|p|] == x && s[j] == m[|p| + 1] == z[0];
    assert r[j] == z[0] && r[|a + m|] == x;
  }

  lemma InTwo(n: BNode, a: Tree, x: int, b: Tree)
    requires AllWide(a) && AllWide(b)
    ensures var t := Tree(n, [x], [a, b]); AllWide(t) && In(t) == In(a) + [x] + In(b)
  {
    var t := Tree(n, [x], [a, b]);
    assert AllWide(t) && Pre(t, 0) == [];
    hide In, Pre, Post, AllWide;
    assert t.kids[0] == a && t.kids[1] == b && t.keys[0] == x;
    PreIs(t, 0);
    InLast(t);
    assert [] + In(a) + [x] == In(a) + [x];
  }

  lemma InThree(n: BNode, a: Tree, x: int, b: Tree, y: int, c: Tree)
    requires AllWide(a) && AllWide(b) && AllWide(c)
    ensures var t := Tree(n, [x, y], [a, b, c]); AllWide(t) && In(t) == In(a) + [x] + In(b) + [y] + In(c)
  {
    var t := Tree(n, [x, y], [a, b, c]);
    assert AllWide(t) && Pre(t, 0) == [];
    hide In, Pre, Post, AllWide;
    assert t.kids[0] == a && t.kids[1] == b && t.kids[2] == c && t.keys[0] == x && t.keys[1] == y;
    PreIs(t, 0);
    PreIs(t, 1);
    InLast(t);
    assert [] + In(a) + [x] == In(a) + [x];
  }

  lemma LeafOf(n: BNode, x: int)
    ensures var y := Tree(n, [x], []); AllWide(y) && In(y) == [x] && Balanced(y, 2, 0)
  {}

  lemma NineKeys()
    ensures Ascending([10] + [20] + [25] + [30] + [40] + [50] + ([60] + [70] + [80]))
  {
    assert [10] + [20] + [25] + [30] + [40] + [50] + ([60] + [70] + [80]) == [10, 20, 25, 30, 40, 50, 60, 70, 80];
  }

  lemma Levels(n: BNode, a: Tree, b: Tree, c: Tree, e: Tree, f: Tree)
    requires forall y :: y in [a, b, c, e, f] ==> Balanced(y, 2, 0) && |y.keys| == 1
    ensures Balanced(Tree(n, [50], [Tree(n, [20, 30], [a, b, c]), Tree(n, [70], [e, f])]), 2, 2)
  {
    var y, z := Tree(n, [20, 30], [a, b, c]), Tree(n, [70], [e, f]);
    assert Balanced(y, 2, 1) && Balanced(z, 2, 1);
  }

  /** Deleting 50 from a tree of three levels leaves 40 in front of 30. */
  lemma OutOfOrder(n: BNode)
    ensures var t := Tree(n, [50], [
      Tree(n, [20, 30], [Tree(n, [10], []), Tree(n, [25], []), Tree(n, [40], [])]),
      Tree(n, [70], [Tree(n, [60], []), Tree(n, [80], [])])]);
      Balanced(t, 2, 2) && AllWide(Replaced(t, 0)) && !Sorted(In(Replaced(t, 0)))
  {
    var a, b, c, e, f := Tree(n, [10], []), Tree(n, [25], []), Tree(n, [40], []), Tree(n, [60], []), Tree(n, [80], []);
    LeafOf(n, 10);
    LeafOf(n, 25);
    LeafOf(n, 40);
    LeafOf(n, 60);
    LeafOf(n, 80);
    var y, z := Tree(n, [20, 30], [a, b, c]), Tree(n, [70], [e, f]);
    var t := Tree(n, [50], [y, z]);
    Levels(n, a, b, c, e, f);
    hide Balanced, AllWide, In, Sorted, Pre, Replaced, Ascending;
    InThree(n, a, 20, b, 30, c);
    InTwo(n, e, 70, f);
    InTwo(n, y, 50, z);
    NineKeys();
    PredecessorIff(t, 0, 2, 2);
  }
}
