/** The linked tree of code/timer/rbtree.c with parent pointers and a sentinel. The two
    mirror-image branches of the source are one body with the side as a parameter. */
module RbTree {
  import opened Words
  import opened RbFixup
  import opened RbShape
  import opened RbSplice

  ghost function Ptr(t: Tree, s: RbNode): RbNode { if t.Leaf? then s else t.it.n }

  function Kid(n: RbNode, left: bool): RbNode?
    reads n
  {
    if left then n.left else n.right
  }

  /** The nodes of `t` carry its keys and colours and are linked as `t` says, under `p`. */
  ghost predicate Linked(t: Tree, p: RbNode?, s: RbNode)
    reads Nodes(t)
  {
    t.Node? ==>
      && t.it.n.key == t.it.key && t.it.n.red == t.red && t.it.n.parent == p
      && t.it.n.left == Ptr(t.l, s) && t.it.n.right == Ptr(t.r, s)
      && Linked(t.l, t.it.n, s) && Linked(t.r, t.it.n, s)
  }

  /** The surroundings of the subtree at `ptr`; the parent field of the root is free. */
  ghost predicate LinkedCtx(c: Ctx, ptr: RbNode, s: RbNode, root: RbNode)
    reads CtxNodes(c)
  {
    match c
    case Top => root == ptr
    case Under(left, up, it, red, sib) =>
      && it.n.key == it.key && it.n.red == red && (up.Under? ==> it.n.parent == up.it.n)
      && Kid(it.n, left) == ptr && Kid(it.n, !left) == Ptr(sib, s) && Linked(sib, it.n, s)
      && LinkedCtx(up, it.n, s, root)
  }

  /** The parent field the root of `t` has to carry below `c`. */
  ghost function ParentIn(c: Ctx, t: Tree): RbNode?
    reads Nodes(t)
  {
    if c.Under? then c.it.n else if t.Node? then t.it.n.parent else null
  }

  lemma RotatedSep(left: bool, f: Tree)
    requires f.Node? && Near(!left, f).Node? && Sep(f)
    ensures Sep(Rotated(left, f)) && Nodes(Rotated(left, f)) == Nodes(f)
  {
    var y := Near(!left, f);
    var x' := Make(left, Near(left, f), f.it, f.red, Near(left, y));
    assert Nodes(x') == Nodes(Near(left, f)) + {f.it.n} + Nodes(Near(left, y));
  }

  /** A subtree none of whose nodes changed is still linked. */
  twostate lemma LinkedFrame(new t: Tree, new p: RbNode?, new s: RbNode, new same: set<RbNode>)
    requires old(allocated(t)) && old(allocated(same)) && old(allocated(p)) && old(allocated(s))
    requires old(Linked(t, p, s)) && Nodes(t) <= same && unchanged(same)
    ensures Linked(t, p, s)
  {}

  /** The items of a linked tree are its nodes with their keys. */
  lemma {:induction false} ItemsLinked(t: Tree, p: RbNode?, s: RbNode, i: nat)
    requires Linked(t, p, s) && i < |Inorder(t)|
    ensures Inorder(t)[i].n.key == Inorder(t)[i].key && Inorder(t)[i].n in Nodes(t)
    decreases t
  {
    var k := |Inorder(t.l)|;
    if i < k {
      ItemsLinked(t.l, t.it.n, s, i);
    } else if i > k {
      ItemsLinked(t.r, t.it.n, s, i - k - 1);
    }
  }

  lemma {:induction false} NodesAllocated(t: Tree)
    ensures forall n :: n in Nodes(t) ==> allocated(n)
    decreases t
  {
    if t.Node? {
      NodesAllocated(t.l);
      NodesAllocated(t.r);
    }
  }

  lemma {:induction false} CtxAllocated(c: Ctx)
    ensures forall n :: n in CtxNodes(c) ==> allocated(n)
    decreases c
  {
    if c.Under? {
      NodesAllocated(c.sib);
      CtxAllocated(c.up);
    }
  }

  twostate lemma CtxFrame(new c: Ctx, new ptr: RbNode, new s: RbNode, new root: RbNode, new same: set<RbNode>)
    requires old(allocated(c)) && old(allocated(same)) && old(allocated(ptr)) && old(allocated(s)) && old(allocated(root))
    requires old(LinkedCtx(c, ptr, s, root)) && CtxNodes(c) <= same && unchanged(same)
    ensures LinkedCtx(c, ptr, s, root)
  {}

  /** The node of `c` now points to `ptr'` where it pointed to `ptr`. */
  twostate lemma CtxRepointed(new c: Ctx, new ptr: RbNode, new ptr': RbNode, new s: RbNode, new root: RbNode, new root': RbNode, new same: set<RbNode>)
    requires old(allocated(c)) && old(allocated(same)) && old(allocated(ptr)) && old(allocated(ptr')) && old(allocated(s)) && old(allocated(root)) && old(allocated(root'))
    requires old(LinkedCtx(c, ptr, s, root)) && unchanged(same)
    requires c.Top? ==> root' == ptr'
    requires c.Under? ==>
      && root' == root && c.it.n.key == old(c.it.n.key) && c.it.n.red == old(c.it.n.red)
      && c.it.n.parent == old(c.it.n.parent)
      && Kid(c.it.n, c.left) == ptr' && Kid(c.it.n, !c.left) == old(Kid(c.it.n, !c.left))
      && Nodes(c.sib) <= same && CtxNodes(c.up) <= same
    ensures LinkedCtx(c, ptr', s, root')
  {
    if c.Under? {
      LinkedFrame(c.sib, c.it.n, s, same);
      CtxFrame(c.up, c.it.n, s, root, same);
    }
  }

  /** A subtree whose root only got another parent. */
  twostate lemma LinkedReparented(new t: Tree, new p: RbNode?, new p': RbNode?, new s: RbNode, new same: set<RbNode>)
    requires old(allocated(t)) && old(allocated(same)) && old(allocated(p)) && old(allocated(p')) && old(allocated(s))
    requires old(Linked(t, p, s)) && unchanged(same)
    requires t.Node? ==>
      && t.it.n.key == old(t.it.n.key) && t.it.n.red == old(t.it.n.red) && t.it.n.parent == p'
      && t.it.n.left == old(t.it.n.left) && t.it.n.right == old(t.it.n.right)
      && Nodes(t.l) <= same && Nodes(t.r) <= same
    ensures Linked(t, p', s)
  {
    if t.Node? {
      LinkedFrame(t.l, t.it.n, s, same);
      LinkedFrame(t.r, t.it.n, s, same);
    }
  }

  /** The links a rotation of `f` sets. */
  twostate lemma LinkedRotated(new left: bool, new f: Tree, new p: RbNode?, new s: RbNode, new same: set<RbNode>)
    requires old(allocated(f)) && old(allocated(same)) && old(allocated(p)) && old(allocated(s))
    requires f.Node? && Near(!left, f).Node? && old(Linked(f, p, s)) && unchanged(same)
    requires var y := Near(!left, f); var a, b, d := Near(left, f), Near(left, y), Near(!left, y);
      (&& Nodes(a) <= same && Nodes(d) <= same && (b.Node? ==> Nodes(b.l) <= same && Nodes(b.r) <= same)
       && f.it.n.key == old(f.it.n.key) && f.it.n.red == old(f.it.n.red) && f.it.n.parent == y.it.n
       && Kid(f.it.n, left) == old(Kid(f.it.n, left)) && Kid(f.it.n, !left) == Ptr(b, s)
       && y.it.n.key == old(y.it.n.key) && y.it.n.red == old(y.it.n.red) && y.it.n.parent == p
       && Kid(y.it.n, left) == f.it.n && Kid(y.it.n, !left) == old(Kid(y.it.n, !left))
       && (b.Node? ==>
             && b.it.n.key == old(b.it.n.key) && b.it.n.red == old(b.it.n.red) && b.it.n.parent == f.it.n
             && b.it.n.left == old(b.it.n.left) && b.it.n.right == old(b.it.n.right)))
    ensures Linked(Rotated(left, f), p, s)
  {
    var y := Near(!left, f);
    LinkedFrame(Near(left, f), f.it.n, s, same);
    LinkedFrame(Near(!left, y), y.it.n, s, same);
    LinkedReparented(Near(left, y), y.it.n, f.it.n, s, same);
  }

  class RbTree {
    var root: RbNode
    var sentinel: RbNode
    /** Which insert function the tree was initialised with. */
    var timer: bool

    /** The tree the links stand for, and where the ranks of its keys start. */
    ghost var shape: Tree
    ghost var base: u32

    ghost function Contents(): seq<Item>
      reads this`shape
    {
      Inorder(shape)
    }

    /** Search order, red-black rules and consistent links. */
    ghost predicate Valid()
      reads this, sentinel, Nodes(shape)
    {
      At(Top, shape) && RedBlack(shape) && Sorted(base, Contents()) && AllInRange(timer, base, Contents())
    }

    /** ngx_rbtree_init. */
    constructor (s: RbNode, t: bool, ghost start: u32)
      requires t || start == 0
      modifies s
      ensures Valid() && Contents() == [] && sentinel == s && timer == t && base == start
    {
      root, sentinel, timer := s, s, t;
      shape, base := Leaf, start;
      new;
      s.red := false;
      assert Balanced(Leaf, 0);
    }

    /** The whole tree is `f` in the surroundings `c`, but the root of `f` has parent `p`. */
    ghost predicate Hangs(c: Ctx, f: Tree, p: RbNode?)
      reads this`root, this`sentinel, sentinel, CtxNodes(c), Nodes(f)
    {
      && sentinel !in CtxNodes(c) && sentinel !in Nodes(f) && !sentinel.red
      && Sep(f) && SepCtx(c, Nodes(f))
      && Linked(f, p, sentinel) && LinkedCtx(c, Ptr(f, sentinel), sentinel, root)
    }

    /** The whole tree is `f` in the surroundings `c`. */
    ghost predicate At(c: Ctx, f: Tree)
      reads this`root, this`sentinel, sentinel, CtxNodes(c), Nodes(f)
    {
      Hangs(c, f, ParentIn(c, f))
    }

    lemma ZipUp(c: Ctx, f: Tree)
      requires At(c, f) && c.Under?
      ensures At(c.up, Make(c.left, f, c.it, c.red, c.sib))
    {
      assert Nodes(Make(c.left, f, c.it, c.red, c.sib)) == Nodes(f) + {c.it.n} + Nodes(c.sib);
    }

    lemma ZipDown(left: bool, c: Ctx, f: Tree)
      requires At(c, f) && f.Node?
      ensures At(Under(left, c, f.it, f.red, Near(!left, f)), Near(left, f))
    {
      assert Nodes(f) == Nodes(Near(left, f)) + {f.it.n} + Nodes(Near(!left, f));
      SepCtxDisjoint(c, Nodes(f));
    }

    lemma {:induction false} ZipAll(c: Ctx, f: Tree)
      ensures At(c, f) <==> At(Top, Plug(c, f))
      decreases c
    {
      if c.Under? {
        var t := Make(c.left, f, c.it, c.red, c.sib);
        ZipAll(c.up, t);
        if At(c, f) { ZipUp(c, f); }
        if At(c.up, t) { ZipDown(c.left, c.up, t); }
      }
    }

    /** Colours one node. */
    method Paint(n: RbNode, red: bool, ghost c: Ctx, ghost f: Tree)
      requires At(c, f) && f.Node? && f.it.n == n
      modifies n`red
      ensures At(c, f.(red := red))
    {
      SepCtxDisjoint(c, Nodes(f));
      n.red := red;
    }

    /** The assignments of ngx_rbtree_left_rotate (left) and ngx_rbtree_right_rotate. */
    method RotateLinks(left: bool, node: RbNode, temp: RbNode, inner: RbNode, ghost c: Ctx)
      requires Kid(node, !left) == temp && Kid(temp, left) == inner && temp != node && inner != node && inner != temp
      requires temp != sentinel && node != sentinel
      requires c.Top? ==> root == node
      requires c.Under? ==> root != node && node.parent == c.it.n && c.it.n !in {node, temp, inner}
      requires c.Under? ==> Kid(c.it.n, c.left) == node && Kid(c.it.n, !c.left) != node
      modifies this`root, node, temp
      modifies (if inner != sentinel then {inner} else {}) + (if c.Under? then {c.it.n} else {})
      ensures node.key == old(node.key) && node.red == old(node.red) && node.parent == temp
      ensures Kid(node, left) == old(Kid(node, left)) && Kid(node, !left) == inner
      ensures temp.key == old(temp.key) && temp.red == old(temp.red) && temp.parent == old(node.parent)
      ensures Kid(temp, left) == node && Kid(temp, !left) == old(Kid(temp, !left))
      ensures inner != sentinel ==>
        && inner.key == old(inner.key) && inner.red == old(inner.red) && inner.parent == node
        && inner.left == old(inner.left) && inner.right == old(inner.right)
      ensures c.Top? ==> root == temp
      ensures c.Under? ==>
        && root == old(root) && Kid(c.it.n, c.left) == temp && Kid(c.it.n, !c.left) == old(Kid(c.it.n, !c.left))
        && c.it.n.parent == old(c.it.n.parent) && c.it.n.key == old(c.it.n.key) && c.it.n.red == old(c.it.n.red)
    {
      if left { node.right := inner; } else { node.left := inner; }
      if inner != sentinel {
        inner.parent := node;
      }
      temp.parent := node.parent;
      Relink(left, node, temp, c);
      if left { temp.left := node; } else { temp.right := node; }
      node.parent := temp;
    }

    /** A rotation at `node` turns the subtree `f` into its rotation and nothing else. */
    method Rotate(left: bool, node: RbNode, ghost c: Ctx, ghost f: Tree)
      requires At(c, f) && f.Node? && f.it.n == node && Near(!left, f).Node?
      modifies this`root, Nodes(f), CtxNodes(c)
      ensures At(c, Rotated(left, f))
    {
      ghost var y := Near(!left, f);
      ghost var b, p := Near(left, y), node.parent;
      ghost var same, touched := RotateParts(left, c, f);
      var temp: RbNode := Kid(node, !left);
      var inner: RbNode := Kid(temp, left);
      label before:
      RotateLinks(left, node, temp, inner, c);
      assert unchanged@before(same);
      LinkedRotated(left, f, p, sentinel, same);
      CtxRepointed(c, node, temp, sentinel, old(root), root, same);
      RotatedSep(left, f);
    }

    /** Which nodes a rotation leaves alone. */
    lemma RotateParts(left: bool, c: Ctx, f: Tree) returns (same: set<RbNode>, touched: set<RbNode>)
      requires At(c, f) && f.Node? && Near(!left, f).Node?
      ensures var y := Near(!left, f); var a, b, d := Near(left, f), Near(left, y), Near(!left, y);
        (&& Kid(f.it.n, !left) == y.it.n && Kid(y.it.n, left) == Ptr(b, sentinel)
         && f.it.n != y.it.n && f.it.n != sentinel && y.it.n != sentinel && y.it.n in Nodes(f)
         && (b.Node? ==> b.it.n !in {f.it.n, y.it.n, sentinel} && b.it.n in Nodes(f))
         && touched == {f.it.n, y.it.n} + (if b.Node? then {b.it.n} else {}) + (if c.Under? then {c.it.n} else {})
         && same == Nodes(f) + CtxNodes(c) - touched && touched <= Nodes(f) + CtxNodes(c)
         && Nodes(a) <= same && Nodes(d) <= same && (b.Node? ==> Nodes(b.l) <= same && Nodes(b.r) <= same)
         && (c.Top? ==> root == f.it.n)
         && (c.Under? ==>
               && root != f.it.n && f.it.n.parent == c.it.n && c.it.n !in Nodes(f) + {sentinel}
               && Kid(c.it.n, c.left) == f.it.n && Kid(c.it.n, !c.left) != f.it.n
               && Nodes(c.sib) <= same && CtxNodes(c.up) <= same))
      ensures forall n :: n in same ==> allocated(n)
    {
      SepCtxDisjoint(c, Nodes(f));
      NodesAllocated(f);
      CtxAllocated(c);
      var y := Near(!left, f);
      var b := Near(left, y);
      assert Nodes(y) == Nodes(b) + {y.it.n} + Nodes(Near(!left, y));
      assert Nodes(f) == Nodes(Near(left, f)) + {f.it.n} + Nodes(y);
      assert Sep(y) && Sep(b) && Linked(y, f.it.n, sentinel);
      touched := {f.it.n, y.it.n} + (if b.Node? then {b.it.n} else {}) + (if c.Under? then {c.it.n} else {});
      same := Nodes(f) + CtxNodes(c) - touched;
      if c.Under? {
        SepCtxDisjoint(c.up, Nodes(f) + {c.it.n} + Nodes(c.sib));
        RootOutside(c, f);
      }
    }

    lemma RootOutside(c: Ctx, f: Tree)
      requires c.Under?
      requires LinkedCtx(c, Ptr(f, sentinel), sentinel, root)
      ensures root in CtxNodes(c)
      decreases c
    {
      if c.up.Under? { RootOutside(c.up, Node(Leaf, c.it, c.red, Leaf)); }
    }

    /** Puts `temp` where the parent of `node`, or the tree, points to `node`. */
    method Relink(left: bool, node: RbNode, temp: RbNode, ghost c: Ctx)
      requires c.Top? ==> root == node
      requires c.Under? ==> root != node && node.parent == c.it.n && node != sentinel
      requires c.Under? ==> Kid(c.it.n, c.left) == node && Kid(c.it.n, !c.left) != node
      modifies this`root
      modifies if c.Under? then {c.it.n} else {}
      ensures c.Top? ==> root == temp
      ensures c.Under? ==>
        && root == old(root) && Kid(c.it.n, c.left) == temp && Kid(c.it.n, !c.left) == old(Kid(c.it.n, !c.left))
        && c.it.n.parent == old(c.it.n.parent) && c.it.n.key == old(c.it.n.key) && c.it.n.red == old(c.it.n.red)
    {
      if node == root {
        root := temp;
      } else {
        var up: RbNode := node.parent;
        if Kid(up, left) == node {
          if left { up.left := temp; } else { up.right := temp; }
        } else {
          if left { up.right := temp; } else { up.left := temp; }
        }
      }
    }
  
    // ---- insertion ---------------------------------------------------------------

    /** The assignments that hang `node` below `temp` as a red leaf. */
    method LinkLeaf(left: bool, temp: RbNode, node: RbNode, ghost c: Ctx)
      requires At(c, Leaf) && c.Under? && c.left == left && c.it.n == temp
      requires node !in CtxNodes(c) && node != sentinel
      modifies temp, node
      ensures node.key == old(node.key) && At(c, Node(Leaf, Item(node, node.key), true, Leaf))
    {
      CtxAllocated(c);
      ghost var same := CtxNodes(c.up) + Nodes(c.sib);
      SepCtxDisjoint(c.up, Nodes(Leaf) + {c.it.n} + Nodes(c.sib));
      SepOther(c, {}, {node}, node);
      assert {node} == Nodes(Node(Leaf, Item(node, node.key), true, Leaf)) && Nodes(Leaf) == {};
      if left { temp.left := node; } else { temp.right := node; }
      node.parent := temp;
      node.left := sentinel;
      node.right := sentinel;
      node.red := true;
      CtxRepointed(c, sentinel, node, sentinel, root, root, same);
    }

    lemma {:induction false} SepOther(c: Ctx, inner: set<RbNode>, inner': set<RbNode>, n: RbNode)
      requires SepCtx(c, inner) && n !in CtxNodes(c) && inner' <= inner + {n}
      ensures SepCtx(c, inner')
      decreases c
    {
      if c.Under? {
        SepOther(c.up, inner + {c.it.n} + Nodes(c.sib), inner' + {c.it.n} + Nodes(c.sib), n);
      }
    }

    /** The descent of ngx_rbtree_insert_value and ngx_rbtree_insert_timer_value, from
        the root to the node and side where `node` goes. */
    method Descend(node: RbNode) returns (temp: RbNode, left: bool, ghost c: Ctx)
      requires Valid() && shape.Node? && node !in Nodes(shape) && InRange(timer, base, node.key)
      ensures c.Under? && c.left == left && c.it.n == temp && temp in Nodes(shape)
      ensures Plug(c, Leaf) == shape && At(c, Leaf)
      ensures AllAtMost(base, Before(c), node.key) && AllAbove(base, After(c), node.key)
    {
      temp := root;
      ghost var f;
      c, f := Top, shape;
      left := Less(timer, node.key, temp.key);
      while Kid(temp, left) != sentinel
        invariant At(c, f) && f.Node? && f.it.n == temp && Plug(c, f) == shape
        invariant AllAtMost(base, Before(c), node.key) && AllAbove(base, After(c), node.key)
        invariant left == Less(timer, node.key, temp.key)
        decreases f
      {
        BoundsDown(timer, base, node.key, left, c, f);
        ZipDown(left, c, f);
        var next: RbNode := Kid(temp, left);
        c, f := Under(left, c, f.it, f.red, Near(!left, f)), Near(left, f);
        temp := next;
        left := Less(timer, node.key, temp.key);
      }
      BoundsDown(timer, base, node.key, left, c, f);
      ZipDown(left, c, f);
      assert Near(left, f) == Leaf;
      PlugNodes(c, f);
      c := Under(left, c, f.it, f.red, Near(!left, f));
    }

    /** tree->insert: afterwards `node` is a red leaf of the linked tree. */
    method InsertValue(node: RbNode) returns (ghost c: Ctx, ghost f: Tree)
      requires Valid() && shape.Node? && node !in Nodes(shape) && node != sentinel
      requires InRange(timer, base, node.key)
      modifies Nodes(shape), node
      ensures node.key == old(node.key) && f == Node(Leaf, Item(node, node.key), true, Leaf) && At(c, f)
      ensures c.Under? && Plug(c, Leaf) == shape
      ensures AllAtMost(base, Before(c), node.key) && AllAbove(base, After(c), node.key)
    {
      var temp, left;
      temp, left, c := Descend(node);
      PlugNodes(c, Leaf);
      LinkLeaf(left, temp, node, c);
      f := Node(Leaf, Item(node, node.key), true, Leaf);
    }

    /** What the pointers around the root of `f` are. */
    lemma Surroundings(c: Ctx, f: Tree)
      requires At(c, f)
      ensures f.Node? ==> (c.Top? <==> f.it.n == root)
      ensures c.Under? ==>
        && (f.Node? ==> f.it.n.parent == c.it.n) && c.it.n.red == c.red
        && Kid(c.it.n, c.left) == Ptr(f, sentinel) && Kid(c.it.n, !c.left) == Ptr(c.sib, sentinel)
        && (f.Node? ==> f.it.n != Ptr(c.sib, sentinel)) && (c.sib.Node? ==> Ptr(f, sentinel) != c.sib.it.n)
        && Ptr(c.sib, sentinel).red == IsRed(c.sib)
    {
      SepCtxDisjoint(c, Nodes(f));
      if c.Under? { RootOutside(c, f); }
    }

    /** Red uncle: both children of the grandparent become black and it becomes red. */
    method Recolour(p: RbNode, uncle: RbNode, g: RbNode, ghost c: Ctx, ghost f: Tree)
      requires At(c, f) && c.Under? && c.up.Under? && c.up.sib.Node?
      requires p == c.it.n && g == c.up.it.n && uncle == c.up.sib.it.n
      modifies p`red, uncle`red, g`red
      ensures At(c.up.up, Recoloured(c, f))
    {
      ghost var cg, left := c.up, c.up.left;
      ZipUp(c, f);
      ghost var t := Make(c.left, f, c.it, c.red, c.sib);
      Paint(p, false, cg, t);
      t := t.(red := false);
      ZipUp(cg, t);
      ghost var w := Make(left, t, cg.it, cg.red, cg.sib);
      ZipDown(!left, cg.up, w);
      Paint(uncle, false, Under(!left, cg.up, cg.it, cg.red, t), cg.sib);
      ZipUp(Under(!left, cg.up, cg.it, cg.red, t), cg.sib.(red := false));
      Paint(g, true, cg.up, Make(left, t, cg.it, cg.red, cg.sib.(red := false)));
    }

    /** Black uncle, outer grandchild: recolour and rotate at the grandparent. */
    method Raise(left: bool, p: RbNode, g: RbNode, ghost c: Ctx, ghost f: Tree, ghost h: int)
      requires At(c, f) && InsertInv(c, f, h) && ParentRed(c) && !IsRed(c.up.sib)
      requires c.left == c.up.left == left && p == c.it.n && g == c.up.it.n
      modifies this`root, Nodes(f), CtxNodes(c)
      ensures At(RaisedCtx(c), f)
    {
      RaisedKeeps(c, f, h);
      ghost var cg := c.up;
      ZipUp(c, f);
      ghost var t := Make(left, f, c.it, c.red, c.sib);
      Paint(p, false, cg, t);
      t := t.(red := false);
      ZipUp(cg, t);
      ghost var w := Make(left, t, cg.it, cg.red, cg.sib);
      Paint(g, true, cg.up, w);
      assert Nodes(w) == Nodes(f) + {p} + Nodes(c.sib) + {g} + Nodes(cg.sib);
      Rotate(!left, g, cg.up, w.(red := true));
      ZipDown(left, cg.up, Raised(c, f));
    }

    /** Inner grandchild: rotating at the parent makes it an outer one. */
    method TurnOut(left: bool, p: RbNode, ghost c: Ctx, ghost f: Tree, ghost h: int) returns (ghost c': Ctx, ghost f': Tree)
      requires At(c, f) && InsertInv(c, f, h) && ParentRed(c) && c.left != c.up.left == left && p == c.it.n
      modifies this`root, Nodes(f), CtxNodes(c)
      ensures At(c', f') && InsertInv(c', f', h) && f'.it.n == p && ParentRed(c')
      ensures c'.left == c'.up.left && c'.up == c.up
      ensures Inorder(Plug(c', f')) == Inorder(Plug(c, f)) && Nodes(f') + CtxNodes(c') == Nodes(f) + CtxNodes(c)
    {
      hide Linked, LinkedCtx, Sep, SepCtx;
      ghost var t := Make(c.left, f, c.it, c.red, c.sib);
      InnerKeeps(c, f, h);
      ZipUp(c, f);
      assert Nodes(t) + CtxNodes(c.up) == Nodes(f) + CtxNodes(c);
      Rotate(left, p, c.up, t);
      ZipDown(left, c.up, Rotated(left, t));
      c', f' := Under(left, c.up, f.it, true, Near(!left, f)), Make(left, c.sib, c.it, true, Near(left, f));
      assert Nodes(f') + CtxNodes(c') == Nodes(f) + CtxNodes(c);
    }

    /** The pointers that one turn of the loop follows. */
    lemma Grandparent(c: Ctx, f: Tree, h: int)
      requires At(c, f) && InsertInv(c, f, h) && ParentRed(c)
      ensures c.up.Under? && f.it.n.parent == c.it.n && c.it.n.parent == c.up.it.n
      ensures (c.it.n == c.up.it.n.left) == c.up.left
      ensures Kid(c.up.it.n, !c.up.left) == Ptr(c.up.sib, sentinel) && Ptr(c.up.sib, sentinel).red == IsRed(c.up.sib)
      ensures (f.it.n == Kid(c.it.n, !c.up.left)) == (c.left != c.up.left)
      ensures {c.it.n, c.up.it.n} <= CtxNodes(c) && (c.up.sib.Node? ==> c.up.sib.it.n in CtxNodes(c))
    {
      Surroundings(c, f);
      FixupRoom(c, f, h);
      ZipUp(c, f);
      Surroundings(c.up, Make(c.left, f, c.it, c.red, c.sib));
    }

    /** One turn of the rebalancing loop of ngx_rbtree_insert. */
    method InsertStep(start: RbNode, ghost c: Ctx, ghost f: Tree, ghost h: int)
      returns (node: RbNode, ghost c': Ctx, ghost f': Tree, ghost h': int)
      requires At(c, f) && InsertInv(c, f, h) && f.it.n == start && ParentRed(c)
      modifies this`root, Nodes(f), CtxNodes(c)
      ensures At(c', f') && InsertInv(c', f', h') && f'.it.n == node && Depth(c') < Depth(c)
      ensures Inorder(Plug(c', f')) == Inorder(Plug(c, f)) && Nodes(f') + CtxNodes(c') == Nodes(f) + CtxNodes(c)
    {
      hide InsertInv, Inorder, Plug, Linked, LinkedCtx, Sep, SepCtx;
      Grandparent(c, f, h);
      node := start;
      var p: RbNode := node.parent;
      var g: RbNode := p.parent;
      var left := p == g.left;
      var uncle: RbNode := Kid(g, !left);
      if uncle.red {
        Recolour(p, uncle, g, c, f);
        RecolouredKeeps(c, f, h);
        PlugNodes(c, f);
        node, c', f', h' := g, c.up.up, Recoloured(c, f), h + 1;
        PlugNodes(c', f');
      } else {
        c', f', h' := c, f, h;
        if node == Kid(p, !left) {
          node := p;
          c', f' := TurnOut(left, p, c, f, h);
          Grandparent(c', f', h);
        }
        Raise(left, node.parent, g, c', f', h);
        RaisedKeeps(c', f', h);
        c' := RaisedCtx(c');
      }
    }

    /** The rebalancing of ngx_rbtree_insert. */
    method InsertFixup(start: RbNode, ghost c0: Ctx, ghost f0: Tree, ghost h0: int) returns (ghost t: Tree)
      requires At(c0, f0) && InsertInv(c0, f0, h0) && f0.it.n == start
      modifies this`root, Nodes(f0), CtxNodes(c0)
      ensures At(Top, t) && RedBlack(t) && Inorder(t) == Inorder(Plug(c0, f0)) && Nodes(t) == Nodes(f0) + CtxNodes(c0)
    {
      hide Linked, LinkedCtx, Sep, SepCtx;
      var node := start;
      ghost var c, f, h, all := c0, f0, h0, Nodes(f0) + CtxNodes(c0);
      Surroundings(c, f);
      while node != root && node.parent.red
        invariant At(c, f) && InsertInv(c, f, h) && f.it.n == node
        invariant (node == root <==> c.Top?) && (c.Under? ==> node.parent == c.it.n && c.it.n.red == c.red)
        invariant Nodes(f) + CtxNodes(c) == all && Inorder(Plug(c, f)) == Inorder(Plug(c0, f0))
        decreases Depth(c)
      {
        node, c, f, h := InsertStep(node, c, f, h);
        Surroundings(c, f);
      }
      BlackenRoot(c, f, h);
      ZipAll(c, f);
      PlugNodes(c, f);
      t := Plug(c, f).(red := false);
      RootIs(Plug(c, f));
      Paint(root, false, Top, Plug(c, f));
    }

    lemma RootIs(t: Tree)
      requires At(Top, t) && t.Node?
      ensures root == t.it.n
    {}

    /** ngx_rbtree_insert: the node is added behind all items that do not rank higher,
        everything else keeps its place, and the tree stays a red-black tree. */
    method Insert(node: RbNode)
      requires Valid() && node !in Nodes(shape) && node != sentinel && InRange(timer, base, node.key)
      modifies this`root, this`shape, Nodes(shape), node
      ensures Valid() && node.key == old(node.key) && Nodes(shape) == old(Nodes(shape)) + {node}
      ensures Contents() == InsertItem(base, old(Contents()), Item(node, node.key))
    {
      if root == sentinel {
        node.parent := null;
        node.left := sentinel;
        node.right := sentinel;
        node.red := false;
        root := node;
        shape := Node(Leaf, Item(node, node.key), false, Leaf);
        assert Balanced(shape, 1);
      } else {
        InsertBelow(node);
      }
    }

    method InsertBelow(node: RbNode)
      requires Valid() && shape.Node? && node !in Nodes(shape) && node != sentinel && InRange(timer, base, node.key)
      modifies this`root, this`shape, Nodes(shape), node
      ensures Valid() && node.key == old(node.key) && Nodes(shape) == old(Nodes(shape)) + {node}
      ensures Contents() == InsertItem(base, old(Contents()), Item(node, node.key))
    {
      hide RedBlack, Sorted, AllInRange, InRange, InsertItem, Inorder, Plug, InsertInv, Linked, LinkedCtx, Nodes, CtxNodes;
      ghost var c, f, h := InsertLeaf(node);
      shape := InsertFixup(node, c, f, h);
      KeyKept(Item(node, old(node.key)), |Before(c)|);
    }

    /** The new leaf in its place, before the rebalancing. */
    method InsertLeaf(node: RbNode) returns (ghost c: Ctx, ghost f: Tree, ghost h: int)
      requires Valid() && shape.Node? && node !in Nodes(shape) && node != sentinel && InRange(timer, base, node.key)
      modifies Nodes(shape), node
      ensures node.key == old(node.key) && f.Node? && f.it == Item(node, node.key) && At(c, f) && InsertInv(c, f, h)
      ensures Nodes(f) + CtxNodes(c) == Nodes(shape) + {node}
      ensures var s := Inorder(Plug(c, f));
        (&& s == InsertItem(base, old(Contents()), f.it) && Sorted(base, s) && AllInRange(timer, base, s)
         && |Before(c)| < |s| && s[|Before(c)|] == f.it)
    {
      c, f := InsertValue(node);
      h := LeafInv(c, Item(node, node.key));
      LeafContents(timer, base, c, Item(node, node.key));
    }

    /** A new red leaf in a red-black tree. */
    lemma LeafInv(c: Ctx, it: Item) returns (h: int)
      requires RedBlack(Plug(c, Leaf))
      ensures InsertInv(c, Node(Leaf, it, true, Leaf), h)
      ensures Nodes(Node(Leaf, it, true, Leaf)) + CtxNodes(c) == Nodes(Plug(c, Leaf)) + {it.n}
    {
      h := UnplugRedBlack(c, Leaf);
      PlugNodes(c, Leaf);
      assert Nodes(Node(Leaf, it, true, Leaf)) == {it.n};
    }

    lemma KeyKept(it: Item, i: nat)
      requires At(Top, shape) && i < |Contents()| && Contents()[i] == it
      ensures it.n.key == it.key
    {
      ItemsLinked(shape, ParentIn(Top, shape), sentinel, i);
    }

    // ---- the delete fixup ----------------------------------------------------------

    method PaintParent(p: RbNode, red: bool, ghost c: Ctx, ghost f: Tree)
      requires At(c, f) && c.Under? && p == c.it.n
      modifies p`red
      ensures At(c.(red := red), f)
    {
      ghost var t := Make(c.left, f, c.it, c.red, c.sib);
      ZipUp(c, f);
      Paint(p, red, c.up, t);
      ZipDown(c.left, c.up, t.(red := red));
    }

    method PaintSibling(w: RbNode, red: bool, ghost c: Ctx, ghost f: Tree)
      requires At(c, f) && c.Under? && c.sib.Node? && w == c.sib.it.n
      modifies w`red
      ensures At(c.(sib := c.sib.(red := red)), f)
    {
      ghost var t := Make(c.left, f, c.it, c.red, c.sib);
      ZipUp(c, f);
      ZipDown(!c.left, c.up, t);
      ghost var d := Under(!c.left, c.up, c.it, c.red, f);
      Paint(w, red, d, c.sib);
      ZipUp(d, c.sib.(red := red));
      ZipDown(c.left, c.up, Make(c.left, f, c.it, c.red, c.sib.(red := red)));
    }

    method PaintNephew(n: RbNode, red: bool, ghost inner: bool, ghost c: Ctx, ghost f: Tree)
      requires At(c, f) && c.Under? && c.sib.Node? && Nephew(c, inner).Node? && n == Nephew(c, inner).it.n
      modifies n`red
      ensures At(c.(sib := WithNephew(c, inner, Nephew(c, inner).(red := red))), f)
    {
      ghost var t := Make(c.left, f, c.it, c.red, c.sib);
      ghost var d := Under(!c.left, c.up, c.it, c.red, f);
      ghost var side := if inner then c.left else !c.left;
      ghost var e := Under(side, d, c.sib.it, c.sib.red, Near(!side, c.sib));
      ghost var n' := Near(side, c.sib).(red := red);
      ghost var w' := WithNephew(c, inner, n');
      ZipUp(c, f);
      ZipDown(!c.left, c.up, t);
      ZipDown(side, d, c.sib);
      Paint(n, red, e, Near(side, c.sib));
      ZipUp(e, n');
      assert Make(side, n', c.sib.it, c.sib.red, Near(!side, c.sib)) == w';
      ZipUp(d, w');
      ZipDown(c.left, c.up, Make(c.left, f, c.it, c.red, w'));
    }

    /** The rotation at the parent, seen from the focus. */
    method RotateParent(left: bool, p: RbNode, ghost c: Ctx, ghost f: Tree)
      requires At(c, f) && c.Under? && c.left == left && p == c.it.n && c.sib.Node?
      modifies this`root, Nodes(f), CtxNodes(c)
      ensures At(RotatedCtx(c), f)
    {
      ghost var t := Make(left, f, c.it, c.red, c.sib);
      ZipUp(c, f);
      assert Nodes(t) + CtxNodes(c.up) == Nodes(f) + CtxNodes(c);
      Rotate(left, p, c.up, t);
      ZipDown(left, c.up, Rotated(left, t));
      ZipDown(left, Under(left, c.up, c.sib.it, c.sib.red, Near(!left, c.sib)), Near(left, Rotated(left, t)));
    }

    /** The rotation at the sibling, seen from the focus. */
    method RotateSibling(left: bool, w: RbNode, ghost c: Ctx, ghost f: Tree)
      requires At(c, f) && c.Under? && c.left == left && c.sib.Node? && w == c.sib.it.n && Nephew(c, true).Node?
      modifies this`root, Nodes(f), CtxNodes(c)
      ensures At(c.(sib := Rotated(!left, c.sib)), f)
    {
      ghost var t := Make(left, f, c.it, c.red, c.sib);
      ghost var d := Under(!left, c.up, c.it, c.red, f);
      ZipUp(c, f);
      ZipDown(!left, c.up, t);
      assert Nodes(c.sib) + CtxNodes(d) == Nodes(f) + CtxNodes(c);
      Rotate(!left, w, d, c.sib);
      ZipUp(d, Rotated(!left, c.sib));
      ZipDown(left, c.up, Make(left, f, c.it, c.red, Rotated(!left, c.sib)));
    }

    /** `temp` is the root of the focus and knows its parent, even when it is the sentinel. */
    ghost predicate Hung(temp: RbNode, c: Ctx, f: Tree)
      reads this`root, this`sentinel, sentinel, CtxNodes(c), Nodes(f)
    {
      At(c, f) && temp == Ptr(f, sentinel) && (c.Under? ==> sentinel.parent == c.it.n || f.Node?)
    }

    /** What the loop of the delete fixup reads through pointers. */
    lemma Around(temp: RbNode, c: Ctx, f: Tree, h: int)
      requires Hung(temp, c, f) && DeleteInv(c, f, h)
      ensures temp.red == IsRed(f) && (temp == root <==> c.Top?) && sentinel !in Nodes(f) + CtxNodes(c)
      ensures c.Under? ==>
        && c.sib.Node? && temp.parent == c.it.n && c.it.n.red == c.red && (temp == c.it.n.left) == c.left
        && Kid(c.it.n, !c.left) == c.sib.it.n && c.sib.it.n.red == c.sib.red
        && (c.up.Under? ==> c.it.n.parent == c.up.it.n)
        && c.it.n in CtxNodes(c) && c.sib.it.n in CtxNodes(c)
      ensures c.Under? ==>
        && Kid(c.sib.it.n, c.left) == Ptr(Nephew(c, true), sentinel)
        && Kid(c.sib.it.n, !c.left) == Ptr(Nephew(c, false), sentinel)
        && Ptr(Nephew(c, true), sentinel).red == IsRed(Nephew(c, true))
        && Ptr(Nephew(c, false), sentinel).red == IsRed(Nephew(c, false))
        && (Nephew(c, true).Node? ==> Nephew(c, true).it.n in CtxNodes(c))
        && (Nephew(c, false).Node? ==> Nephew(c, false).it.n in CtxNodes(c))
    {
      Surroundings(c, f);
      if c.Under? {
        SiblingIsNode(c, f, h);
        RootOutside(c, f);
        assert Linked(c.sib, c.it.n, sentinel);
        assert Linked(Nephew(c, true), c.sib.it.n, sentinel) && Linked(Nephew(c, false), c.sib.it.n, sentinel);
      }
    }

    method RedSibling(left: bool, temp: RbNode, ghost c: Ctx, ghost f: Tree, ghost h: int)
      requires Hung(temp, c, f) && DeleteInv(c, f, h) && c.Under? && c.left == left && IsRed(c.sib)
      modifies this`root, Nodes(f), CtxNodes(c)
      ensures var d := AfterRedSibling(c); Hung(temp, d, f) && DeleteInv(d, f, h)
    {
      hide At, RotatedCtx, DeleteInv;
      Around(temp, c, f, h);
      RedSiblingKeeps(c, f, h);
      var p: RbNode := temp.parent;
      var w: RbNode := Kid(p, !left);
      PaintSibling(w, false, c, f);
      ghost var c1 := c.(sib := c.sib.(red := false));
      PaintParent(p, true, c1, f);
      RotateParent(left, p, c1.(red := true), f);
      RotatedFocus(c1.(red := true));
      assert c1.(red := true) == c.(sib := c.sib.(red := false), red := true);
    }

    lemma RotatedFocus(c: Ctx)
      requires c.Under? && c.sib.Node?
      ensures RotatedCtx(c).Under? && RotatedCtx(c).it == c.it
    {}

    /** Black sibling, red inner nephew: rotate at the sibling. */
    method InnerNephew(left: bool, w: RbNode, temp: RbNode, ghost c: Ctx, ghost f: Tree, ghost h: int)
      requires Hung(temp, c, f) && DeleteInv(c, f, h) && c.Under? && c.left == left && c.sib.Node? && !IsRed(c.sib)
      requires IsRed(Nephew(c, true)) && !IsRed(Nephew(c, false)) && w == c.sib.it.n
      modifies this`root, Nodes(f), CtxNodes(c)
      ensures Hung(temp, AfterInner(c), f) && DeleteInv(AfterInner(c), f, h)
    {
      Around(temp, c, f, h);
      InnerNephewKeeps(c, f, h);
      hide At, Rotated, DeleteInv;
      var n: RbNode := Kid(w, left);
      PaintNephew(n, false, true, c, f);
      ghost var c1 := c.(sib := WithNephew(c, true, Nephew(c, true).(red := false)));
      PaintSibling(w, true, c1, f);
      RotateSibling(left, w, c1.(sib := c1.sib.(red := true)), f);
    }

    /** Black sibling, red outer nephew: the rotation at the parent ends the fixup. */
    method OuterNephew(left: bool, w: RbNode, temp: RbNode, ghost c: Ctx, ghost f: Tree, ghost h: int)
      requires Hung(temp, c, f) && DeleteInv(c, f, h) && c.Under? && c.left == left && c.sib.Node? && !IsRed(c.sib)
      requires IsRed(Nephew(c, false)) && w == c.sib.it.n
      modifies this`root, Nodes(f), CtxNodes(c)
      ensures At(RotatedCtx(BeforeLast(c)), f)
    {
      Around(temp, c, f, h);
      hide At, RotatedCtx, DeleteInv;
      var p: RbNode := temp.parent;
      var far: RbNode := Kid(w, !left);
      PaintSibling(w, p.red, c, f);
      ghost var c1 := c.(sib := c.sib.(red := c.red));
      PaintParent(p, false, c1, f);
      ghost var c2 := c1.(red := false);
      PaintNephew(far, false, false, c2, f);
      RotateParent(left, p, BeforeLast(c), f);
    }

    /** Black sibling with black children: it turns red and the focus moves up. */
    method BlackNephews(w: RbNode, temp: RbNode, ghost c: Ctx, ghost f: Tree, ghost h: int) returns (up: RbNode)
      requires Hung(temp, c, f) && DeleteInv(c, f, h) && c.Under? && !IsRed(f) && c.sib.Node? && !IsRed(c.sib)
      requires !IsRed(Nephew(c, true)) && !IsRed(Nephew(c, false)) && w == c.sib.it.n
      modifies w`red
      ensures Hung(up, c.up, AfterBlackNephews(c, f)) && DeleteInv(c.up, AfterBlackNephews(c, f), h + Weight(c.red))
    {
      Around(temp, c, f, h);
      BlackNephewsKeep(c, f, h);
      PaintSibling(w, true, c, f);
      ZipUp(c.(sib := c.sib.(red := true)), f);
      up := temp.parent;
    }

    /** How many turns the fixup can still take. */
    ghost function Turns(c: Ctx, f: Tree): nat {
      if c.Top? || IsRed(f) then 0 else 1 + Depth(c)
    }

    lemma AfterOuter(c: Ctx, f: Tree, h: int) returns (t: Tree, h': int)
      requires c.Under? && c.sib.Node? && Nephew(c, false).Node? && At(RotatedCtx(BeforeLast(c)), f)
      requires RedBlack(Plug(RotatedCtx(BeforeLast(c)), f))
      ensures t == Plug(RotatedCtx(BeforeLast(c)), f) && Hung(root, Top, t) && DeleteInv(Top, t, h')
    {
      t := Plug(RotatedCtx(BeforeLast(c)), f);
      ZipAll(RotatedCtx(BeforeLast(c)), f);
      h' :| Balanced(t, h');
    }

    /** One turn of the loop of the delete fixup. */
    method DeleteStep(start: RbNode, ghost c: Ctx, ghost f: Tree, ghost h: int)
      returns (temp: RbNode, ghost c': Ctx, ghost f': Tree, ghost h': int)
      requires Hung(start, c, f) && DeleteInv(c, f, h) && c.Under? && !IsRed(f)
      modifies this`root, Nodes(f), CtxNodes(c)
      ensures Hung(temp, c', f') && DeleteInv(c', f', h') && Turns(c', f') < Turns(c, f)
      ensures Inorder(Plug(c', f')) == Inorder(Plug(c, f)) && Nodes(f') + CtxNodes(c') == Nodes(f) + CtxNodes(c)
    {
      hide At, RotatedCtx, DeleteInv, Plug, Inorder, Nodes, CtxNodes, RedBlack, AfterRedSibling, AfterInner, BeforeLast,
           AfterBlackNephews;
      temp, c', f', h' := start, c, f, h;
      Around(temp, c, f, h);
      var left := temp == temp.parent.left;
      var w: RbNode := Kid(temp.parent, !left);
      if w.red {
        RedSiblingKeeps(c, f, h);
        RedSibling(left, temp, c, f, h);
        c' := AfterRedSibling(c);
        Around(temp, c', f, h);
        w := Kid(temp.parent, !left);
      }
      var inner: RbNode := Kid(w, left);
      var outer: RbNode := Kid(w, !left);
      if !inner.red && !outer.red {
        BlackNephewsKeep(c', f, h);
        temp := BlackNephews(w, temp, c', f, h);
        c', f', h' := c'.up, AfterBlackNephews(c', f), h + Weight(c'.red);
      } else {
        if !outer.red {
          InnerNephewKeeps(c', f, h);
          InnerNephew(left, w, temp, c', f, h);
          c' := AfterInner(c');
          Around(temp, c', f, h);
          w := Kid(temp.parent, !left);
        }
        OuterNephewEnds(c', f, h);
        OuterNephew(left, w, temp, c', f, h);
        f', h' := AfterOuter(c', f, h);
        temp, c' := root, Top;
        NoCtxNodes();
      }
    }

    lemma NoCtxNodes()
      ensures CtxNodes(Top) == {} && forall t :: Plug(Top, t) == t
    {}

    /** The delete fixup: adds the missing black node. */
    method DeleteFixup(start: RbNode, ghost c0: Ctx, ghost f0: Tree, ghost h0: int) returns (ghost t: Tree)
      requires Hung(start, c0, f0) && DeleteInv(c0, f0, h0)
      modifies this`root, Nodes(f0), CtxNodes(c0), sentinel
      ensures At(Top, t) && RedBlack(t) && Inorder(t) == Inorder(Plug(c0, f0)) && Nodes(t) == Nodes(f0) + CtxNodes(c0)
    {
      var temp := start;
      ghost var c, f, h, all := c0, f0, h0, Nodes(f0) + CtxNodes(c0);
      hide At, DeleteInv, Inorder, Plug, CtxNodes, RedBlack;
      Around(temp, c, f, h);
      while temp != root && !temp.red
        invariant Hung(temp, c, f) && DeleteInv(c, f, h) && temp.red == IsRed(f) && (temp == root <==> c.Top?)
        invariant Nodes(f) + CtxNodes(c) == all && Inorder(Plug(c, f)) == Inorder(Plug(c0, f0))
        decreases Turns(c, f)
      {
        temp, c, f, h := DeleteStep(temp, c, f, h);
        Around(temp, c, f, h);
      }
      t := PaintFocus(temp, c, f, h);
    }

    /** ngx_rbt_black(temp), where temp may be the sentinel. */
    method Blacken(temp: RbNode, ghost c: Ctx, ghost f: Tree)
      requires At(c, f) && temp == Ptr(f, sentinel)
      modifies temp`red
      ensures At(c, Blackened(f))
    {
      SepCtxDisjoint(c, Nodes(f));
      temp.red := false;
    }

    method PaintFocus(temp: RbNode, ghost c: Ctx, ghost f: Tree, ghost h: int) returns (ghost t: Tree)
      requires At(c, f) && DeleteInv(c, f, h) && (c.Top? || IsRed(f)) && temp == Ptr(f, sentinel)
      modifies temp`red
      ensures At(Top, t) && RedBlack(t) && Inorder(t) == Inorder(Plug(c, f)) && Nodes(t) == Nodes(f) + CtxNodes(c)
    {
      BlackenFocus(c, f, h);
      Blacken(temp, c, f);
      ZipAll(c, Blackened(f));
      PlugNodes(c, Blackened(f));
      t := Plug(c, Blackened(f));
    }

    // ---- deletion ------------------------------------------------------------------

    lemma {:induction false} ZipPath(d: Ctx, c: Ctx, f: Tree)
      requires c.Under?
      ensures At(Over(d, c), f) <==> At(c, Plug(d, f))
      decreases d
    {
      if d.Under? {
        var e, t := Over(d, c), Make(d.left, f, d.it, d.red, d.sib);
        ZipPath(d.up, c, t);
        if At(e, f) { ZipUp(e, f); }
        if At(e.up, t) { ZipDown(e.left, e.up, t); }
      }
    }

    /** ngx_rbtree_min: the leftmost node. */
    method Min(start: RbNode, ghost f: Tree) returns (node: RbNode, ghost d: Ctx, ghost g: Tree)
      requires f.Node? && f.it.n == start && Linked(f, start.parent, sentinel) && sentinel !in Nodes(f)
      ensures g.Node? && g.it.n == node && g.l.Leaf? && Plug(d, g) == f && AllLeft(d)
    {
      node, d, g := start, Top, f;
      while node.left != sentinel
        invariant g.Node? && g.it.n == node && Plug(d, g) == f && AllLeft(d)
        invariant Linked(g, node.parent, sentinel) && sentinel !in Nodes(g)
        decreases g
      {
        d, g := Under(true, d, g.it, g.red, g.r), g.l;
        node := node.left;
      }
    }

    /** The parent of `subst` gets the only child of `subst` instead. */
    method Bypass(subst: RbNode, temp: RbNode, ghost e: Ctx, ghost g: Tree)
      requires At(e, g) && e.Under? && g.Node? && g.it.n == subst && (g.l.Leaf? || g.r.Leaf?)
      requires temp == Ptr(Rest(g), sentinel)
      modifies e.it.n`left, e.it.n`right
      ensures Hangs(e, Rest(g), subst)
    {
      Surroundings(e, g);
      SepCtxDisjoint(e, Nodes(g));
      SepCtxDisjoint(e.up, Nodes(g) + {e.it.n} + Nodes(e.sib));
      NodesAllocated(g);
      CtxAllocated(e);
      SepOther(e, Nodes(g), Nodes(Rest(g)), subst);
      ghost var same := Nodes(Rest(g)) + CtxNodes(e.up) + Nodes(e.sib);
      var up: RbNode := subst.parent;
      if subst == up.left { up.left := temp; } else { up.right := temp; }
      LinkedFrame(Rest(g), subst, sentinel, same);
      CtxRepointed(e, subst, temp, sentinel, root, root, same);
    }

    /** temp->parent = p, also when temp is the sentinel. */
    method Reparent(temp: RbNode, p: RbNode, ghost e: Ctx, ghost t: Tree, ghost q: RbNode?)
      requires Hangs(e, t, q) && temp == Ptr(t, sentinel)
      modifies temp`parent
      ensures Hangs(e, t, p) && (t.Leaf? ==> sentinel.parent == p)
    {
      SepCtxDisjoint(e, Nodes(t));
      NodesAllocated(t);
      CtxAllocated(e);
      ghost var same := CtxNodes(e) + Nodes(t) - {temp};
      temp.parent := p;
      LinkedReparented(t, q, p, sentinel, same);
      CtxFrame(e, temp, sentinel, root, CtxNodes(e));
    }

    /** `n` can stand between these surroundings and subtrees. */
    ghost predicate Seat(c: Ctx, l: Tree, r: Tree, n: RbNode)
      reads this`sentinel
    {
      && sentinel !in CtxNodes(c) + Nodes(l) + Nodes(r) && Sep(l) && Sep(r) && Nodes(l) !! Nodes(r) && n !in CtxNodes(c) + Nodes(l) + Nodes(r)
      && SepCtx(c, Nodes(r) + {n} + Nodes(l))
    }

    /** What the replacement of the root of a subtree by `subst` leaves alone. */
    lemma ReplaceParts(c: Ctx, it: Item, red: bool, l: Tree, r: Tree, p: RbNode?, subst: RbNode)
      returns (same: set<RbNode>, touched: set<RbNode>)
      requires Hangs(Under(false, c, it, red, l), r, p)
      requires subst !in CtxNodes(c) + {it.n} + Nodes(l) + Nodes(r) && subst != sentinel
      ensures touched ==
        {subst} + (if c.Under? then {c.it.n} else {}) + (if l.Node? then {l.it.n} else {}) + (if r.Node? then {r.it.n} else {})
      ensures same == CtxNodes(c) + Nodes(l) + Nodes(r) - touched && it.n !in touched
      ensures Ptr(l, sentinel) != Ptr(r, sentinel) || Ptr(l, sentinel) == sentinel
      ensures it.n.left == Ptr(l, sentinel) && it.n.right == Ptr(r, sentinel) && it.n.red == red
      ensures l.Node? ==> Nodes(l.l) <= same && Nodes(l.r) <= same && l.it.n !in {it.n, subst, sentinel}
      ensures r.Node? ==> Nodes(r.l) <= same && Nodes(r.r) <= same && r.it.n !in {it.n, subst, sentinel}
      ensures c.Top? ==> root == it.n
      ensures c.Under? ==>
        && root != it.n && it.n.parent == c.it.n && Kid(c.it.n, c.left) == it.n && Kid(c.it.n, !c.left) != it.n
        && c.it.n !in Nodes(l) + Nodes(r) + {subst, it.n, sentinel} && Nodes(c.sib) <= same && CtxNodes(c.up) <= same
      ensures Seat(c, l, r, subst) && !sentinel.red
      ensures Linked(l, it.n, sentinel) && Linked(r, p, sentinel) && LinkedCtx(c, it.n, sentinel, root)
      ensures forall n :: n in same ==> allocated(n)
    {
      var b := Under(false, c, it, red, l);
      SepCtxDisjoint(b, Nodes(r));
      SepCtxDisjoint(c, Nodes(r) + {it.n} + Nodes(l));
      NodesAllocated(r);
      CtxAllocated(b);
      SepOther(c, Nodes(r) + {it.n} + Nodes(l), Nodes(r) + {subst} + Nodes(l), subst);
      touched := {subst} + (if c.Under? then {c.it.n} else {}) + (if l.Node? then {l.it.n} else {}) + (if r.Node? then {r.it.n} else {});
      same := CtxNodes(c) + Nodes(l) + Nodes(r) - touched;
      assert LinkedCtx(b, Ptr(r, sentinel), sentinel, root) && LinkedCtx(c, it.n, sentinel, root);
      if c.Under? {
        SepCtxDisjoint(c.up, Nodes(r) + {it.n} + Nodes(l) + {c.it.n} + Nodes(c.sib));
        RootOutside(c, Node(Leaf, it, red, Leaf));
      }
    }

    /** The assignments with which `subst` takes over the links and the colour of `node`. */
    method ReplaceLinks(node: RbNode, subst: RbNode, lp: RbNode, rp: RbNode, ghost c: Ctx)
      requires node.left == lp && node.right == rp && (lp != rp || lp == sentinel)
      requires node != subst && lp !in {node, subst} && rp !in {node, subst}
      requires c.Top? ==> root == node
      requires c.Under? ==> root != node && node.parent == c.it.n && c.it.n !in {node, subst, lp, rp} && node != sentinel
      requires c.Under? ==> Kid(c.it.n, c.left) == node && Kid(c.it.n, !c.left) != node
      modifies this`root, subst, ({lp, rp} - {sentinel})`parent
      modifies if c.Under? then {c.it.n} else {}
      ensures subst.key == old(subst.key) && subst.red == old(node.red) && subst.parent == old(node.parent)
      ensures subst.left == lp && subst.right == rp
      ensures (lp != sentinel ==> lp.parent == subst) && (rp != sentinel ==> rp.parent == subst)
      ensures c.Top? ==> root == subst
      ensures c.Under? ==>
        && root == old(root) && Kid(c.it.n, c.left) == subst && Kid(c.it.n, !c.left) == old(Kid(c.it.n, !c.left))
        && c.it.n.parent == old(c.it.n.parent) && c.it.n.key == old(c.it.n.key) && c.it.n.red == old(c.it.n.red)
    {
      subst.left := node.left;
      subst.right := node.right;
      subst.parent := node.parent;
      subst.red := node.red;
      Relink(true, node, subst, c);
      if subst.left != sentinel {
        subst.left.parent := subst;
      }
      if subst.right != sentinel {
        subst.right.parent := subst;
      }
    }

    /** `subst` takes the place of `node`, whose right subtree may have any parent. */
    method Replace(node: RbNode, subst: RbNode, ghost c: Ctx, ghost it: Item, ghost red: bool, ghost l: Tree, ghost r: Tree,
                   ghost p: RbNode?)
      requires it.n == node && Hangs(Under(false, c, it, red, l), r, p)
      requires subst !in CtxNodes(c) + {it.n} + Nodes(l) + Nodes(r) && subst != sentinel
      modifies this`root, subst, CtxNodes(c), Nodes(l), Nodes(r)
      ensures subst.key == old(subst.key) && At(Under(false, c, Item(subst, subst.key), red, l), r)
    {
      hide Seat, Linked, LinkedCtx;
      ghost var same, touched := ReplaceParts(c, it, red, l, r, p, subst);
      label before:
      ReplaceLinks(node, subst, node.left, node.right, c);
      assert unchanged@before(same);
      LinkedReparented(l, node, subst, sentinel, same);
      LinkedReparented(r, p, subst, sentinel, same);
      CtxRepointed(c, node, subst, sentinel, old(root), root, same);
      Seated(c, subst, red, l, r);
    }

    lemma Seated(c: Ctx, n: RbNode, red: bool, l: Tree, r: Tree)
      requires n != sentinel && !sentinel.red && Seat(c, l, r, n)
      requires n.red == red && n.left == Ptr(l, sentinel) && n.right == Ptr(r, sentinel)
      requires c.Under? ==> n.parent == c.it.n
      requires Linked(l, n, sentinel) && Linked(r, n, sentinel) && LinkedCtx(c, n, sentinel, root)
      ensures At(Under(false, c, Item(n, n.key), red, l), r)
    {}

    /** Unlinks `node`, which has two children, by putting its successor in its place. */
    method SwapSuccessor(node: RbNode, subst: RbNode, temp: RbNode, ghost c: Ctx, ghost f: Tree, ghost d: Ctx, ghost g: Tree)
      requires At(c, f) && f.Node? && f.it.n == node && Plug(d, g) == f.r
      requires g.Node? && g.it.n == subst && g.l.Leaf? && temp == Ptr(Rest(g), sentinel)
      modifies this`root, Nodes(f), CtxNodes(c), sentinel`parent
      ensures Hung(temp, Over(d, Under(false, c, g.it, f.red, f.l)), Rest(g))
    {
      hide Linked, LinkedCtx;
      ghost var b, b', t := Under(false, c, f.it, f.red, f.l), Under(false, c, g.it, f.red, f.l), Rest(g);
      ghost var e := Over(d, b);
      SwapParts(c, f, d, g);
      Bypass(subst, temp, e, g);
      var up: RbNode := if subst.parent == node then subst else subst.parent;
      Reparent(temp, up, e, t, subst);
      hide Hangs;
      if subst.parent == node {
        Replace(node, subst, c, f.it, f.red, f.l, t, up);
      } else {
        ZipPath(d, b, t);
        Replace(node, subst, c, f.it, f.red, f.l, Plug(d, t), node);
        ZipPath(d, b', t);
      }
    }

    /** Where the successor and the nodes around it are. */
    lemma SwapParts(c: Ctx, f: Tree, d: Ctx, g: Tree)
      requires At(c, f) && f.Node? && Plug(d, g) == f.r && g.Node? && g.l.Leaf?
      ensures var e := Over(d, Under(false, c, f.it, f.red, f.l));
        (&& At(e, g) && e.Under? && g.it.n.parent == e.it.n && (e.it.n == f.it.n <==> d.Top?) && g.it.n.key == g.it.key
         && CtxNodes(e) + Nodes(g) == CtxNodes(c) + Nodes(f)
         && g.it.n !in CtxNodes(c) + {f.it.n} + Nodes(f.l) + Nodes(Plug(d, Rest(g))) && g.it.n != sentinel
         && sentinel !in CtxNodes(c) + Nodes(f.l) + Nodes(Plug(d, Rest(g)))
         && g.it.n in Nodes(f) && Nodes(f.l) + Nodes(Plug(d, Rest(g))) <= Nodes(f))
    {
      ghost var b := Under(false, c, f.it, f.red, f.l);
      ZipDown(false, c, f);
      ZipPath(d, b, g);
      OverPlug(d, b, g);
      PlugNodes(d, g);
      PlugNodes(d, Rest(g));
      assert Nodes(f) == Nodes(f.l) + {f.it.n} + Nodes(f.r);
      ghost var e := Over(d, b);
      SepCtxDisjoint(e, Nodes(g));
      SepCtxDisjoint(c, Nodes(f));
    }

    /** The node whose place is given up: `node` itself or its successor, and its only child. */
    method Choose(node: RbNode, ghost c: Ctx, ghost f: Tree)
      returns (subst: RbNode, temp: RbNode, ghost d: Ctx, ghost g: Tree)
      requires At(c, f) && f.Node? && f.it.n == node
      ensures g.Node? && g.it.n == subst && (g.l.Leaf? || g.r.Leaf?) && temp == Ptr(Rest(g), sentinel)
      ensures subst == node <==> f.l.Leaf? || f.r.Leaf?
      ensures if subst == node then d == Top && g == f else Plug(d, g) == f.r && AllLeft(d) && g.l.Leaf?
      ensures subst.red == g.red && (subst == root <==> c.Top? && subst == node)
    {
      d, g := Top, f;
      Surroundings(c, f);
      SepCtxDisjoint(c, Nodes(f));
      if node.left == sentinel {
        temp, subst := node.right, node;
      } else if node.right == sentinel {
        temp, subst := node.left, node;
      } else {
        NodesAllocated(f);
        CtxAllocated(c);
        assert Linked(f.r, node, sentinel);
        subst, d, g := Min(node.right, f.r);
        SwapParts(c, f, d, g);
        Surroundings(Over(d, Under(false, c, f.it, f.red, f.l)), g);
        var l: RbNode?, r: RbNode? := subst.left, subst.right;
        var child: RbNode? := if l != sentinel then l else r;
        temp := child;
      }
    }

    /** Unlinks a node that has a missing child and is not the root. */
    method UnlinkSingle(node: RbNode, temp: RbNode, ghost c: Ctx, ghost f: Tree)
      requires At(c, f) && c.Under? && f.Node? && f.it.n == node && (f.l.Leaf? || f.r.Leaf?)
      requires temp == Ptr(Rest(f), sentinel)
      modifies this`root, Nodes(f), CtxNodes(c), sentinel`parent
      ensures Hung(temp, c, Rest(f))
    {
      Surroundings(c, f);
      SepCtxDisjoint(c, Nodes(f));
      Bypass(node, temp, c, f);
      Reparent(temp, node.parent, c, Rest(f), node);
    }

    /** The links and the key of a removed node are wiped. */
    method Clear(node: RbNode, ghost c: Ctx, ghost f: Tree)
      requires At(c, f) && node !in Nodes(f) + CtxNodes(c) && node != sentinel
      modifies node
      ensures At(c, f) && node.left == node.right == node.parent == null && node.key == 0
    {
      node.left := null;
      node.right := null;
      node.parent := null;
      node.key := 0;
      NodesAllocated(f);
      CtxAllocated(c);
      LinkedFrame(f, ParentIn(c, f), sentinel, Nodes(f));
      CtxFrame(c, Ptr(f, sentinel), sentinel, root, CtxNodes(c));
    }

    /** The removal of a root with a missing child: its child becomes the black root. */
    method DropRoot(node: RbNode, temp: RbNode, ghost f: Tree)
      requires At(Top, f) && f.Node? && f.it.n == node && (f.l.Leaf? || f.r.Leaf?) && temp == Ptr(Rest(f), sentinel)
      modifies this`root, temp`red, node
      ensures At(Top, Blackened(Rest(f))) && node.left == node.right == node.parent == null && node.key == 0
    {
      root := temp;
      assert Linked(Rest(f), node, sentinel);
      Blacken(temp, Top, Rest(f));
      Clear(node, Top, Blackened(Rest(f)));
    }

    /** Takes `node` out of the links; the fixup is still to come. */
    method Unlink(node: RbNode, subst: RbNode, temp: RbNode, ghost c: Ctx, ghost f: Tree, ghost d: Ctx, ghost g: Tree)
      requires At(c, f) && Chosen(f, d, g) && f.it.n == node && g.it.n == subst && temp == Ptr(Rest(g), sentinel)
      requires (subst == node <==> f.l.Leaf? || f.r.Leaf?) && (subst == node ==> c.Under?)
      requires node !in Nodes(Rest(g)) + CtxNodes(Left(c, f, d, g))
      modifies this`root, Nodes(f), CtxNodes(c), sentinel`parent
      ensures Hung(temp, Left(c, f, d, g), Rest(g)) && node.left == node.right == node.parent == null && node.key == 0
      ensures node != sentinel
    {
      SepCtxDisjoint(c, Nodes(f));
      if subst == node {
        UnlinkSingle(node, temp, c, f);
      } else {
        SwapSuccessor(node, subst, temp, c, f, d, g);
      }
      Clear(node, Left(c, f, d, g), Rest(g));
    }

    /** ngx_rbtree_delete: exactly the given node is taken out, all others keep their order,
        and the tree stays a red-black tree. */
    method Delete(node: RbNode)
      requires Valid() && node in Nodes(shape)
      modifies this`root, this`shape, Nodes(shape), sentinel
      ensures Valid() && Contents() == Without(old(Contents()), node) && Nodes(shape) == old(Nodes(shape)) - {node}
      ensures node.left == node.right == node.parent == null && node.key == 0
    {
      hide *;
      var subst, temp;
      ghost var c, f, d, g, h;
      subst, temp, c, f, d, g, h := Prepare(node);
      DeleteChosen(node, subst, temp, c, f, d, g, h);
      Repaired(Inorder(Plug(Left(c, f, d, g), Rest(g))));
    }

    lemma Repaired(s: seq<Item>)
      requires At(Top, shape) && RedBlack(shape) && Contents() == s && Sorted(base, s) && AllInRange(timer, base, s)
      ensures Valid()
    {}

    /** What ngx_rbtree_delete looks at before it changes anything. */
    method Prepare(node: RbNode)
      returns (subst: RbNode, temp: RbNode, ghost c: Ctx, ghost f: Tree, ghost d: Ctx, ghost g: Tree, ghost h: int)
      requires Valid() && node in Nodes(shape)
      ensures f.Node? && g.Node? && Chosen(f, d, g) && At(c, f)
      ensures f.it.n == node && g.it.n == subst && temp == Ptr(Rest(g), sentinel)
      ensures (subst == node <==> f.l.Leaf? || f.r.Leaf?) && subst.red == g.red && (subst == root <==> c.Top? && subst == node)
      ensures Bypassed(Left(c, f, d, g), g, h) && (subst == root ==> !g.red) && RemovedNodes(c, f, d, g)
      ensures Nodes(f) + CtxNodes(c) == Nodes(shape)
      ensures var s := Inorder(Plug(Left(c, f, d, g), Rest(g)));
        s == Without(Contents(), node) && Sorted(base, s) && AllInRange(timer, base, s)
    {
      hide Sorted, AllInRange, Inorder, Without, Bypassed, RemovedNodes, Linked, LinkedCtx, Sep, SepCtx;
      c, f := Locate(shape, node, Top);
      ZipAll(c, f);
      NodesAllocated(f);
      CtxAllocated(c);
      subst, temp, d, g := Choose(node, c, f);
      h := Removed(c, f, d, g, base, timer);
      PlugNodes(c, f);
    }

    method DeleteChosen(node: RbNode, subst: RbNode, temp: RbNode, ghost c: Ctx, ghost f: Tree, ghost d: Ctx, ghost g: Tree,
                        ghost h: int)
      requires At(c, f) && Chosen(f, d, g) && f.it.n == node && g.it.n == subst && temp == Ptr(Rest(g), sentinel)
      requires (subst == node <==> f.l.Leaf? || f.r.Leaf?) && subst.red == g.red && (subst == root <==> c.Top? && subst == node)
      requires Bypassed(Left(c, f, d, g), g, h) && (subst == root ==> !g.red)
      requires RemovedNodes(c, f, d, g)
      modifies this`root, this`shape, Nodes(f), CtxNodes(c), sentinel
      ensures At(Top, shape) && RedBlack(shape)
      ensures Contents() == Inorder(Plug(Left(c, f, d, g), Rest(g))) && Nodes(shape) == Nodes(f) + CtxNodes(c) - {node}
      ensures node.left == node.right == node.parent == null && node.key == 0
    {
      hide Linked, LinkedCtx, DeleteInv, RedBlack, Plug, Inorder;
      ghost var e, t := Left(c, f, d, g), Rest(g);
      NoCtxNodes();
      if subst == root {
        BlackenFocus(Top, t, h);
        DropRoot(node, temp, f);
        shape := Blackened(t);
      } else {
        var red := subst.red;
        Unlink(node, subst, temp, c, f, d, g);
        if red {
          ZipAll(e, t);
          PlugNodes(e, t);
          shape := Plug(e, t);
        } else {
          shape := DeleteFixup(temp, e, t, h);
        }
      }
    }

    // ---- walking -------------------------------------------------------------------

    /** The item that follows the focus: first of its right subtree, else of what comes after. */
    lemma Follows(c: Ctx, f: Tree, i: nat)
      requires Plug(c, f) == shape && f.Node? && Sep(shape) && i < |Contents()| && Contents()[i].n == f.it.n
      ensures Contents()[i + 1..] == Inorder(f.r) + After(c)
    {
      hide Plug, Sep;
      InorderPlug(c, f);
      InorderNode(f);
      Around5(Before(c), Inorder(f.l), f.it, Inorder(f.r), After(c));
      hide Inorder, Before, After;
      var x := Before(c) + Inorder(f.l);
      assert Contents() == x + [f.it] + (Inorder(f.r) + After(c));
      assert Contents()[|x|] == f.it;
      if i < |x| { DistinctItems(shape, i, |x|); }
      if i > |x| { DistinctItems(shape, |x|, i); }
    }

    /** ngx_rbtree_next: the node of the next item, or null behind the last one. */
    method Next(node: RbNode) returns (next: RbNode?)
      requires Valid() && node in Nodes(shape)
      ensures forall i :: 0 <= i < |Contents()| && Contents()[i].n == node ==>
        next == if i + 1 < |Contents()| then Contents()[i + 1].n else null
    {
      ghost var c, f := Locate(shape, node, Top);
      ZipAll(c, f);
      NodesAllocated(shape);
      forall i: nat | i < |Contents()| && Contents()[i].n == node
        ensures Contents()[i + 1..] == Inorder(f.r) + After(c) { Follows(c, f, i); }
      if node.right != sentinel {
        assert Linked(f.r, node, sentinel);
        ghost var d, g;
        next, d, g := Min(node.right, f.r);
        SuccessorFirst(d, g);
        assert (Inorder(f.r) + After(c))[0] == g.it;
      } else {
        assert Inorder(f.r) + After(c) == After(c);
        next := Ancestor(node, c, f);
      }
    }

    /** The loop of ngx_rbtree_next: up to the first ancestor whose left side this is. */
    method Ancestor(start: RbNode, ghost c0: Ctx, ghost f0: Tree) returns (next: RbNode?)
      requires At(c0, f0) && f0.Node? && f0.it.n == start
      ensures next == if After(c0) != [] then After(c0)[0].n else null
    {
      ghost var c, f := c0, f0;
      var node := start;
      while true
        invariant At(c, f) && f.Node? && f.it.n == node && After(c) == After(c0)
        decreases Depth(c)
      {
        Surroundings(c, f);
        var parent := node.parent;
        if node == root {
          return null;
        }
        if node == parent.left {
          return parent;
        }
        ZipUp(c, f);
        c, f := c.up, Make(c.left, f, c.it, c.red, c.sib);
        node := parent;
      }
    }

    // ---- timers --------------------------------------------------------------------

    /** The loop of expire_timer: the timers at the front whose key is not above `now` run
        in order and leave the tree. They are exactly those due if and only if the clock
        agrees with the first timer and the first one not due. */
    method Expire(now: u32) returns (ghost fired: seq<Item>)
      requires Valid()
      modifies this`root, this`shape, Nodes(shape), sentinel
      ensures Valid() && old(Contents()) == fired + Contents()
      ensures forall i :: 0 <= i < |fired| ==> fired[i].key <= now
      ensures Contents() != [] ==> Contents()[0].key > now
      ensures timer && InRange(true, base, now) ==>
        (fired == old(Contents())[..DueCount(base, old(Contents()), now)] <==> ClockAgrees(base, old(Contents()), now))
    {
      ghost var s0 := Contents();
      fired := ExpireLoop(now);
      FiredIff(s0, fired, now);
    }

    lemma FiredIff(s: seq<Item>, fired: seq<Item>, now: u32)
      requires Sorted(base, s) && AllInRange(timer, base, s) && fired <= s
      requires forall i :: 0 <= i < |fired| ==> fired[i].key <= now
      requires |fired| < |s| ==> s[|fired|].key > now
      ensures timer && InRange(true, base, now) ==> (fired == s[..DueCount(base, s, now)] <==> ClockAgrees(base, s, now))
    {
      if timer && InRange(true, base, now) { ExpireIff(base, s, now, |fired|); }
    }

    method ExpireLoop(now: u32) returns (ghost fired: seq<Item>)
      requires Valid()
      modifies this`root, this`shape, Nodes(shape), sentinel
      ensures Valid() && old(Contents()) == fired + Contents()
      ensures forall i :: 0 <= i < |fired| ==> fired[i].key <= now
      ensures Contents() != [] ==> Contents()[0].key > now
    {
      fired := [];
      while root != sentinel
        invariant Valid() && Nodes(shape) <= old(Nodes(shape)) && old(Contents()) == fired + Contents()
        invariant forall i :: 0 <= i < |fired| ==> fired[i].key <= now
        decreases |Contents()|
      {
        NodesAllocated(shape);
        var node := First();
        if node.key > now {
          break;
        }
        ghost var s := Contents();
        FirstDropped();
        fired := fired + [s[0]];
        Delete(node);
        assert s == [s[0]] + Contents();
      }
    }

    lemma FirstDropped()
      requires Valid() && Contents() != []
      ensures Without(Contents(), Contents()[0].n) == Contents()[1..]
    {
      var s := Contents();
      forall i | 1 <= i < |s| ensures s[i].n != s[0].n { DistinctItems(shape, 0, i); }
      WithoutSplit([], s[0], s[1..]);
      assert [] + [s[0]] + s[1..] == s && [] + s[1..] == s[1..];
    }

    /** ngx_rbtree_min from the root: the node of the first item. */
    method First() returns (node: RbNode)
      requires Valid() && root != sentinel
      ensures Contents() != [] && Contents()[0].n == node && node.key == Contents()[0].key && node in Nodes(shape)
    {
      NodesAllocated(shape);
      assert shape.Node?;
      ghost var d, g;
      node, d, g := Min(root, shape);
      SuccessorFirst(d, g);
      assert Contents()[0] == g.it;
      KeyKept(g.it, 0);
      InorderNodes(shape, 0);
    }

    /** Once the clock has moved on and all keys are near the new time, ranks may start there. */
    ghost method Rebase(start: u32)
      requires Valid() && timer && AllInRange(timer, start, Contents())
      modifies this`base
      ensures Valid() && base == start
    {
      SameOrder(base, start, Contents());
      base := start;
    }
  }
}
