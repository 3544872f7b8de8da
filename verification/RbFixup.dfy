/** The shapes the delete fixup of code/timer/rbtree.c goes through: the focus is one
    black node short, and each turn works on its surroundings only. */
module RbFixup {
  import opened RbShape

  function Blackened(t: Tree): Tree { if t.Leaf? then t else t.(red := false) }

  /** The subtree `f` is one black node short and may have to be blackened. */
  ghost predicate DeleteInv(c: Ctx, f: Tree, h: int) {
    RedOk(Blackened(f)) && Balanced(f, h) && CtxRedOk(c) && CtxBalanced(c, h + 1)
  }

  /** The surroundings after a rotation at the parent that moves the focus down. */
  function RotatedCtx(c: Ctx): Ctx
    requires c.Under? && c.sib.Node?
  {
    Under(c.left, Under(c.left, c.up, c.sib.it, c.sib.red, Near(!c.left, c.sib)), c.it, c.red, Near(c.left, c.sib))
  }

  /** The sibling with its inner (near the focus) or outer child replaced. */
  function WithNephew(c: Ctx, inner: bool, t: Tree): Tree
    requires c.Under? && c.sib.Node?
  {
    if inner then Make(c.left, t, c.sib.it, c.sib.red, Near(!c.left, c.sib))
    else Make(c.left, Near(c.left, c.sib), c.sib.it, c.sib.red, t)
  }

  function Nephew(c: Ctx, inner: bool): Tree
    requires c.Under? && c.sib.Node?
  {
    Near(if inner then c.left else !c.left, c.sib)
  }

  lemma RotatedCtxPlug(c: Ctx, f: Tree)
    requires c.Under? && c.sib.Node?
    ensures Plug(RotatedCtx(c), f) == Plug(c.up, Rotated(c.left, Make(c.left, f, c.it, c.red, c.sib)))
    ensures Inorder(Plug(RotatedCtx(c), f)) == Inorder(Plug(c, f))
    ensures CtxNodes(RotatedCtx(c)) == CtxNodes(c)
  {
    var t := Make(c.left, f, c.it, c.red, c.sib);
    RotatedInorder(c.left, t);
    SameContents(c.up, t, Rotated(c.left, t));
    assert Nodes(c.sib) == Nodes(Near(c.left, c.sib)) + {c.sib.it.n} + Nodes(Near(!c.left, c.sib));
  }

  /** The missing black node shows that the sibling is no leaf. */
  lemma SiblingIsNode(c: Ctx, f: Tree, h: int)
    requires DeleteInv(c, f, h) && c.Under?
    ensures h >= 0 && c.sib.Node? && RedOk(c.sib) && Balanced(c.sib, h + 1)
    ensures CtxRedOk(c.up) && CtxBalanced(c.up, h + 1 + Weight(c.red))
    ensures c.red ==> !IsRed(c.sib) && !ParentRed(c.up) && c.up.Under?
  {
    BalancedHeight(f, h);
  }

  // ---- red sibling ---------------------------------------------------------------

  function AfterRedSibling(c: Ctx): Ctx
    requires c.Under? && c.sib.Node?
  {
    RotatedCtx(c.(sib := c.sib.(red := false), red := true))
  }

  lemma RedSiblingKeeps(c: Ctx, f: Tree, h: int)
    requires DeleteInv(c, f, h) && c.Under? && IsRed(c.sib)
    ensures var d := AfterRedSibling(c);
      (&& DeleteInv(d, f, h) && d.Under? && !IsRed(d.sib) && d.red && d.left == c.left && d.it == c.it
       && Depth(d) == Depth(c) + 1
       && Inorder(Plug(d, f)) == Inorder(Plug(c, f)) && CtxNodes(d) == CtxNodes(c))
  {
    SiblingIsNode(c, f, h);
    var c1 := c.(sib := c.sib.(red := false), red := true);
    RotatedCtxPlug(c1, f);
    assert Inorder(c1.sib) == Inorder(c.sib) && Nodes(c1.sib) == Nodes(c.sib);
    Recontents(c, c1, f);
  }

  /** Two surroundings that differ in colours hold the same items. */
  lemma Recontents(c: Ctx, d: Ctx, f: Tree)
    requires c.Under? && d.Under? && c.left == d.left && c.up == d.up && c.it == d.it && Inorder(c.sib) == Inorder(d.sib)
    ensures Inorder(Plug(c, f)) == Inorder(Plug(d, f))
  {
    InorderPlug(c, f);
    InorderPlug(d, f);
  }

  // ---- black sibling with black children -----------------------------------------

  function AfterBlackNephews(c: Ctx, f: Tree): Tree
    requires c.Under? && c.sib.Node?
  {
    Make(c.left, f, c.it, c.red, c.sib.(red := true))
  }

  lemma BlackNephewsKeep(c: Ctx, f: Tree, h: int)
    requires DeleteInv(c, f, h) && c.Under? && !IsRed(f) && !IsRed(c.sib)
    requires c.sib.Node? ==> !IsRed(Nephew(c, true)) && !IsRed(Nephew(c, false))
    ensures c.sib.Node? && var t := AfterBlackNephews(c, f);
      (&& DeleteInv(c.up, t, h + Weight(c.red)) && Inorder(Plug(c.up, t)) == Inorder(Plug(c, f))
       && Nodes(t) + CtxNodes(c.up) == Nodes(f) + CtxNodes(c) && IsRed(t) == c.red)
  {
    SiblingIsNode(c, f, h);
    assert Inorder(c.sib.(red := true)) == Inorder(c.sib) && Nodes(c.sib.(red := true)) == Nodes(c.sib);
    SameContents(c.up, Make(c.left, f, c.it, c.red, c.sib), AfterBlackNephews(c, f));
  }

  // ---- black sibling with a red child ---------------------------------------------

  /** The inner red nephew is rotated over the sibling first. */
  function AfterInner(c: Ctx): Ctx
    requires c.Under? && c.sib.Node? && Nephew(c, true).Node?
  {
    c.(sib := Rotated(!c.left, WithNephew(c, true, Nephew(c, true).(red := false)).(red := true)))
  }

  lemma InnerNephewKeeps(c: Ctx, f: Tree, h: int)
    requires DeleteInv(c, f, h) && c.Under? && !IsRed(c.sib) && c.sib.Node?
    requires IsRed(Nephew(c, true)) && !IsRed(Nephew(c, false))
    ensures var d := AfterInner(c);
      (&& DeleteInv(d, f, h) && d.Under? && d.left == c.left && d.it == c.it && d.up == c.up
       && d.sib.Node? && !d.sib.red && IsRed(Nephew(d, false))
       && Inorder(Plug(d, f)) == Inorder(Plug(c, f)) && CtxNodes(d) == CtxNodes(c))
  {
    SiblingIsNode(c, f, h);
    var n := Nephew(c, true).(red := false);
    assert WithNephew(c, true, n).Node?;
    var w := WithNephew(c, true, n).(red := true);
    var low := Make(c.left, Near(!c.left, n), c.sib.it, true, Nephew(c, false));
    assert Rotated(!c.left, w) == Make(c.left, Near(c.left, n), n.it, false, low);
    assert Balanced(low, h) && RedOk(low) && Balanced(Near(c.left, n), h);
    assert Inorder(n) == Inorder(Nephew(c, true)) && Nodes(n) == Nodes(Nephew(c, true));
    assert Inorder(w) == Inorder(c.sib) && Nodes(w) == Nodes(c.sib);
    RotatedInorder(!c.left, w);
    Recontents(c, AfterInner(c), f);
    assert Nodes(w) == Nodes(n) + {w.it.n} + Nodes(Nephew(c, false));
    assert Nodes(n) == Nodes(Near(c.left, n)) + {n.it.n} + Nodes(Near(!c.left, n));
    assert Nodes(AfterInner(c).sib) == Nodes(c.sib);
  }

  /** The rotation at the parent that supplies the missing black node. */
  function BeforeLast(c: Ctx): Ctx
    requires c.Under? && c.sib.Node? && Nephew(c, false).Node?
  {
    c.(sib := WithNephew(c, false, Nephew(c, false).(red := false)).(red := c.red), red := false)
  }

  lemma OuterNephewEnds(c: Ctx, f: Tree, h: int)
    requires DeleteInv(c, f, h) && c.Under? && !IsRed(f) && !IsRed(c.sib) && c.sib.Node? && IsRed(Nephew(c, false))
    ensures var t := Plug(RotatedCtx(BeforeLast(c)), f);
      RedBlack(t) && Inorder(t) == Inorder(Plug(c, f)) && Nodes(t) == Nodes(f) + CtxNodes(c)
  {
    SiblingIsNode(c, f, h);
    var b := BeforeLast(c);
    var far := Nephew(c, false).(red := false);
    assert Inorder(far) == Inorder(Nephew(c, false)) && Nodes(far) == Nodes(Nephew(c, false));
    assert Inorder(b.sib) == Inorder(c.sib) && Nodes(b.sib) == Nodes(c.sib);
    RotatedCtxPlug(b, f);
    Recontents(c, b, f);
    PlugNodes(RotatedCtx(b), f);
    OuterShape(c, f, h);
  }

  /** The subtree that is there after that rotation. */
  lemma OuterShape(c: Ctx, f: Tree, h: int)
    requires DeleteInv(c, f, h) && c.Under? && !IsRed(f) && !IsRed(c.sib) && c.sib.Node? && IsRed(Nephew(c, false))
    ensures RedBlack(Plug(RotatedCtx(BeforeLast(c)), f))
  {
    SiblingIsNode(c, f, h);
    var b := BeforeLast(c);
    RotatedCtxPlug(b, f);
    var far := Nephew(c, false).(red := false);
    var p := Make(c.left, f, c.it, false, Nephew(c, true));
    var t := Make(c.left, p, c.sib.it, c.red, far);
    assert Balanced(p, h + 1) && Balanced(far, h + 1) && RedOk(p) && RedOk(far);
    assert Rotated(c.left, Make(c.left, f, b.it, b.red, b.sib)) == t;
    PlugRedBlack(c.up, t, h + 1 + Weight(c.red));
  }

  // ---- the end of the fixup --------------------------------------------------------

  lemma BlackenFocus(c: Ctx, f: Tree, h: int)
    requires DeleteInv(c, f, h) && (c.Top? || IsRed(f))
    ensures RedBlack(Plug(c, Blackened(f))) && Inorder(Plug(c, Blackened(f))) == Inorder(Plug(c, f))
  {
    assert Inorder(Blackened(f)) == Inorder(f);
    SameContents(c, f, Blackened(f));
    if IsRed(f) {
      assert Balanced(Blackened(f), h + 1);
      PlugRedBlack(c, Blackened(f), h + 1);
    }
  }
}
