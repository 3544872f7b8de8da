/** Taking one item out of a tree, as ngx_rbtree_delete of code/timer/rbtree.c does: an
    item with a missing child is bypassed, any other changes places with its successor. */
module RbSplice {
  import opened RbFixup
  import opened RbShape
  import opened Words

  /** The items of the other nodes, in their order. */
  function Without(s: seq<Item>, n: RbNode): seq<Item> {
    if s == [] then []
    else (if s[0].n == n then [] else [s[0]]) + Without(s[1..], n)
  }

  lemma {:induction false} WithoutNone(s: seq<Item>, n: RbNode)
    requires forall i :: 0 <= i < |s| ==> s[i].n != n
    ensures Without(s, n) == s
    decreases |s|
  {
    if s != [] { WithoutNone(s[1..], n); }
  }

  lemma {:induction false} WithoutSplit(x: seq<Item>, it: Item, y: seq<Item>)
    requires forall i :: 0 <= i < |x| ==> x[i].n != it.n
    requires forall i :: 0 <= i < |y| ==> y[i].n != it.n
    ensures Without(x + [it] + y, it.n) == x + y
    decreases |x|
  {
    var s := x + [it] + y;
    if x == [] {
      assert s[1..] == y;
      WithoutNone(y, it.n);
    } else {
      assert s[1..] == x[1..] + [it] + y;
      WithoutSplit(x[1..], it, y);
    }
  }

  lemma {:induction false} InorderNodes(t: Tree, i: nat)
    requires i < |Inorder(t)|
    ensures Inorder(t)[i].n in Nodes(t)
    decreases t
  {
    var k := |Inorder(t.l)|;
    if i < k { InorderNodes(t.l, i); } else if i > k { InorderNodes(t.r, i - k - 1); }
  }

  /** Every node has one place in the order. */
  lemma {:induction false} DistinctItems(t: Tree, i: nat, j: nat)
    requires Sep(t) && i < j < |Inorder(t)|
    ensures Inorder(t)[i].n != Inorder(t)[j].n
    decreases t
  {
    var k := |Inorder(t.l)|;
    if j < k {
      DistinctItems(t.l, i, j);
    } else if i > k {
      DistinctItems(t.r, i - k - 1, j - k - 1);
    } else {
      if i < k { InorderNodes(t.l, i); }
      if j > k { InorderNodes(t.r, j - k - 1); }
    }
  }

  /** Dropping one item of a tree from its sorted contents. */
  lemma DropItem(t: Tree, base: u32, timer: bool, x: seq<Item>, it: Item, y: seq<Item>)
    requires Sep(t) && Inorder(t) == x + [it] + y
    requires Sorted(base, Inorder(t)) && AllInRange(timer, base, Inorder(t))
    ensures Without(Inorder(t), it.n) == x + y && Sorted(base, x + y) && AllInRange(timer, base, x + y)
  {
    hide Inorder, Sep, Without, InRange, Rank;
    var s := Inorder(t);
    forall i | 0 <= i < |x| ensures x[i].n != it.n {
      DistinctItems(t, i, |x|);
      assert s[i] == x[i];
    }
    forall i | 0 <= i < |y| ensures y[i].n != it.n {
      DistinctItems(t, |x|, |x| + 1 + i);
      assert s[|x| + 1 + i] == y[i];
    }
    WithoutSplit(x, it, y);
    forall i | 0 <= i < |x + y| ensures (x + y)[i] == s[Shift(|x|, i)] {}
    Subsorted(base, timer, s, x + y, |x|);
  }

  function Shift(k: nat, i: nat): nat { if i < k then i else i + 1 }

  lemma Subsorted(base: u32, timer: bool, s: seq<Item>, s': seq<Item>, k: nat)
    requires k < |s| && |s'| == |s| - 1 && Sorted(base, s) && AllInRange(timer, base, s)
    requires forall i :: 0 <= i < |s'| ==> s'[i] == s[Shift(k, i)]
    ensures Sorted(base, s') && AllInRange(timer, base, s')
  {
    hide InRange, Rank;
    forall i | 0 <= i < |s'| ensures InRange(timer, base, s'[i].key) { assert s'[i] == s[Shift(k, i)]; }
    forall i, j | 0 <= i < j < |s'| ensures Rank(base, s'[i].key) <= Rank(base, s'[j].key) {
      assert Shift(k, i) < Shift(k, j) < |s|;
    }
  }

  // ---- paths -----------------------------------------------------------------

  /** The surroundings `d` of a subtree inside a tree that is itself surrounded by `c`. */
  function Over(d: Ctx, c: Ctx): Ctx {
    match d
    case Top => c
    case Under(left, up, it, red, sib) => Under(left, Over(up, c), it, red, sib)
  }

  lemma {:induction false} OverPlug(d: Ctx, c: Ctx, t: Tree)
    ensures Plug(Over(d, c), t) == Plug(c, Plug(d, t))
    ensures CtxNodes(Over(d, c)) == CtxNodes(c) + CtxNodes(d)
    decreases d
  {
    if d.Under? { OverPlug(d.up, c, Make(d.left, t, d.it, d.red, d.sib)); }
  }

  predicate AllLeft(d: Ctx) { d.Under? ==> d.left && AllLeft(d.up) }

  lemma {:induction false} AllLeftBefore(d: Ctx)
    requires AllLeft(d)
    ensures Before(d) == []
    decreases d
  {
    if d.Under? { AllLeftBefore(d.up); }
  }

  /** The item at the top of a path has no influence on colours and heights. */
  lemma {:induction false} OverRecoloured(d: Ctx, c: Ctx, c': Ctx, h: int)
    requires c.Under? && c'.Under? && c' == c.(it := c'.it)
    requires CtxRedOk(Over(d, c)) && CtxBalanced(Over(d, c), h)
    ensures CtxRedOk(Over(d, c')) && CtxBalanced(Over(d, c'), h) && ParentRed(Over(d, c')) == ParentRed(Over(d, c))
    decreases d
  {
    if d.Under? { OverRecoloured(d.up, c, c', h + Weight(d.red)); }
  }

  // ---- bypassing a node with a missing child ------------------------------------

  function Rest(g: Tree): Tree
    requires g.Node?
  {
    if g.l.Leaf? then g.r else g.l
  }

  /** What is left where a node with a missing child was bypassed, in surroundings that
      may carry other items: done if the node was red, else one black node short. */
  ghost predicate Bypassed(e: Ctx, g: Tree, h: int)
    requires g.Node?
  {
    if g.red then RedBlack(Plug(e, Rest(g))) else DeleteInv(e, Rest(g), h)
  }

  lemma BypassKeeps(d: Ctx, c: Ctx, c': Ctx, g: Tree) returns (h: int)
    requires g.Node? && (g.l.Leaf? || g.r.Leaf?) && RedBlack(Plug(Over(d, c), g))
    requires c' == c || (c.Under? && c'.Under? && c' == c.(it := c'.it))
    ensures Bypassed(Over(d, c'), g, h)
  {
    var h0 := UnplugRedBlack(Over(d, c), g);
    if c.Under? && c'.Under? { OverRecoloured(d, c, c', h0); }
    h := h0 - Weight(g.red);
    if g.red { PlugRedBlack(Over(d, c'), Rest(g), h); }
  }

  lemma Around5(b: seq<Item>, l: seq<Item>, it: Item, r: seq<Item>, a: seq<Item>)
    ensures b + (l + [it] + r) + a == (b + l) + [it] + (r + a)
    ensures b + (l + r) + a == (b + l) + (r + a)
  {}

  lemma BypassContents(c: Ctx, g: Tree)
    requires g.Node? && (g.l.Leaf? || g.r.Leaf?)
    ensures var x, y := Before(c) + Inorder(g.l), Inorder(g.r) + After(c);
      Inorder(Plug(c, g)) == x + [g.it] + y && Inorder(Plug(c, Rest(g))) == x + y
  {
    hide Plug, Before, After;
    InorderPlug(c, g);
    InorderPlug(c, Rest(g));
    Around5(Before(c), Inorder(g.l), g.it, Inorder(g.r), After(c));
    RestInorder(g);
    hide Inorder;
    InorderNode(g);
  }

  lemma RestInorder(g: Tree)
    requires g.Node? && (g.l.Leaf? || g.r.Leaf?)
    ensures Inorder(Rest(g)) == Inorder(g.l) + Inorder(g.r)
  {}

  /** The successor `g.it` is the first item of the right subtree. */
  lemma SuccessorFirst(d: Ctx, g: Tree)
    requires g.Node? && g.l.Leaf? && AllLeft(d)
    ensures Inorder(Plug(d, g)) == [g.it] + Inorder(Plug(d, Rest(g)))
  {
    hide Plug;
    AllLeftBefore(d);
    InorderPlug(d, g);
    InorderPlug(d, Rest(g));
    Around5([], [], g.it, Inorder(Rest(g)), After(d));
    assert Inorder(g) == [] + [g.it] + Inorder(Rest(g));
    hide *;
    var t, a := Inorder(Rest(g)), After(d);
    assert [] + t + a == t + a;
    assert ([] + []) + [g.it] + (t + a) == [g.it] + (t + a);
  }

  /** The successor `g.it` takes the place of `f.it`. */
  lemma SuccessorContents(c: Ctx, f: Tree, d: Ctx, g: Tree)
    requires f.Node? && g.Node? && g.l.Leaf? && AllLeft(d) && Plug(d, g) == f.r
    ensures var x, y := Before(c) + Inorder(f.l), Inorder(f.r) + After(c);
      (&& Inorder(Plug(c, f)) == x + [f.it] + y
       && Inorder(Plug(Over(d, Under(false, c, g.it, f.red, f.l)), Rest(g))) == x + y)
  {
    var f' := Node(f.l, g.it, f.red, Plug(d, Rest(g)));
    OverPlug(d, Under(false, c, g.it, f.red, f.l), Rest(g));
    assert Plug(Over(d, Under(false, c, g.it, f.red, f.l)), Rest(g)) == Plug(c, f');
    hide Plug, Over, Inorder, Before, After;
    SuccessorFirst(d, g);
    InorderPlug(c, f);
    InorderPlug(c, f');
    InorderNode(f);
    InorderNode(f');
    Around5(Before(c), Inorder(f.l), f.it, Inorder(f.r), After(c));
    Around5(Before(c), Inorder(f.l), g.it, Inorder(f'.r), After(c));
    Slide(Before(c) + Inorder(f.l), g.it, Inorder(f'.r), After(c));
  }

  lemma Slide(x: seq<Item>, it: Item, t: seq<Item>, a: seq<Item>)
    ensures x + [it] + (t + a) == x + (([it] + t) + a)
  {}

  // ---- the whole removal -----------------------------------------------------------

  /** `g` is `f` itself if a child is missing, else its leftmost successor. */
  ghost predicate Chosen(f: Tree, d: Ctx, g: Tree) {
    && f.Node? && g.Node? && (g.l.Leaf? || g.r.Leaf?)
    && if f.l.Leaf? || f.r.Leaf? then d == Top && g == f else Plug(d, g) == f.r && AllLeft(d) && g.l.Leaf?
  }

  /** The surroundings that are left when the item of `f` is removed. */
  function Left(c: Ctx, f: Tree, d: Ctx, g: Tree): Ctx
    requires f.Node? && g.Node?
  {
    if f.l.Leaf? || f.r.Leaf? then c else Over(d, Under(false, c, g.it, f.red, f.l))
  }

  ghost predicate RemovedNodes(c: Ctx, f: Tree, d: Ctx, g: Tree)
    requires f.Node? && g.Node?
  {
    && f.it.n !in Nodes(Rest(g)) + CtxNodes(Left(c, f, d, g))
    && Nodes(Rest(g)) + CtxNodes(Left(c, f, d, g)) == Nodes(f) + CtxNodes(c) - {f.it.n}
  }

  /** The item at the focus leaves the contents; nothing else moves. */
  lemma Removed(c: Ctx, f: Tree, d: Ctx, g: Tree, base: u32, timer: bool) returns (h: int)
    requires RedBlack(Plug(c, f)) && Sep(Plug(c, f)) && Chosen(f, d, g)
    requires Sorted(base, Inorder(Plug(c, f))) && AllInRange(timer, base, Inorder(Plug(c, f)))
    ensures var s := Inorder(Plug(Left(c, f, d, g), Rest(g)));
      (&& Bypassed(Left(c, f, d, g), g, h) && RemovedNodes(c, f, d, g)
       && s == Without(Inorder(Plug(c, f)), f.it.n) && Sorted(base, s) && AllInRange(timer, base, s))
  {
    PlugSep(c, f);
    RemovedDistinct(c, f, d, g);
    var x, y := Before(c) + Inorder(f.l), Inorder(f.r) + After(c);
    hide RemovedNodes, Sorted, AllInRange, Sep, SepCtx;
    if f.l.Leaf? || f.r.Leaf? {
      h := BypassKeeps(Top, c, c, f);
      BypassContents(c, f);
    } else {
      var b, b' := Under(false, c, f.it, f.red, f.l), Under(false, c, g.it, f.red, f.l);
      OverPlug(d, b, g);
      h := BypassKeeps(d, b, b', g);
      SuccessorContents(c, f, d, g);
    }
    DropItem(Plug(c, f), base, timer, x, f.it, y);
  }

  lemma RemovedDistinct(c: Ctx, f: Tree, d: Ctx, g: Tree)
    requires Sep(f) && SepCtx(c, Nodes(f)) && Chosen(f, d, g)
    ensures RemovedNodes(c, f, d, g)
  {
    SepCtxDisjoint(c, Nodes(f));
    if f.l.Node? && f.r.Node? {
      OverPlug(d, Under(false, c, g.it, f.red, f.l), Rest(g));
      PlugNodes(d, g);
    }
  }
}
