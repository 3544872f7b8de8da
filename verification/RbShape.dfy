/** Shapes of the linked red-black tree of code/timer/rbtree.c: trees, trees with one
    subtree taken out, their order and their balance. The functions here are values;
    RbTree.dfy ties them to the links of the nodes. */
module RbShape {
  import opened Words

  class RbNode {
    var key: u32
    var left: RbNode?
    var right: RbNode?
    var parent: RbNode?
    var red: bool

    constructor (k: u32)
      ensures key == k
    {
      key := k;
      left, right, parent, red := null, null, null, false;
    }
  }

  datatype Item = Item(n: RbNode, key: u32)

  datatype Tree = Leaf | Node(l: Tree, it: Item, red: bool, r: Tree)

  /** What surrounds a subtree: it is the left or right child of `it`, whose other
      child is `sib`. */
  datatype Ctx = Top | Under(left: bool, up: Ctx, it: Item, red: bool, sib: Tree)

  /** A node with its children given from the side that is looked at. */
  function Make(left: bool, near: Tree, it: Item, red: bool, far: Tree): Tree {
    if left then Node(near, it, red, far) else Node(far, it, red, near)
  }

  function Near(left: bool, t: Tree): Tree
    requires t.Node?
  {
    if left then t.l else t.r
  }

  function Plug(c: Ctx, t: Tree): Tree {
    match c
    case Top => t
    case Under(left, up, it, red, sib) => Plug(up, Make(left, t, it, red, sib))
  }

  // ---- contents ------------------------------------------------------------

  function Inorder(t: Tree): seq<Item> {
    match t
    case Leaf => []
    case Node(l, it, _, r) => Inorder(l) + [it] + Inorder(r)
  }

  function Before(c: Ctx): seq<Item> {
    match c
    case Top => []
    case Under(left, up, it, _, sib) => if left then Before(up) else Before(up) + Inorder(sib) + [it]
  }

  function After(c: Ctx): seq<Item> {
    match c
    case Top => []
    case Under(left, up, it, _, sib) => if left then [it] + Inorder(sib) + After(up) else After(up)
  }

  lemma Regroup(b: seq<Item>, t: seq<Item>, it: Item, s: seq<Item>, a: seq<Item>)
    ensures b + (t + [it] + s) + a == b + t + ([it] + s + a)
    ensures b + (s + [it] + t) + a == (b + s + [it]) + t + a
  {}

  lemma {:induction false} InorderPlug(c: Ctx, t: Tree)
    ensures Inorder(Plug(c, t)) == Before(c) + Inorder(t) + After(c)
    decreases c
  {
    match c
    case Top =>
      assert [] + Inorder(t) + [] == Inorder(t);
    case Under(left, up, it, red, sib) =>
      InorderPlug(up, Make(left, t, it, red, sib));
      Regroup(Before(up), Inorder(t), it, Inorder(sib), After(up));
  }

  function Nodes(t: Tree): set<RbNode> {
    match t
    case Leaf => {}
    case Node(l, it, _, r) => Nodes(l) + {it.n} + Nodes(r)
  }

  function CtxNodes(c: Ctx): set<RbNode> {
    match c
    case Top => {}
    case Under(_, up, it, _, sib) => CtxNodes(up) + {it.n} + Nodes(sib)
  }

  /** No node occurs twice. */
  predicate Sep(t: Tree) {
    t.Node? ==> t.it.n !in Nodes(t.l) && t.it.n !in Nodes(t.r) && Nodes(t.l) !! Nodes(t.r) && Sep(t.l) && Sep(t.r)
  }

  /** No node of the surroundings occurs twice, or among the nodes `inner` below. */
  predicate SepCtx(c: Ctx, inner: set<RbNode>) {
    c.Under? ==>
      && c.it.n !in inner && Nodes(c.sib) !! inner && c.it.n !in Nodes(c.sib) && Sep(c.sib)
      && SepCtx(c.up, inner + {c.it.n} + Nodes(c.sib))
  }

  lemma {:induction false} SepCtxDisjoint(c: Ctx, inner: set<RbNode>)
    requires SepCtx(c, inner)
    ensures CtxNodes(c) !! inner
    decreases c
  {
    if c.Under? { SepCtxDisjoint(c.up, inner + {c.it.n} + Nodes(c.sib)); }
  }

  lemma {:induction false} PlugNodes(c: Ctx, t: Tree)
    ensures Nodes(Plug(c, t)) == CtxNodes(c) + Nodes(t)
    decreases c
  {
    if c.Under? { PlugNodes(c.up, Make(c.left, t, c.it, c.red, c.sib)); }
  }

  lemma {:induction false} PlugSep(c: Ctx, t: Tree)
    ensures Sep(Plug(c, t)) <==> Sep(t) && SepCtx(c, Nodes(t))
    decreases c
  {
    if c.Under? {
      var t1 := Make(c.left, t, c.it, c.red, c.sib);
      PlugSep(c.up, t1);
      assert Nodes(t1) == Nodes(t) + {c.it.n} + Nodes(c.sib);
    }
  }

  // ---- order -----------------------------------------------------------------

  /** Distance of a key from `base`: with base 0 the key itself; for timers the keys
      lie within half the number space above `base`. */
  function Rank(base: u32, k: u32): nat { U32(k - base) }

  ghost predicate Sorted(base: u32, s: seq<Item>) {
    forall i, j :: 0 <= i < j < |s| ==> Rank(base, s[i].key) <= Rank(base, s[j].key)
  }

  // ---- colours and black heights ---------------------------------------------

  predicate IsRed(t: Tree) { t.Node? && t.red }

  predicate RedOk(t: Tree) {
    t.Node? ==> (t.red ==> !IsRed(t.l) && !IsRed(t.r)) && RedOk(t.l) && RedOk(t.r)
  }

  function Weight(red: bool): nat { if red then 0 else 1 }

  /** Every path down to a leaf has `h` black nodes. */
  predicate Balanced(t: Tree, h: int) {
    match t
    case Leaf => h == 0
    case Node(l, _, red, r) => Balanced(l, h - Weight(red)) && Balanced(r, h - Weight(red))
  }

  lemma {:induction false} BalancedHeight(t: Tree, h: int)
    requires Balanced(t, h)
    ensures h >= 0
    decreases t
  {
    if t.Node? { BalancedHeight(t.l, h - Weight(t.red)); }
  }

  predicate ParentRed(c: Ctx) { c.Under? && c.red }

  /** The surroundings are free of red-red pairs and their topmost node is black. */
  predicate CtxRedOk(c: Ctx) {
    c.Under? ==>
      && RedOk(c.sib) && (c.red ==> !IsRed(c.sib) && !ParentRed(c.up) && c.up.Under?)
      && CtxRedOk(c.up)
  }

  /** The surroundings are balanced around a subtree of black height `h`. */
  predicate CtxBalanced(c: Ctx, h: int) {
    c.Under? ==> Balanced(c.sib, h) && CtxBalanced(c.up, h + Weight(c.red))
  }

  /** A red-black tree. */
  ghost predicate RedBlack(t: Tree) {
    !IsRed(t) && RedOk(t) && exists h :: Balanced(t, h)
  }

  lemma {:induction false} PlugRedBlack(c: Ctx, t: Tree, h: int)
    requires CtxRedOk(c) && CtxBalanced(c, h) && RedOk(t) && Balanced(t, h)
    requires ParentRed(c) ==> !IsRed(t)
    requires c.Top? ==> !IsRed(t)
    ensures RedBlack(Plug(c, t))
    decreases c
  {
    if c.Under? {
      var t1 := Make(c.left, t, c.it, c.red, c.sib);
      assert Balanced(t1, h + Weight(c.red));
      PlugRedBlack(c.up, t1, h + Weight(c.red));
    }
  }

  /** Taking a subtree out of a red-black tree. */
  lemma {:induction false} UnplugRedBlack(c: Ctx, t: Tree) returns (h: int)
    requires RedBlack(Plug(c, t))
    ensures CtxRedOk(c) && CtxBalanced(c, h) && RedOk(t) && Balanced(t, h)
    ensures (ParentRed(c) ==> !IsRed(t)) && (c.Top? ==> !IsRed(t))
    decreases c
  {
    if c.Top? {
      h :| Balanced(t, h);
    } else {
      var t1 := Make(c.left, t, c.it, c.red, c.sib);
      var h1 := UnplugRedBlack(c.up, t1);
      h := h1 - Weight(c.red);
    }
  }

  /** The surroundings of a node of a tree, and the subtree at it. */
  lemma {:induction false} Locate(t: Tree, n: RbNode, up: Ctx) returns (c: Ctx, f: Tree)
    requires n in Nodes(t)
    ensures f.Node? && f.it.n == n && Plug(c, f) == Plug(up, t)
    decreases t
  {
    if t.it.n == n {
      c, f := up, t;
    } else if n in Nodes(t.l) {
      c, f := Locate(t.l, n, Under(true, up, t.it, t.red, t.r));
    } else {
      c, f := Locate(t.r, n, Under(false, up, t.it, t.red, t.l));
    }
  }

  // ---- rotations -------------------------------------------------------------

  /** The subtree after a rotation that brings up the child away from `left`. */
  function Rotated(left: bool, f: Tree): Tree
    requires f.Node? && Near(!left, f).Node?
  {
    var y := Near(!left, f);
    Make(left, Make(left, Near(left, f), f.it, f.red, Near(left, y)), y.it, y.red, Near(!left, y))
  }

  lemma RotatedInorder(left: bool, f: Tree)
    requires f.Node? && Near(!left, f).Node?
    ensures Inorder(Rotated(left, f)) == Inorder(f)
  {
    var y := Near(!left, f);
    var a, b, d := Inorder(Near(left, f)), Inorder(Near(left, y)), Inorder(Near(!left, y));
    Regroup(a, b, y.it, d, []);
    assert a + [f.it] + (b + [y.it] + d) == (a + [f.it] + b) + [y.it] + d;
    assert (d + [y.it] + b) + [f.it] + a == d + [y.it] + (b + [f.it] + a);
  }

  lemma SameContents(c: Ctx, f: Tree, f': Tree)
    requires Inorder(f) == Inorder(f')
    ensures Inorder(Plug(c, f)) == Inorder(Plug(c, f'))
  {
    InorderPlug(c, f);
    InorderPlug(c, f');
  }

  function Depth(c: Ctx): nat { if c.Top? then 0 else 1 + Depth(c.up) }

  // ---- inserting and removing in sorted sequences -----------------------------

  /** The comparison of ngx_rbtree_insert_timer_value (timer) or insert_value. */
  predicate Less(timer: bool, a: u32, b: u32) {
    if timer then S32(a - b) < 0 else a < b
  }

  /** Keys the comparison orders by rank: any without timers, and for timers those less
      than half the number space above `base`. */
  predicate InRange(timer: bool, base: u32, k: u32) {
    if timer then Rank(base, k) < HALF else base == 0
  }

  lemma LessIsRank(timer: bool, base: u32, a: u32, b: u32)
    requires InRange(timer, base, a) && InRange(timer, base, b)
    ensures Less(timer, a, b) <==> Rank(base, a) < Rank(base, b)
  {
    WordDifference(a, base);
    WordDifference(b, base);
    WordDifference(a, b);
    hide U32;
  }

  lemma WordDifference(a: u32, b: u32)
    ensures U32(a - b) == if a >= b then a - b else a - b + MOD
  {}

  /** Keys less than half the number space above two bases are ranked alike by both. */
  lemma SameOrder(base: u32, base': u32, s: seq<Item>)
    requires Sorted(base, s) && AllInRange(true, base, s) && AllInRange(true, base', s)
    ensures Sorted(base', s)
  {
    forall i, j | 0 <= i < j < |s| ensures Rank(base', s[i].key) <= Rank(base', s[j].key) {
      LessIsRank(true, base, s[j].key, s[i].key);
      LessIsRank(true, base', s[j].key, s[i].key);
    }
  }

  /** Half the number space or more lies between a key and the clock as plain numbers. */
  predicate Straddles(k: u32, now: u32) { !(-HALF <= k - now < HALF) }

  lemma PlainDue(base: u32, k: u32, now: u32)
    requires InRange(true, base, k) && InRange(true, base, now)
    ensures (k <= now <==> Rank(base, k) <= Rank(base, now)) <==> !Straddles(k, now)
  {
    WordDifference(k, base);
    WordDifference(now, base);
    hide U32;
  }

  /** expire_timer compares keys with the clock as plain numbers and stops at the first
      larger one, here `n`. The timers before `n` are exactly those due in the order of the
      tree, if and only if the counter did not wrap between the clock and one of the keys
      looked at. */
  lemma ExpireExact(base: u32, s: seq<Item>, now: u32, n: nat)
    requires Sorted(base, s) && AllInRange(true, base, s) && InRange(true, base, now)
    requires n <= |s| && (forall i :: 0 <= i < n ==> s[i].key <= now) && (n < |s| ==> s[n].key > now)
    ensures (forall i :: 0 <= i < |s| ==> (i < n <==> Rank(base, s[i].key) <= Rank(base, now)))
      <==> (forall i :: 0 <= i <= n && i < |s| ==> !Straddles(s[i].key, now))
  {
    forall i | 0 <= i < |s|
      ensures (s[i].key <= now <==> Rank(base, s[i].key) <= Rank(base, now)) <==> !Straddles(s[i].key, now)
    {
      PlainDue(base, s[i].key, now);
    }
    hide Straddles, Rank;
  }

  /** The number of timers due in the order of the tree. */
  function DueCount(base: u32, s: seq<Item>, now: u32): (m: nat)
    ensures m <= |s|
  {
    if s == [] || Rank(base, s[0].key) > Rank(base, now) then 0 else 1 + DueCount(base, s[1..], now)
  }

  lemma {:induction false} DueCountIs(base: u32, s: seq<Item>, now: u32, i: nat)
    requires Sorted(base, s) && i < |s|
    ensures i < DueCount(base, s, now) <==> Rank(base, s[i].key) <= Rank(base, now)
    decreases |s|
  {
    hide Rank;
    if Rank(base, s[0].key) <= Rank(base, now) && i > 0 {
      assert forall j :: 0 <= j < |s| - 1 ==> s[1..][j] == s[j + 1];
      DueCountIs(base, s[1..], now, i - 1);
    }
  }

  /** The counter did not wrap between the clock and the first timer, if that is due, nor
      between the clock and the first timer that is not due. */
  predicate ClockAgrees(base: u32, s: seq<Item>, now: u32) {
    var m := DueCount(base, s, now);
    && (m > 0 ==> !Straddles(s[0].key, now)) && (m < |s| ==> !Straddles(s[m].key, now))
  }

  /** Timers between two that did not wrap did not wrap either. */
  lemma PlainBetween(base: u32, k0: u32, k: u32, now: u32)
    requires InRange(true, base, k0) && InRange(true, base, k) && InRange(true, base, now)
    requires Rank(base, k0) <= Rank(base, k) <= Rank(base, now) && k0 <= now
    ensures k <= now
  {
    WordDifference(k0, base);
    WordDifference(k, base);
    WordDifference(now, base);
    hide U32;
  }

  /** What decides it before the loop starts: the timers that run are exactly those due if
      and only if the clock agrees with the first timer and the first one not due. */
  lemma ExpireIff(base: u32, s: seq<Item>, now: u32, n: nat)
    requires Sorted(base, s) && AllInRange(true, base, s) && InRange(true, base, now)
    requires n <= |s| && (forall i :: 0 <= i < n ==> s[i].key <= now) && (n < |s| ==> s[n].key > now)
    ensures n == DueCount(base, s, now) <==> ClockAgrees(base, s, now)
  {
    hide Straddles, Rank;
    var m := DueCount(base, s, now);
    forall i | 0 <= i < |s|
      ensures i < m <==> Rank(base, s[i].key) <= Rank(base, now)
      ensures (s[i].key <= now <==> i < m) <==> !Straddles(s[i].key, now)
    {
      DueCountIs(base, s, now, i);
      PlainDue(base, s[i].key, now);
    }
    if ClockAgrees(base, s, now) && n < m { PlainBetween(base, s[0].key, s[n].key, now); }
  }

  /** In particular when no key is across the wrap from the clock. */
  lemma ExpireUnwrapped(base: u32, s: seq<Item>, now: u32, n: nat)
    requires Sorted(base, s) && AllInRange(true, base, s) && InRange(true, base, now)
    requires n <= |s| && (forall i :: 0 <= i < n ==> s[i].key <= now) && (n < |s| ==> s[n].key > now)
    requires forall i :: 0 <= i < |s| ==> !Straddles(s[i].key, now)
    ensures n == DueCount(base, s, now)
  {
    ExpireIff(base, s, now, n);
  }

  /** A timer set to run 15 ticks later, behind the wrap, runs at once. */
  lemma EarlyTimer(n: RbNode)
    ensures var s, base, now := [Item(n, 10)], MOD - 100, MOD - 5;
      Sorted(base, s) && AllInRange(true, base, s) && s[0].key <= now && Rank(base, s[0].key) == Rank(base, now) + 15
  {}

  ghost predicate AllInRange(timer: bool, base: u32, s: seq<Item>) {
    forall i :: 0 <= i < |s| ==> InRange(timer, base, s[i].key)
  }

  /** Stable insertion behind all items that do not rank higher. */
  function InsertItem(base: u32, s: seq<Item>, it: Item): seq<Item> {
    if s == [] then [it]
    else if Rank(base, it.key) < Rank(base, s[0].key) then [it] + s
    else [s[0]] + InsertItem(base, s[1..], it)
  }

  lemma {:induction false} InsertItemBetween(base: u32, b: seq<Item>, a: seq<Item>, it: Item)
    requires forall i :: 0 <= i < |b| ==> Rank(base, b[i].key) <= Rank(base, it.key)
    requires forall i :: 0 <= i < |a| ==> Rank(base, it.key) < Rank(base, a[i].key)
    ensures InsertItem(base, b + a, it) == b + [it] + a
    decreases |b|
  {
    if b == [] {
      assert b + a == a;
    } else {
      assert (b + a)[1..] == b[1..] + a;
      InsertItemBetween(base, b[1..], a, it);
    }
  }

  lemma SortedBetween(base: u32, b: seq<Item>, a: seq<Item>, it: Item)
    requires Sorted(base, b + a)
    requires forall i :: 0 <= i < |b| ==> Rank(base, b[i].key) <= Rank(base, it.key)
    requires forall i :: 0 <= i < |a| ==> Rank(base, it.key) < Rank(base, a[i].key)
    ensures Sorted(base, b + [it] + a)
  {
    var s := b + [it] + a;
    forall i, j | 0 <= i < j < |s| ensures Rank(base, s[i].key) <= Rank(base, s[j].key) {
      if i != |b| && j != |b| {
        var i', j' := if i < |b| then i else i - 1, if j < |b| then j else j - 1;
        assert s[i] == (b + a)[i'] && s[j] == (b + a)[j'];
      }
    }
  }

  lemma InorderNode(f: Tree)
    requires f.Node?
    ensures Inorder(f) == Inorder(f.l) + [f.it] + Inorder(f.r)
  {}

  ghost predicate AllAtMost(base: u32, s: seq<Item>, k: u32) {
    forall i :: 0 <= i < |s| ==> Rank(base, s[i].key) <= Rank(base, k)
  }

  ghost predicate AllAbove(base: u32, s: seq<Item>, k: u32) {
    forall i :: 0 <= i < |s| ==> Rank(base, k) < Rank(base, s[i].key)
  }

  /** Going down on the side the comparison says keeps the place of `k` between what is
      before and what is after. */
  lemma BoundsDown(timer: bool, base: u32, k: u32, left: bool, c: Ctx, f: Tree)
    requires f.Node? && Sorted(base, Inorder(Plug(c, f))) && AllInRange(timer, base, Inorder(Plug(c, f)))
    requires InRange(timer, base, k) && left == Less(timer, k, f.it.key)
    requires AllAtMost(base, Before(c), k) && AllAbove(base, After(c), k)
    ensures var d := Under(left, c, f.it, f.red, Near(!left, f));
      AllAtMost(base, Before(d), k) && AllAbove(base, After(d), k)
  {
    hide Rank, Less, Inorder, Plug;
    InorderPlug(c, f);
    InorderNode(f);
    var s, b, l, r := Inorder(Plug(c, f)), |Before(c)|, Inorder(f.l), Inorder(f.r);
    assert s == Before(c) + (l + [f.it] + r) + After(c);
    assert s[b + |l|] == f.it;
    LessIsRank(timer, base, k, f.it.key);
    forall i | 0 <= i < |l| ensures Rank(base, l[i].key) <= Rank(base, f.it.key) {
      assert s[b + i] == l[i];
    }
    forall i | 0 <= i < |r| ensures Rank(base, f.it.key) <= Rank(base, r[i].key) {
      assert s[b + |l| + 1 + i] == r[i];
    }
  }

  // ---- one step of the insert fixup --------------------------------------------

  /** The fault a new red leaf may cause is confined to it and its parent. */
  ghost predicate InsertInv(c: Ctx, f: Tree, h: int) {
    f.Node? && f.red && RedOk(f) && Balanced(f, h) && CtxRedOk(c) && CtxBalanced(c, h)
  }

  /** The grandparent's subtree after its two children were blackened and it was reddened. */
  function Recoloured(c: Ctx, f: Tree): Tree
    requires c.Under? && c.up.Under? && c.up.sib.Node?
  {
    Make(c.up.left, Make(c.left, f, c.it, false, c.sib), c.up.it, true, c.up.sib.(red := false))
  }

  /** A red parent has a black parent of its own; what is known two levels up. */
  lemma FixupRoom(c: Ctx, f: Tree, h: int)
    requires InsertInv(c, f, h) && ParentRed(c)
    ensures c.up.Under? && !c.up.red && RedOk(c.sib) && !IsRed(c.sib) && Balanced(c.sib, h)
    ensures RedOk(c.up.sib) && Balanced(c.up.sib, h) && CtxRedOk(c.up) && CtxBalanced(c.up, h)
    ensures CtxRedOk(c.up.up) && CtxBalanced(c.up.up, h + 1)
  {
    assert CtxRedOk(c.up) && CtxBalanced(c.up, h);
  }

  lemma RecolouredKeeps(c: Ctx, f: Tree, h: int)
    requires InsertInv(c, f, h) && ParentRed(c) && IsRed(c.up.sib)
    ensures InsertInv(c.up.up, Recoloured(c, f), h + 1)
    ensures Inorder(Plug(c.up.up, Recoloured(c, f))) == Inorder(Plug(c, f))
    ensures Nodes(Plug(c.up.up, Recoloured(c, f))) == Nodes(Plug(c, f))
  {
    FixupRoom(c, f, h);
    var t := Make(c.up.left, Make(c.left, f, c.it, c.red, c.sib), c.up.it, c.up.red, c.up.sib);
    assert Balanced(Make(c.left, f, c.it, false, c.sib), h + 1) && Balanced(c.up.sib.(red := false), h + 1);
    assert Inorder(c.up.sib.(red := false)) == Inorder(c.up.sib);
    assert Nodes(c.up.sib.(red := false)) == Nodes(c.up.sib);
    assert Inorder(t) == Inorder(Recoloured(c, f));
    SameContents(c.up.up, t, Recoloured(c, f));
    PlugNodes(c.up.up, t);
    PlugNodes(c.up.up, Recoloured(c, f));
  }

  /** An inner grandchild is rotated out first; the focus moves to its old parent. */
  lemma InnerKeeps(c: Ctx, f: Tree, h: int)
    requires InsertInv(c, f, h) && ParentRed(c)
    ensures var left := !c.left; var p := Make(c.left, f, c.it, true, c.sib);
      (&& Rotated(left, p) == Make(left, Make(left, c.sib, c.it, true, Near(left, f)), f.it, true, Near(!left, f))
       && InsertInv(Under(left, c.up, f.it, true, Near(!left, f)), Make(left, c.sib, c.it, true, Near(left, f)), h)
       && Inorder(Plug(c.up, Rotated(left, p))) == Inorder(Plug(c, f)))
  {
    FixupRoom(c, f, h);
    var p := Make(c.left, f, c.it, true, c.sib);
    RotatedInorder(!c.left, p);
    SameContents(c.up, p, Rotated(!c.left, p));
  }

  /** The rotation that ends the fixup: parent black, grandparent red, rotate. */
  function Raised(c: Ctx, f: Tree): Tree
    requires c.Under? && c.up.Under?
  {
    var left := c.left;
    Make(left, f, c.it, false, Make(left, c.sib, c.up.it, true, c.up.sib))
  }

  function RaisedCtx(c: Ctx): Ctx
    requires c.Under? && c.up.Under?
  {
    Under(c.left, c.up.up, c.it, false, Make(c.left, c.sib, c.up.it, true, c.up.sib))
  }

  lemma RaisedKeeps(c: Ctx, f: Tree, h: int)
    requires InsertInv(c, f, h) && ParentRed(c) && !IsRed(c.up.sib) && c.left == c.up.left
    ensures var left := c.left; var p := Make(left, f, c.it, false, c.sib);
      (&& Rotated(!left, Make(left, p, c.up.it, true, c.up.sib)) == Raised(c, f)
       && InsertInv(RaisedCtx(c), f, h) && !ParentRed(RaisedCtx(c))
       && Inorder(Plug(RaisedCtx(c), f)) == Inorder(Plug(c, f))
       && CtxNodes(RaisedCtx(c)) == CtxNodes(c) && Depth(RaisedCtx(c)) == Depth(c) - 1)
  {
    FixupRoom(c, f, h);
    var g := Make(c.left, Make(c.left, f, c.it, true, c.sib), c.up.it, false, c.up.sib);
    assert Balanced(Make(c.left, c.sib, c.up.it, true, c.up.sib), h);
    RotatedInorder(!c.left, g);
    assert Inorder(Raised(c, f)) == Inorder(Rotated(!c.left, g));
    SameContents(c.up.up, g, Raised(c, f));
    assert Nodes(Make(c.left, c.sib, c.up.it, true, c.up.sib)) == Nodes(c.sib) + {c.up.it.n} + Nodes(c.up.sib);
  }

  /** Blackening the root ends the insertion. */
  lemma BlackenRoot(c: Ctx, f: Tree, h: int)
    requires InsertInv(c, f, h) && !ParentRed(c)
    ensures var t := Plug(c, f); t.Node? && RedBlack(t.(red := false))
  {
    if c.Top? {
      assert Balanced(f.(red := false), h + 1);
    } else {
      PlugRedBlack(c, f, h);
      PlugNode(c, f);
    }
  }

  lemma {:induction false} PlugNode(c: Ctx, f: Tree)
    requires f.Node?
    ensures Plug(c, f).Node?
    decreases c
  {
    if c.Under? { PlugNode(c.up, Make(c.left, f, c.it, c.red, c.sib)); }
  }

  lemma BetweenContents(timer: bool, base: u32, b: seq<Item>, a: seq<Item>, it: Item)
    requires Sorted(base, b + a) && AllInRange(timer, base, b + a) && InRange(timer, base, it.key)
    requires AllAtMost(base, b, it.key) && AllAbove(base, a, it.key)
    ensures var s := b + [it] + a;
      s == InsertItem(base, b + a, it) && Sorted(base, s) && AllInRange(timer, base, s) && s[|b|] == it
  {
    hide InRange, Rank;
    InsertItemBetween(base, b, a, it);
    SortedBetween(base, b, a, it);
    hide Sorted, InsertItem;
    forall i | 0 <= i < |b + [it] + a| ensures InRange(timer, base, (b + [it] + a)[i].key) {
      if i != |b| { assert (b + [it] + a)[i] == (b + a)[if i < |b| then i else i - 1]; }
    }
  }

  /** A new leaf at the place the descent found. */
  lemma LeafContents(timer: bool, base: u32, c: Ctx, it: Item)
    requires Sorted(base, Inorder(Plug(c, Leaf))) && AllInRange(timer, base, Inorder(Plug(c, Leaf)))
    requires AllAtMost(base, Before(c), it.key) && AllAbove(base, After(c), it.key) && InRange(timer, base, it.key)
    ensures var s := Inorder(Plug(c, Node(Leaf, it, true, Leaf)));
      (&& s == InsertItem(base, Inorder(Plug(c, Leaf)), it) && Sorted(base, s) && AllInRange(timer, base, s)
       && |Before(c)| < |s| && s[|Before(c)|] == it)
  {
    hide InRange, Rank, Sorted, AllInRange, AllAtMost, AllAbove, InsertItem, Plug, Before, After;
    InorderPlug(c, Leaf);
    InorderPlug(c, Node(Leaf, it, true, Leaf));
    assert Before(c) + Inorder(Leaf) + After(c) == Before(c) + After(c);
    assert Inorder(Node(Leaf, it, true, Leaf)) == [it];
    BetweenContents(timer, base, Before(c), After(c), it);
  }
}
