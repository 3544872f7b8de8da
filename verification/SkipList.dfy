/** The skip list of code/timer/skiplist.c: nodes with several forward links, updated in
    place. The random height of a new node is an input. */
module SkipList {
  const MAXLEVEL := 32

  /** The links are stored inside the node, one for each of its levels. */
  class Node {
    const score: nat
    const height: nat
    var forward: seq<Node?>

    constructor (level: nat, s: nat)
      ensures score == s && height == level && |forward| == level && forall i :: 0 <= i < level ==> forward[i] == null
    {
      score, height, forward := s, level, seq(level, _ => null);
    }
  }

  // ---- sequences of nodes ------------------------------------------------------------------

  /** The first node taller than `i`. */
  function First(ns: seq<Node>, i: nat): (f: Node?)
    ensures f != null ==> f in ns && f.height > i
  {
    if ns == [] then null else if ns[0].height > i then ns[0] else First(ns[1..], i)
  }

  /** The nodes taller than `i`. */
  function Tall(ns: seq<Node>, i: nat): seq<Node> {
    if ns == [] then [] else (if ns[0].height > i then [ns[0]] else []) + Tall(ns[1..], i)
  }

  predicate Low(ns: seq<Node>, i: nat) { forall k :: 0 <= k < |ns| ==> ns[k].height <= i }

  lemma {:induction false} FirstSkips(a: seq<Node>, b: seq<Node>, i: nat)
    requires Low(a, i)
    ensures First(a + b, i) == First(b, i)
    decreases |a|
  {
    if a == [] {
      assert a + b == b;
    } else {
      assert (a + b)[1..] == a[1..] + b && (a + b)[0] == a[0];
      FirstSkips(a[1..], b, i);
    }
  }

  lemma {:induction false} FirstWithin(a: seq<Node>, b: seq<Node>, i: nat)
    requires !Low(a, i)
    ensures First(a + b, i) == First(a, i)
    decreases |a|
  {
    if a[0].height <= i {
      assert (a + b)[1..] == a[1..] + b && (a + b)[0] == a[0];
      assert !Low(a[1..], i) by {
        var k :| 0 <= k < |a| && a[k].height > i;
        assert a[1..][k - 1] == a[k];
      }
      FirstWithin(a[1..], b, i);
    }
  }

  /** Where the first tall node from position `k` on is. */
  lemma {:induction false} FirstIndex(ns: seq<Node>, k: nat, i: nat) returns (j: nat)
    requires k <= |ns|
    ensures k <= j <= |ns| && Low(ns[k..j], i)
    ensures First(ns[k..], i) == if j < |ns| then ns[j] else null
    ensures j < |ns| ==> ns[j].height > i
    decreases |ns| - k
  {
    j := k;
    if k < |ns| {
      assert ns[k..][0] == ns[k] && ns[k..][1..] == ns[k + 1..];
      if ns[k].height <= i {
        j := FirstIndex(ns, k + 1, i);
        assert ns[k..j] == [ns[k]] + ns[k + 1..j];
      }
    }
  }

  ghost predicate Sorted(ns: seq<Node>) { forall j, k :: 0 <= j < k < |ns| ==> ns[j].score <= ns[k].score }

  ghost predicate Distinct(ns: seq<Node>) { forall j, k :: 0 <= j < k < |ns| ==> ns[j] != ns[k] }

  /** The number of nodes in front of the first one whose score is not below `score`. */
  function Cut(ns: seq<Node>, score: nat): (c: nat)
    ensures c <= |ns| && (forall k :: 0 <= k < c ==> ns[k].score < score) && (c < |ns| ==> ns[c].score >= score)
  {
    if ns == [] || ns[0].score >= score then 0 else 1 + Cut(ns[1..], score)
  }

  /** A plain sorted list: a new node goes in front of the nodes with the same score. */
  function Inserted(ns: seq<Node>, n: Node): seq<Node> {
    ns[..Cut(ns, n.score)] + [n] + ns[Cut(ns, n.score)..]
  }

  function Without(ns: seq<Node>, c: nat): seq<Node>
    requires c < |ns|
  {
    ns[..c] + ns[c + 1..]
  }

  predicate Has(ns: seq<Node>, score: nat) { Cut(ns, score) < |ns| && ns[Cut(ns, score)].score == score }

  /** The first node with the score goes. */
  function Deleted(ns: seq<Node>, score: nat): seq<Node> {
    if Has(ns, score) then Without(ns, Cut(ns, score)) else ns
  }

  function Scores(ns: seq<Node>): seq<nat> { seq(|ns|, k requires 0 <= k < |ns| => ns[k].score) }

  lemma InsertedKeeps(ns: seq<Node>, n: Node)
    requires Sorted(ns)
    ensures Sorted(Inserted(ns, n)) && multiset(Scores(Inserted(ns, n))) == multiset(Scores(ns)) + multiset{n.score}
  {
    var c := Cut(ns, n.score);
    var a, b := ns[..c], ns[c..];
    assert Scores(Inserted(ns, n)) == Scores(a) + [n.score] + Scores(b);
    assert Scores(ns) == Scores(a) + Scores(b);
  }

  lemma DeletedKeeps(ns: seq<Node>, score: nat)
    requires Sorted(ns)
    ensures Sorted(Deleted(ns, score)) && (Has(ns, score) <==> score in Scores(ns))
    ensures multiset(Scores(Deleted(ns, score))) == multiset(Scores(ns)) - multiset{score}
  {
    if Has(ns, score) { DeletedScores(ns, Cut(ns, score)); } else { NoScore(ns, score); }
  }

  lemma DeletedScores(ns: seq<Node>, c: nat)
    requires c < |ns|
    ensures multiset(Scores(Without(ns, c))) == multiset(Scores(ns)) - multiset{ns[c].score} && ns[c].score in Scores(ns)
  {
    var a, b := ns[..c], ns[c + 1..];
    assert Scores(Without(ns, c)) == Scores(a) + Scores(b);
    assert Scores(ns) == Scores(a) + [ns[c].score] + Scores(b);
    assert Scores(ns)[c] == ns[c].score;
  }

  lemma NoScore(ns: seq<Node>, score: nat)
    requires Sorted(ns) && !Has(ns, score)
    ensures score !in Scores(ns)
  {
    var c := Cut(ns, score);
    forall k | 0 <= k < |ns| ensures Scores(ns)[k] != score {
      if k > c { assert ns[c].score <= ns[k].score; }
    }
  }

  // ---- links ---------------------------------------------------------------------------------

  /** The link of `n` at level `i` goes to the first tall node from position `k` on. */
  ghost predicate LinkOk(n: Node, ns: seq<Node>, k: nat, i: nat)
    requires k <= |ns|
    reads n`forward
  {
    i < |n.forward| && n.forward[i] == First(ns[k..], i)
  }

  /** The links at level `i` go from each node taller than `i` to the next one. */
  ghost predicate LevelOk(h: Node, ns: seq<Node>, i: nat)
    reads h`forward, ns`forward
  {
    LinkOk(h, ns, 0, i) && forall p :: 0 <= p < |ns| && ns[p].height > i ==> LinkOk(ns[p], ns, p + 1, i)
  }

  /** Following the links from `h` at level `i` visits the nodes `c` and ends. */
  ghost predicate Path(h: Node, i: nat, c: seq<Node>)
    reads h`forward, c`forward
    decreases |c|
  {
    && i < |h.forward|
    && if c == [] then h.forward[i] == null else h.forward[i] == c[0] && Path(c[0], i, c[1..])
  }

  /** The chain at level `i` is exactly the sequence of the nodes taller than `i`. */
  lemma {:induction false} ChainIsTall(h: Node, ns: seq<Node>, i: nat)
    requires LevelOk(h, ns, i)
    ensures Path(h, i, Tall(ns, i))
    decreases |ns|
  {
    hide First, Tall, LevelOk;
    var j := FirstIndex(ns, 0, i);
    assert ns[0..] == ns && ns[0..j] == ns[..j];
    TallFrom(ns, j, i);
    LevelHead(h, ns, i);
    if j < |ns| {
      LevelTail(h, ns, i, j);
      ChainIsTall(ns[j], ns[j + 1..], i);
    }
  }

  lemma TallFrom(ns: seq<Node>, j: nat, i: nat)
    requires j <= |ns| && Low(ns[..j], i) && (j < |ns| ==> ns[j].height > i)
    ensures Tall(ns, i) == if j == |ns| then [] else [ns[j]] + Tall(ns[j + 1..], i)
  {
    TallSkips(ns[..j], ns[j..], i);
    assert ns[..j] + ns[j..] == ns;
    if j < |ns| { assert ns[j..][0] == ns[j] && ns[j..][1..] == ns[j + 1..]; }
  }

  lemma LevelHead(h: Node, ns: seq<Node>, i: nat)
    requires LevelOk(h, ns, i)
    ensures i < |h.forward| && h.forward[i] == First(ns, i)
  {
    assert ns[0..] == ns;
  }

  /** A tall node and the nodes behind it are linked like a list of their own. */
  lemma LevelTail(h: Node, ns: seq<Node>, i: nat, j: nat)
    requires LevelOk(h, ns, i) && j < |ns| && ns[j].height > i
    ensures LevelOk(ns[j], ns[j + 1..], i)
  {
    hide First;
    var rest := ns[j + 1..];
    assert rest[0..] == rest;
    forall p | 0 <= p < |rest| && rest[p].height > i ensures LinkOk(rest[p], rest, p + 1, i) {
      assert rest[p] == ns[j + 1 + p] && LinkOk(ns[j + 1 + p], ns, j + 1 + p + 1, i);
      assert rest[p + 1..] == ns[j + 1 + p + 1..];
    }
  }

  lemma {:induction false} TallSkips(a: seq<Node>, b: seq<Node>, i: nat)
    requires Low(a, i)
    ensures Tall(a + b, i) == Tall(b, i)
    decreases |a|
  {
    if a == [] {
      assert a + b == b;
    } else {
      assert (a + b)[1..] == a[1..] + b && (a + b)[0] == a[0];
      TallSkips(a[1..], b, i);
    }
  }

  /** Position -1 is the header. */
  ghost function At(h: Node, ns: seq<Node>, q: int): Node
    requires -1 <= q < |ns|
  {
    if q == -1 then h else ns[q]
  }

  /** The last node taller than `i` in front of position `cut` is at `q`. */
  ghost predicate PredAt(h: Node, ns: seq<Node>, cut: nat, q: int, u: Node, i: nat) {
    && -1 <= q < cut <= |ns| && u == At(h, ns, q) && (q >= 0 ==> ns[q].height > i)
    && forall p :: q < p < cut ==> ns[p].height <= i
  }

  lemma PredIs(h: Node, ns: seq<Node>, cut: nat, q: int, u: Node, i: nat)
    requires PredAt(h, ns, cut, q, u, i)
    ensures -1 <= q < cut <= |ns| && u == At(h, ns, q)
  {}

  /** Between the two no node is tall. */
  lemma PredGap(h: Node, ns: seq<Node>, cut: nat, q: int, u: Node, i: nat, k: nat)
    requires PredAt(h, ns, cut, q, u, i) && k <= cut
    ensures if k > q then Low(ns[k..cut], i) else !Low(ns[k..cut], i)
  {
    if k <= q { assert ns[k..cut][q - k] == ns[q]; }
  }

  /** The link at such a node goes over the cut. */
  lemma PredLink(h: Node, ns: seq<Node>, cut: nat, q: int, u: Node, i: nat)
    requires LevelOk(h, ns, i) && PredAt(h, ns, cut, q, u, i)
    ensures i < |u.forward| && u.forward[i] == First(ns[cut..], i)
  {
    hide First, Low;
    PredGap(h, ns, cut, q, u, i, q + 1);
    assert ns[q + 1..] == ns[q + 1..cut] + ns[cut..];
    FirstSkips(ns[q + 1..cut], ns[cut..], i);
    if q >= 0 { assert LinkOk(ns[q], ns, q + 1, i); }
  }

  lemma NotPred(h: Node, ns: seq<Node>, cut: nat, q: int, u: Node, i: nat, p: nat)
    requires PredAt(h, ns, cut, q, u, i) && h !in ns && Distinct(ns) && p < |ns| && ns[p].height > i
    ensures ns[p] == u <==> p == q
    ensures p < cut ==> p <= q
  {}

  lemma {:induction false} NoneIsLow(ns: seq<Node>, i: nat)
    ensures First(ns, i) == null <==> Low(ns, i)
    decreases |ns|
  {
    if ns != [] && ns[0].height <= i {
      NoneIsLow(ns[1..], i);
      assert ns == [ns[0]] + ns[1..];
    }
  }

  // ---- putting a node in ---------------------------------------------------------------------

  function PutIn(ns: seq<Node>, cut: nat, x: Node): seq<Node>
    requires cut <= |ns|
  {
    ns[..cut] + [x] + ns[cut..]
  }

  /** What follows a position in front of the cut, before and after. */
  lemma NextIn(ns: seq<Node>, cut: nat, x: Node, i: nat, k: nat)
    requires k <= cut <= |ns|
    ensures First(PutIn(ns, cut, x)[k..], i) ==
      if !Low(ns[k..cut], i) then First(ns[k..], i) else if x.height > i then x else First(ns[cut..], i)
    ensures Low(ns[k..cut], i) ==> First(ns[k..], i) == First(ns[cut..], i)
  {
    var a, b := ns[k..cut], ns[cut..];
    assert ns[k..] == a + b && PutIn(ns, cut, x)[k..] == a + ([x] + b);
    if Low(a, i) {
      FirstSkips(a, [x] + b, i);
      FirstSkips(a, b, i);
      assert ([x] + b)[1..] == b;
    } else {
      FirstWithin(a, [x] + b, i);
      FirstWithin(a, b, i);
    }
  }

  lemma BehindIn(ns: seq<Node>, cut: nat, x: Node, k: nat)
    requires cut < k <= |ns| + 1
    ensures PutIn(ns, cut, x)[k..] == ns[k - 1..]
  {}

  lemma PartsIn(ns: seq<Node>, cut: nat, x: Node, p: nat)
    requires cut <= |ns| && p <= |ns|
    ensures |PutIn(ns, cut, x)| == |ns| + 1
    ensures PutIn(ns, cut, x)[p] == if p < cut then ns[p] else if p == cut then x else ns[p - 1]
  {}

  twostate lemma OldLink(new h: Node, new ns: seq<Node>, new i: nat, new p: nat)
    requires old(allocated(h)) && old(allocated(ns)) && old(LevelOk(h, ns, i)) && p < |ns| && ns[p].height > i
    ensures old(LinkOk(ns[p], ns, p + 1, i))
  {}

  /** The links at one level after the new node was hung in there. */
  twostate lemma LinkedIn(new h: Node, new ns: seq<Node>, new cut: nat, new q: int, new u: Node, new x: Node, new i: nat)
    requires old(allocated(h)) && old(allocated(ns)) && old(allocated(u)) && old(allocated(x))
    requires old(LevelOk(h, ns, i)) && PredAt(h, ns, cut, q, u, i) && x !in ns && x != h && h !in ns && Distinct(ns)
    requires x.height > i && i < |x.forward| && x.forward[i] == First(ns[cut..], i) && i < |u.forward| && u.forward[i] == x
    requires forall n :: (n == h || n in ns) && n != u ==> n.forward == old(n.forward)
    ensures LevelOk(h, PutIn(ns, cut, x), i)
  {
    hide First, Low, Distinct, PredAt, PutIn;
    PredIs(h, ns, cut, q, u, i);
    PredGap(h, ns, cut, q, u, i, 0);
    NextIn(ns, cut, x, i, 0);
    forall p | 0 <= p < |ns| + 1 && |PutIn(ns, cut, x)| == |ns| + 1 && PutIn(ns, cut, x)[p].height > i
      ensures LinkOk(PutIn(ns, cut, x)[p], PutIn(ns, cut, x), p + 1, i)
    {
      LinkedInAt(h, ns, cut, q, u, x, i, p);
    }
    PartsIn(ns, cut, x, 0);
  }

  twostate lemma LinkedInAt(new h: Node, new ns: seq<Node>, new cut: nat, new q: int, new u: Node, new x: Node, new i: nat, new p: nat)
    requires old(allocated(h)) && old(allocated(ns)) && old(allocated(u)) && old(allocated(x))
    requires old(LevelOk(h, ns, i)) && PredAt(h, ns, cut, q, u, i) && x !in ns && x != h && h !in ns && Distinct(ns)
    requires x.height > i && i < |x.forward| && x.forward[i] == First(ns[cut..], i) && i < |u.forward| && u.forward[i] == x
    requires forall n :: (n == h || n in ns) && n != u ==> n.forward == old(n.forward)
    requires p <= |ns| && |PutIn(ns, cut, x)| == |ns| + 1 && PutIn(ns, cut, x)[p].height > i
    ensures LinkOk(PutIn(ns, cut, x)[p], PutIn(ns, cut, x), p + 1, i)
  {
    hide First, Low, Distinct, PredAt, PutIn, LevelOk;
    PredIs(h, ns, cut, q, u, i);
    PartsIn(ns, cut, x, p);
    if p < cut {
      NotPred(h, ns, cut, q, u, i, p);
      PredGap(h, ns, cut, q, u, i, p + 1);
      NextIn(ns, cut, x, i, p + 1);
      OldLink(h, ns, i, p);
    } else {
      BehindIn(ns, cut, x, p + 1);
      if p > cut {
        NotPred(h, ns, cut, q, u, i, p - 1);
        OldLink(h, ns, i, p - 1);
      }
    }
  }

  /** A level whose links did not change. */
  twostate lemma LevelSame(new h: Node, new ns: seq<Node>, new i: nat)
    requires old(allocated(h)) && old(allocated(ns)) && old(LevelOk(h, ns, i))
    requires forall n :: n == h || n in ns ==> SameLink(n, i)
    ensures LevelOk(h, ns, i)
  {
    hide First;
    assert SameLink(h, i);
    forall p | 0 <= p < |ns| && ns[p].height > i ensures LinkOk(ns[p], ns, p + 1, i) {
      assert SameLink(ns[p], i) && old(LinkOk(ns[p], ns, p + 1, i));
    }
  }

  twostate predicate SameLink(new n: Node, new i: nat)
    requires old(allocated(n))
    reads n`forward
  {
    |n.forward| == old(|n.forward|) && (i < |n.forward| ==> n.forward[i] == old(n.forward[i]))
  }

  /** A node that does not reach the level is not linked there. */
  lemma LevelOver(h: Node, ns: seq<Node>, cut: nat, x: Node, i: nat)
    requires LevelOk(h, ns, i) && cut <= |ns| && x.height <= i
    ensures LevelOk(h, PutIn(ns, cut, x), i)
  {
    hide First, Low, PutIn;
    NextIn(ns, cut, x, i, 0);
    PartsIn(ns, cut, x, 0);
    forall p | 0 <= p <= |ns| && PutIn(ns, cut, x)[p].height > i ensures LinkOk(PutIn(ns, cut, x)[p], PutIn(ns, cut, x), p + 1, i) {
      LinkOver(h, ns, cut, x, i, p);
    }
  }

  lemma LinkOver(h: Node, ns: seq<Node>, cut: nat, x: Node, i: nat, p: nat)
    requires LevelOk(h, ns, i) && cut <= |ns| && x.height <= i && p <= |ns| && |PutIn(ns, cut, x)| == |ns| + 1
    requires PutIn(ns, cut, x)[p].height > i
    ensures LinkOk(PutIn(ns, cut, x)[p], PutIn(ns, cut, x), p + 1, i)
  {
    hide First, Low, PutIn, LevelOk;
    PartsIn(ns, cut, x, p);
    if p < cut {
      NextIn(ns, cut, x, i, p + 1);
      LevelLink(h, ns, i, p);
    } else {
      BehindIn(ns, cut, x, p + 1);
      LevelLink(h, ns, i, p - 1);
    }
  }

  lemma LevelLink(h: Node, ns: seq<Node>, i: nat, p: nat)
    requires LevelOk(h, ns, i) && p < |ns| && ns[p].height > i
    ensures LinkOk(ns[p], ns, p + 1, i)
  {}

  // ---- taking a node out ---------------------------------------------------------------------

  lemma NextOut(ns: seq<Node>, cut: nat, i: nat, k: nat)
    requires k <= cut < |ns|
    ensures First(Without(ns, cut)[k..], i) == if !Low(ns[k..cut], i) then First(ns[k..], i) else First(ns[cut + 1..], i)
    ensures Low(ns[k..cut], i) ==> First(ns[k..], i) == First(ns[cut..], i)
    ensures First(ns[cut..], i) == if ns[cut].height > i then ns[cut] else First(ns[cut + 1..], i)
  {
    var a, b := ns[k..cut], ns[cut + 1..];
    assert ns[k..] == a + ns[cut..] && Without(ns, cut)[k..] == a + b;
    assert ns[cut..][0] == ns[cut] && ns[cut..][1..] == b;
    if Low(a, i) {
      FirstSkips(a, b, i);
      FirstSkips(a, ns[cut..], i);
    } else {
      FirstWithin(a, b, i);
      FirstWithin(a, ns[cut..], i);
    }
  }

  lemma PartsOut(ns: seq<Node>, cut: nat, p: nat)
    requires cut < |ns| && p < |ns| - 1
    ensures |Without(ns, cut)| == |ns| - 1 && Without(ns, cut)[p] == if p < cut then ns[p] else ns[p + 1]
    ensures p >= cut ==> Without(ns, cut)[p + 1..] == ns[p + 2..]
  {}

  /** The links at one level after the node at the cut was taken out there. */
  twostate lemma LinkedOut(new h: Node, new ns: seq<Node>, new cut: nat, new q: int, new u: Node, new i: nat)
    requires old(allocated(h)) && old(allocated(ns)) && old(allocated(u)) && cut < |ns|
    requires old(LevelOk(h, ns, i)) && PredAt(h, ns, cut, q, u, i) && h !in ns && Distinct(ns)
    requires i < |u.forward| && u.forward[i] == First(ns[cut + 1..], i)
    requires forall n :: (n == h || n in ns) && n != u ==> n.forward == old(n.forward)
    ensures LevelOk(h, Without(ns, cut), i)
  {
    hide First, Low, Distinct, PredAt, Without;
    PredIs(h, ns, cut, q, u, i);
    PredGap(h, ns, cut, q, u, i, 0);
    NextOut(ns, cut, i, 0);
    OutLength(ns, cut);
    forall p | 0 <= p < |ns| - 1 && Without(ns, cut)[p].height > i ensures LinkOk(Without(ns, cut)[p], Without(ns, cut), p + 1, i) {
      LinkedOutAt(h, ns, cut, q, u, i, p);
    }
  }

  lemma OutLength(ns: seq<Node>, cut: nat)
    requires cut < |ns|
    ensures |Without(ns, cut)| == |ns| - 1
  {}

  twostate lemma LinkedOutAt(new h: Node, new ns: seq<Node>, new cut: nat, new q: int, new u: Node, new i: nat, new p: nat)
    requires old(allocated(h)) && old(allocated(ns)) && old(allocated(u)) && cut < |ns|
    requires old(LevelOk(h, ns, i)) && PredAt(h, ns, cut, q, u, i) && h !in ns && Distinct(ns)
    requires i < |u.forward| && u.forward[i] == First(ns[cut + 1..], i)
    requires forall n :: (n == h || n in ns) && n != u ==> n.forward == old(n.forward)
    requires p < |ns| - 1 && |Without(ns, cut)| == |ns| - 1 && Without(ns, cut)[p].height > i
    ensures LinkOk(Without(ns, cut)[p], Without(ns, cut), p + 1, i)
  {
    hide First, Low, Distinct, PredAt, Without, LevelOk;
    PredIs(h, ns, cut, q, u, i);
    PartsOut(ns, cut, p);
    if p < cut {
      NotPred(h, ns, cut, q, u, i, p);
      PredGap(h, ns, cut, q, u, i, p + 1);
      NextOut(ns, cut, i, p + 1);
      OldLink(h, ns, i, p);
    } else {
      NotPred(h, ns, cut, q, u, i, p + 1);
      OldLink(h, ns, i, p + 1);
    }
  }

  // ---- the list ------------------------------------------------------------------------------

  class SkipList {
    var header: Node
    var length: nat
    var level: nat

    ghost var nodes: seq<Node>

    /** Sorted nodes, at each level a chain through exactly the nodes taller than the level,
        nothing above `level`, and `length` nodes. */
    ghost predicate Valid()
      reads this, header`forward, nodes`forward
    {
      && header !in nodes && header.height == |header.forward| == MAXLEVEL && 1 <= level <= MAXLEVEL && length == |nodes|
      && Sorted(nodes) && Distinct(nodes) && Sizes(nodes, level)
      && (forall i :: 0 <= i < MAXLEVEL ==> LevelOk(header, nodes, i)) && (level > 1 ==> header.forward[level - 1] != null)
    }

    /** zslCreate. */
    constructor ()
      ensures Valid() && nodes == [] && fresh(header)
    {
      level, length := 1, 0;
      header := new Node(MAXLEVEL, 0);
      nodes := [];
    }

    /** The search both operations start with: at each level the last node in front of the
        first one whose score is not below `score`. */
    method Search(score: nat) returns (update: seq<Node>, ghost qs: seq<int>)
      requires Valid()
      ensures |update| == |qs| == MAXLEVEL
      ensures forall i :: 0 <= i < MAXLEVEL ==> PredAt(header, nodes, Cut(nodes, score), qs[i], update[i], i)
    {
      hide LevelOk, Sorted, Distinct, Sizes, PredAt, Cut;
      ghost var cut := Cut(nodes, score);
      var x, h := header, header;
      ghost var q := -1;
      update, qs := seq(MAXLEVEL, _ => h), seq(MAXLEVEL, _ => -1);
      AboveLevel(cut);
      var i := level;
      while i > 0
        invariant 0 <= i <= level && |update| == |qs| == MAXLEVEL && -1 <= q < cut && x == At(header, nodes, q)
        invariant q >= 0 ==> nodes[q].height >= i
        invariant forall j :: i <= j < MAXLEVEL ==> PredAt(header, nodes, cut, qs[j], update[j], j)
      {
        i := i - 1;
        x, q := Along(x, i, score, q);
        update, qs := update[i := x], qs[i := q];
      }
    }

    /** The inner loop at level `i`. */
    method Along(start: Node, i: nat, score: nat, ghost q0: int) returns (x: Node, ghost q: int)
      requires Valid() && i < level && -1 <= q0 < Cut(nodes, score) && start == At(header, nodes, q0)
      requires q0 >= 0 ==> nodes[q0].height > i
      ensures q0 <= q < Cut(nodes, score) && PredAt(header, nodes, Cut(nodes, score), q, x, i)
      ensures x == At(header, nodes, q) && (q >= 0 ==> nodes[q].height > i)
    {
      hide Valid, PredAt, Cut;
      x, q := start, q0;
      ghost var j := NextAlong(q, i, score);
      while x.forward[i] != null && x.forward[i].score < score
        invariant q0 <= q < Cut(nodes, score) && x == At(header, nodes, q) && (q >= 0 ==> nodes[q].height > i)
        invariant q < j <= |nodes| && i < |x.forward| && x.forward[i] == (if j < |nodes| then nodes[j] else null)
        invariant (j < |nodes| ==> nodes[j].height > i) && Gap(q, j, i)
        invariant j < |nodes| ==> (nodes[j].score < score <==> j < Cut(nodes, score))
        decreases Cut(nodes, score) - q
      {
        x, q := x.forward[i], j;
        j := NextAlong(q, i, score);
      }
      Stopped(q, j, score, i, x);
    }

    /** No node strictly between the positions is taller than `i`. */
    ghost predicate Gap(q: int, j: nat, i: nat)
      requires -1 <= q && j <= |nodes|
      reads this`nodes
    {
      forall p :: q < p < j ==> nodes[p].height <= i
    }

    /** Where the link of the node at `q` goes. */
    lemma NextAlong(q: int, i: nat, score: nat) returns (j: nat)
      requires Valid() && -1 <= q < |nodes| && i < level && (q >= 0 ==> nodes[q].height > i)
      ensures var x := At(header, nodes, q);
        q < j <= |nodes| && i < |x.forward| && x.forward[i] == if j < |nodes| then nodes[j] else null
      ensures (j < |nodes| ==> nodes[j].height > i) && Gap(q, j, i)
      ensures j < |nodes| ==> (nodes[j].score < score <==> j < Cut(nodes, score))
    {
      hide LevelOk, Sorted, Distinct, Sizes, Cut, First, Gap, At;
      Link(q, i);
      j := FirstIndex(nodes, q + 1, i);
      NoneBetween(q, j, i);
      SortedNodes();
      if j < |nodes| { InFront(j, score); }
    }

    lemma SortedNodes()
      requires Valid()
      ensures Sorted(nodes)
    {}

    lemma NoneBetween(q: int, j: nat, i: nat)
      requires -1 <= q < j <= |nodes| && Low(nodes[q + 1..j], i)
      ensures Gap(q, j, i)
    {
      forall p | q < p < j ensures nodes[p].height <= i { assert nodes[q + 1..j][p - q - 1] == nodes[p]; }
    }

    lemma Stopped(q: int, j: nat, score: nat, i: nat, x: Node)
      requires -1 <= q < Cut(nodes, score) && q < j <= |nodes| && Gap(q, j, i) && (j < |nodes| ==> Cut(nodes, score) <= j)
      requires x == At(header, nodes, q) && (q >= 0 ==> nodes[q].height > i)
      ensures PredAt(header, nodes, Cut(nodes, score), q, x, i)
    {
      var c := Cut(nodes, score);
      assert c <= j;
    }

    lemma InFront(j: nat, score: nat)
      requires Sorted(nodes) && j < |nodes|
      ensures nodes[j].score < score <==> j < Cut(nodes, score)
    {
      var cut := Cut(nodes, score);
      if j > cut { assert nodes[cut].score <= nodes[j].score; }
    }

    lemma Link(q: int, i: nat)
      requires Valid() && -1 <= q < |nodes| && i < MAXLEVEL && (q >= 0 ==> nodes[q].height > i)
      ensures var x := At(header, nodes, q); i < |x.forward| && x.forward[i] == First(nodes[q + 1..], i)
    {
      hide Sorted, Distinct, Sizes, First;
      assert LevelOk(header, nodes, i);
      if q >= 0 { assert LinkOk(nodes[q], nodes, q + 1, i); }
    }

    /** The links of the header and of the nodes, whatever `nodes` and `level` say. */
    ghost predicate Chained(ns: seq<Node>)
      reads this`header, header`forward, ns`forward
    {
      && header !in ns && header.height == |header.forward| == MAXLEVEL && Distinct(ns)
      && (forall n :: n in ns ==> n.height == |n.forward|)
      && forall i :: 0 <= i < MAXLEVEL ==> LevelOk(header, ns, i)
    }

    /** The loop of zslInsert over the levels of the new node. */
    method HangIn(x: Node, update: seq<Node>, ghost qs: seq<int>, ghost ns: seq<Node>, ghost cut: nat)
      requires Chained(ns) && x !in ns && x != header && x.height == |x.forward| <= MAXLEVEL
      requires |update| == |qs| == MAXLEVEL && forall i :: 0 <= i < MAXLEVEL ==> PredAt(header, ns, cut, qs[i], update[i], i)
      modifies header`forward, ns`forward, x`forward
      ensures cut <= |ns| && Chained(PutIn(ns, cut, x))
    {
      hide LevelOk, First, PredAt, PutIn, Distinct;
      PredIs(header, ns, cut, qs[0], update[0], 0);
      ghost var ns' := PutIn(ns, cut, x);
      for i := 0 to x.height
        invariant header.height == |header.forward| == MAXLEVEL && x.height == |x.forward|
        invariant forall n :: n in ns ==> n.height == |n.forward|
        invariant forall j :: 0 <= j < i ==> LevelOk(header, ns', j)
        invariant forall j :: i <= j < MAXLEVEL ==> LevelOk(header, ns, j)
      {
        var u := update[i];
        PredIs(header, ns, cut, qs[i], u, i);
        PredLink(header, ns, cut, qs[i], u, i);
        label before:
        x.forward := x.forward[i := u.forward[i]];
        u.forward := u.forward[i := x];
        LinkedIn@before(header, ns, cut, qs[i], u, x, i);
        forall j | 0 <= j < i ensures LevelOk(header, ns', j) { LevelSame@before(header, ns', j); }
        forall j | i < j < MAXLEVEL ensures LevelOk(header, ns, j) { LevelSame@before(header, ns, j); }
      }
      forall j | x.height <= j < MAXLEVEL ensures LevelOk(header, ns', j) { LevelOver(header, ns, cut, x, j); }
      NowChained(ns, cut, x);
    }

    lemma NowChained(ns: seq<Node>, cut: nat, x: Node)
      requires cut <= |ns| && header !in ns && x != header && header.height == |header.forward| == MAXLEVEL
      requires Distinct(ns) && x !in ns && x.height == |x.forward| && forall n :: n in ns ==> n.height == |n.forward|
      requires forall i :: 0 <= i < MAXLEVEL ==> LevelOk(header, PutIn(ns, cut, x), i)
      ensures Chained(PutIn(ns, cut, x))
    {
      hide LevelOk, Distinct, PutIn;
      InDistinct(ns, cut, x);
      if header in PutIn(ns, cut, x) { InMember(ns, cut, x, header); }
      forall n | n in PutIn(ns, cut, x) ensures n.height == |n.forward| { InMember(ns, cut, x, n); }
    }

    /** zslInsert: a node of the given height goes in front of those with the same score. */
    method Insert(score: nat, newlevel: nat) returns (x: Node)
      requires Valid() && 1 <= newlevel <= MAXLEVEL
      modifies this`length, this`level, this`nodes, header`forward, nodes`forward
      ensures Valid() && fresh(x) && x.score == score && x.height == newlevel && nodes == Inserted(old(nodes), x)
    {
      hide LevelOk, First, PredAt, PutIn, Distinct, Sorted, Cut;
      ghost var ns, cut := nodes, Cut(nodes, score);
      TopTall();
      var update: seq<Node>;
      ghost var qs: seq<int>;
      update, qs := Search(score);
      if newlevel > level {
        AboveLevel(cut);
        for i := level to newlevel
          invariant |update| == |qs| == MAXLEVEL && forall j :: 0 <= j < MAXLEVEL ==> PredAt(header, ns, cut, qs[j], update[j], j)
        {
          update, qs := update[i := header], qs[i := -1];
        }
      }
      x := new Node(newlevel, score);
      HangIn(x, update, qs, ns, cut);
      InMembers(ns, cut, x);
      if newlevel > level {
        level := newlevel;
      }
      length := length + 1;
      nodes := PutIn(ns, cut, x);
      PartsIn(ns, cut, x, 0);
      InsertedIs(ns, x);
      Rebuilt();
    }

    lemma InsertedIs(ns: seq<Node>, x: Node)
      requires Sorted(ns)
      ensures Inserted(ns, x) == PutIn(ns, Cut(ns, x.score), x) && Sorted(Inserted(ns, x))
    {
      InsertedKeeps(ns, x);
    }

    lemma TopTall()
      requires 1 <= level <= MAXLEVEL && Chained(nodes) && (level > 1 ==> header.forward[level - 1] != null)
      ensures level > 1 ==> Reaches(nodes, level - 1)
    {
      if level > 1 {
        LevelHead(header, nodes, level - 1);
        assert header.forward[level - 1] in nodes;
      }
    }

    lemma Rebuilt()
      requires Chained(nodes) && Sorted(nodes) && Sizes(nodes, level) && length == |nodes| && 1 <= level <= MAXLEVEL
      requires level > 1 ==> Reaches(nodes, level - 1)
      ensures Valid()
    {
      if level > 1 {
        LevelHead(header, nodes, level - 1);
        NoneIsLow(nodes, level - 1);
      }
    }

    /** The loop of zslDeleteNode over the levels. */
    method HangOut(x: Node, update: seq<Node>, ghost qs: seq<int>, ghost ns: seq<Node>, ghost cut: nat)
      requires Chained(ns) && cut < |ns| && ns[cut] == x && level <= MAXLEVEL
      requires |update| == |qs| == MAXLEVEL && forall i :: 0 <= i < MAXLEVEL ==> PredAt(header, ns, cut, qs[i], update[i], i)
      requires x.height <= level
      modifies header`forward, ns`forward
      ensures Chained(Without(ns, cut))
    {
      hide LevelOk, First, PredAt, Without, Distinct;
      ghost var ns' := Without(ns, cut);
      OutMembers(ns, cut);
      for i := 0 to level
        invariant header.height == |header.forward| == MAXLEVEL && forall n :: n in ns ==> n.height == |n.forward|
        invariant forall j :: 0 <= j < i ==> LevelOk(header, ns', j)
        invariant forall j :: i <= j < MAXLEVEL ==> LevelOk(header, ns, j)
      {
        var u := update[i];
        PredIs(header, ns, cut, qs[i], u, i);
        OutTarget(header, ns, cut, qs[i], u, i);
        label before:
        if u.forward[i] == x {
          u.forward := u.forward[i := x.forward[i]];
        }
        LinkedOut@before(header, ns, cut, qs[i], u, i);
        forall j | 0 <= j < i ensures LevelOk(header, ns', j) { LevelSame@before(header, ns', j); }
        forall j | i < j < MAXLEVEL ensures LevelOk(header, ns, j) { LevelSame@before(header, ns, j); }
      }
      forall j | level <= j < MAXLEVEL ensures LevelOk(header, ns', j) { OutUnder(header, ns, cut, j); }
      OutDistinct(ns, cut);
    }

    /** The end of both deletions: `level` goes down to the highest level in use. */
    method Lower()
      requires Chained(nodes) && Sorted(nodes) && Sizes(nodes, level) && 1 <= level <= MAXLEVEL && length == |nodes|
      modifies this`level
      ensures Valid()
    {
      hide LevelOk, First, Distinct, Sorted;
      while level > 1 && header.forward[level - 1] == null
        invariant 1 <= level <= MAXLEVEL && Sizes(nodes, level) && Chained(nodes)
      {
        LevelHead(header, nodes, level - 1);
        NoneIsLow(nodes, level - 1);
        level := level - 1;
      }
      TopTall();
      Rebuilt();
    }

    /** zslDeleteNode and the rest of zslDelete. */
    method DeleteNode(x: Node, update: seq<Node>, ghost qs: seq<int>, ghost cut: nat)
      requires Valid() && cut < |nodes| && nodes[cut] == x
      requires |update| == |qs| == MAXLEVEL && forall i :: 0 <= i < MAXLEVEL ==> PredAt(header, nodes, cut, qs[i], update[i], i)
      modifies this`length, this`level, this`nodes, header`forward, nodes`forward
      ensures Valid() && nodes == Without(old(nodes), cut)
    {
      hide LevelOk, First, PredAt, Without, Distinct, Sorted;
      ghost var ns := nodes;
      HangOut(x, update, qs, ns, cut);
      OutMembers(ns, cut);
      OutLength(ns, cut);
      OutSorted(ns, cut);
      nodes := Without(ns, cut);
      length := length - 1;
      Lower();
    }

    /** zslDelete: the first node with the score of `zn` goes, whether it is `zn` or not. */
    method Delete(zn: Node)
      requires Valid()
      modifies this`length, this`level, this`nodes, header`forward, nodes`forward
      ensures Valid() && nodes == Deleted(old(nodes), zn.score)
    {
      hide LevelOk, First, PredAt, Distinct, Sorted;
      ghost var cut := Cut(nodes, zn.score);
      var update: seq<Node>;
      ghost var qs: seq<int>;
      update, qs := Search(zn.score);
      PredLink(header, nodes, cut, qs[0], update[0], 0);
      var x := update[0].forward[0];
      AtCut(nodes, cut);
      if x != null && zn.score == x.score {
        DeleteNode(x, update, qs, cut);
      }
    }

    /** zslMin. */
    method Min() returns (x: Node?)
      requires Valid()
      ensures x == if nodes == [] then null else nodes[0]
    {
      LevelHead(header, nodes, 0);
      x := header.forward[0];
    }

    /** zslDeleteHead. */
    method DeleteHead()
      requires Valid()
      modifies this`length, this`level, this`nodes, header`forward
      ensures Valid() && nodes == if old(nodes) == [] then [] else old(nodes)[1..]
    {
      hide LevelOk, First, Without, Distinct, Sorted;
      var x := Min();
      if x == null {
        return;
      }
      ghost var ns := nodes;
      UnhookHead(x, ns);
      OutMembers(ns, 0);
      OutLength(ns, 0);
      OutSorted(ns, 0);
      WithoutFirst(ns);
      nodes := Without(ns, 0);
      length := length - 1;
      Lower();
    }

    method UnhookHead(x: Node, ghost ns: seq<Node>)
      requires Chained(ns) && ns != [] && ns[0] == x && 1 <= level <= MAXLEVEL && x.height <= level
      modifies header`forward
      ensures Chained(Without(ns, 0))
    {
      hide LevelOk, First, Without, Distinct;
      ghost var ns' := Without(ns, 0);
      OutMembers(ns, 0);
      var i := level;
      while i > 0
        invariant 0 <= i <= level && header.height == |header.forward| == MAXLEVEL && forall n :: n in ns ==> n.height == |n.forward|
        invariant forall j :: i <= j < level ==> LevelOk(header, ns', j)
        invariant forall j :: 0 <= j < i || level <= j < MAXLEVEL ==> LevelOk(header, ns, j)
      {
        i := i - 1;
        assert PredAt(header, ns, 0, -1, header, i);
        OutTarget(header, ns, 0, -1, header, i);
        label before:
        if header.forward[i] == x {
          header.forward := header.forward[i := x.forward[i]];
        }
        LinkedOut@before(header, ns, 0, -1, header, i);
        forall j | i < j < level ensures LevelOk(header, ns', j) { LevelSame@before(header, ns', j); }
        forall j | 0 <= j < i || level <= j < MAXLEVEL ensures LevelOk(header, ns, j) { LevelSame@before(header, ns, j); }
      }
      forall j | level <= j < MAXLEVEL ensures LevelOk(header, ns', j) { OutUnder(header, ns, 0, j); }
      OutDistinct(ns, 0);
    }

    /** expire_timer: the timers whose score is not above `now` go, in order. */
    method Expire(now: nat) returns (ghost fired: seq<Node>)
      requires Valid()
      modifies this`length, this`level, this`nodes, header`forward
      ensures Valid() && old(nodes) == fired + nodes
      ensures (forall n :: n in fired ==> n.score <= now) && (forall n :: n in nodes ==> n.score > now)
    {
      hide Valid;
      fired := [];
      ghost var ns := nodes;
      var x := Min();
      while x != null && x.score <= now
        invariant Valid() && x == (if nodes == [] then null else nodes[0]) && ns == fired + nodes
        invariant forall n :: n in fired ==> n.score <= now
        decreases |nodes|
      {
        FirstMoves(fired, nodes);
        fired := fired + [nodes[0]];
        DeleteHead();
        x := Min();
      }
      RestLater(now);
    }

    lemma RestLater(now: nat)
      requires Valid() && (nodes != [] ==> nodes[0].score > now)
      ensures forall n :: n in nodes ==> n.score > now
    {
      hide LevelOk, Distinct, Sizes;
      forall n | n in nodes ensures n.score > now {
        var k :| 0 <= k < |nodes| && nodes[k] == n;
        assert k > 0 ==> nodes[0].score <= nodes[k].score;
      }
    }

    lemma AboveLevel(cut: nat)
      requires Valid() && cut <= |nodes|
      ensures forall i :: level <= i < MAXLEVEL ==> PredAt(header, nodes, cut, -1, header, i)
    {
      hide Sorted, Distinct, LevelOk;
    }
  }

  lemma InMember(ns: seq<Node>, cut: nat, x: Node, n: Node)
    requires cut <= |ns| && n in PutIn(ns, cut, x)
    ensures n in ns || n == x
  {}

  lemma InMembers(ns: seq<Node>, cut: nat, x: Node)
    requires cut <= |ns|
    ensures forall n :: n in PutIn(ns, cut, x) <==> n in ns || n == x
  {
    assert ns == ns[..cut] + ns[cut..];
  }

  lemma OutMembers(ns: seq<Node>, cut: nat)
    requires cut < |ns|
    ensures forall n :: n in Without(ns, cut) ==> n in ns
  {}

  lemma OutDistinct(ns: seq<Node>, cut: nat)
    requires cut < |ns| && Distinct(ns)
    ensures Distinct(Without(ns, cut))
  {}

  lemma OutSorted(ns: seq<Node>, cut: nat)
    requires cut < |ns| && Sorted(ns)
    ensures Sorted(Without(ns, cut))
  {}

  lemma FirstMoves(a: seq<Node>, b: seq<Node>)
    requires b != []
    ensures (a + [b[0]]) + b[1..] == a + b
  {}

  lemma WithoutFirst(ns: seq<Node>)
    requires ns != []
    ensures Without(ns, 0) == ns[1..]
  {}

  /** The first node at level 0 from the cut on. */
  lemma AtCut(ns: seq<Node>, cut: nat)
    requires cut <= |ns| && forall n :: n in ns ==> n.height >= 1
    ensures First(ns[cut..], 0) == if cut < |ns| then ns[cut] else null
  {
    if cut < |ns| { assert ns[cut..][0] == ns[cut]; }
  }

  /** A node that does not reach the level can go without a change there. */
  lemma OutUnder(h: Node, ns: seq<Node>, cut: nat, i: nat)
    requires LevelOk(h, ns, i) && cut < |ns| && ns[cut].height <= i
    ensures LevelOk(h, Without(ns, cut), i)
  {
    hide First, Low, Without;
    NextOut(ns, cut, i, 0);
    OutLength(ns, cut);
    forall p | 0 <= p < |ns| - 1 && Without(ns, cut)[p].height > i ensures LinkOk(Without(ns, cut)[p], Without(ns, cut), p + 1, i) {
      PartsOut(ns, cut, p);
      if p < cut {
        NextOut(ns, cut, i, p + 1);
        assert LinkOk(ns[p], ns, p + 1, i);
      } else {
        assert LinkOk(ns[p + 1], ns, p + 2, i);
      }
    }
  }

  /** What the code links to when it takes out the node at the cut. */
  lemma OutTarget(h: Node, ns: seq<Node>, cut: nat, q: int, u: Node, i: nat)
    requires LevelOk(h, ns, i) && PredAt(h, ns, cut, q, u, i) && cut < |ns|
    ensures i < |u.forward| && (u.forward[i] == ns[cut] ==> i < ns[cut].height && i < |ns[cut].forward|)
    ensures First(ns[cut + 1..], i) == if u.forward[i] == ns[cut] then ns[cut].forward[i] else u.forward[i]
  {
    PredLink(h, ns, cut, q, u, i);
    NextOut(ns, cut, i, cut);
    if ns[cut].height > i { assert LinkOk(ns[cut], ns, cut + 1, i); }
  }

  // ---- which node a deletion takes -------------------------------------------------------------

  /** zslDelete takes out the node it is given if and only if no node in front of that one has
      the same score. */
  lemma DeletesItself(ns: seq<Node>, k: nat)
    requires Sorted(ns) && Distinct(ns) && k < |ns|
    ensures ns[k] !in Deleted(ns, ns[k].score) <==> k == 0 || ns[k - 1].score < ns[k].score
  {
    var c := Cut(ns, ns[k].score);
    assert c <= k;
    if c < k {
      assert Deleted(ns, ns[k].score)[k - 1] == ns[k];
      assert ns[c].score <= ns[k - 1].score;
    } else {
      assert k == 0 || ns[k - 1].score < ns[k].score;
    }
  }

  /** Of two nodes with one score, deleting the second takes out the first. */
  lemma TakesTheOther(a: Node, b: Node)
    requires a != b && a.score == b.score
    ensures Deleted([a, b], b.score) == [b]
  {
    assert Cut([a, b], b.score) == 0;
  }

  lemma InDistinct(ns: seq<Node>, cut: nat, x: Node)
    requires cut <= |ns| && Distinct(ns) && x !in ns
    ensures Distinct(PutIn(ns, cut, x))
  {}

  /** Every node has its links and is no taller than `level`. */
  ghost predicate Sizes(ns: seq<Node>, level: nat)
    reads ns`forward
  {
    forall n :: n in ns ==> 1 <= n.height == |n.forward| <= level
  }

  /** Some node is taller than `i`. */
  ghost predicate Reaches(ns: seq<Node>, i: nat) { exists n :: n in ns && n.height > i }
}
