/** Runs of the pool of code/mmpool/ngx_palloc.c from its creation on: everything that any sequence
    of requests gives out is pairwise disjoint. */
module NginxPoolRuns {
  import opened NginxPool

  datatype Kind = Aligned | Plain | OnBoundary(alignment: nat)

  /** A request, with what the system answers if it is asked for memory for the piece (`a`) or for
      a new block (`answer`). */
  datatype Request = Request(kind: Kind, size: nat, a: nat, answer: nat)

  /** Memory the system gives for request `i`, and what it gave for the pool: nobody else's. */
  predicate Separate(e: Extent, f: Extent) {
    e.start != 0 && f.start != 0 ==>
      Apart(e.start, e.size, f.start, f.size) && e.start != f.start
      && !(e.start <= f.start < e.start + e.size) && !(f.start <= e.start < f.start + f.size)
  }

  function Piece(q: Request): Extent { Extent(q.a, q.size) }

  function NewBlock(q: Request, psize: nat): Extent { Extent(q.answer, psize) }

  /** A piece as aligned as asked for; large pieces of ngx_palloc are as the system gives them. */
  predicate Fits(q: Request, psize: nat, start: nat)
    requires POOL <= psize
  {
    match q.kind
    case Aligned => q.size <= MaxOf(psize) ==> start % ALIGNMENT == 0
    case Plain => true
    case OnBoundary(alignment) => alignment > 0 && start % alignment == 0
  }

  /** The answers are aligned as asked for. */
  predicate WellPlaced(q: Request, psize: nat) {
    && q.answer % POOL_ALIGNMENT == 0 && q.answer + psize < WORD && q.a + q.size < WORD
    && (q.kind.OnBoundary? ==> q.kind.alignment > 0 && q.a % q.kind.alignment == 0)
    && Separate(Piece(q), NewBlock(q, psize))
  }

  /** The answers to two requests are memory of their own. */
  predicate Beside(q: Request, r: Request, psize: nat) {
    && Separate(Piece(q), Piece(r)) && Separate(Piece(q), NewBlock(r, psize))
    && Separate(NewBlock(q, psize), Piece(r)) && Separate(NewBlock(q, psize), NewBlock(r, psize))
  }

  /** The system never gives out memory twice. */
  ghost predicate SystemOk(p: nat, psize: nat, qs: seq<Request>) {
    && (forall i :: 0 <= i < |qs| ==> WellPlaced(qs[i], psize))
    && (forall i :: 0 <= i < |qs| ==> Separate(Extent(p, psize), Piece(qs[i])) && Separate(Extent(p, psize), NewBlock(qs[i], psize)))
    && forall i, j :: 0 <= i < j < |qs| ==> Beside(qs[i], qs[j], psize)
  }

  // ---- what a caller sees of a pool --------------------------------------------------------------

  /** The addresses of the blocks, the pieces of blocks and the large blocks given out. */
  datatype View = View(bases: seq<nat>, grants: seq<Region>, live: set<Extent>)

  ghost function ViewOf(pool: Pool): View
    reads pool, pool.larges
  {
    View(Bases(pool.blocks), pool.grants, Live(pool.larges))
  }

  function Bases(bs: seq<Block>): (ps: seq<nat>)
    ensures |ps| == |bs| && forall i :: 0 <= i < |bs| ==> ps[i] == bs[i].base
  {
    if bs == [] then [] else [bs[0].base] + Bases(bs[1..])
  }

  /** Everything given out is apart from everything else given out. */
  ghost predicate Tidy(v: View) {
    && (forall i, j :: 0 <= i < j < |v.grants| ==> Apart(v.grants[i].start, v.grants[i].size, v.grants[j].start, v.grants[j].size))
    && (forall e, f :: e in v.live && f in v.live && e != f ==> Apart(e.start, e.size, f.start, f.size))
    && forall i, e :: 0 <= i < |v.grants| && e in v.live ==> Apart(v.grants[i].start, v.grants[i].size, e.start, e.size)
  }

  /** Memory nobody has. */
  ghost predicate Free(v: View, psize: nat, e: Extent) {
    e.start != 0 ==>
      && e.start + e.size < WORD && (forall i :: 0 <= i < |v.bases| ==> Outside(e.start, e.size, v.bases[i], psize))
      && forall f :: f in v.live ==> f.start != e.start && Apart(f.start, f.size, e.start, e.size) && !(e.start <= f.start < e.start + e.size)
  }

  lemma FreeIsFresh(pool: Pool, e: Extent)
    ensures Free(ViewOf(pool), pool.psize, e) <==> pool.Fresh(e.start, e.size)
  {
    var ls := pool.larges;
    if Free(ViewOf(pool), pool.psize, e) && e.start != 0 {
      forall i | 0 <= i < |ls| && ls[i].alloc != 0
        ensures ls[i].alloc != e.start && Apart(ls[i].alloc, ls[i].size, e.start, e.size) && !(e.start <= ls[i].alloc < e.start + e.size)
      {
        assert Extent(ls[i].alloc, ls[i].size) in Live(ls);
      }
      forall k | 0 <= k < |pool.blocks| ensures Outside(e.start, e.size, pool.blocks[k].base, pool.psize) {
        assert Bases(pool.blocks)[k] == pool.blocks[k].base;
      }
    }
  }

  /** The answers to the request are still nobody's. */
  ghost predicate Available(v: View, psize: nat, q: Request) { Free(v, psize, Piece(q)) && Free(v, psize, NewBlock(q, psize)) }

  /** The piece is noted in the pool. */
  ghost predicate Noted(v: View, e: Extent) { e in v.live || exists i :: 0 <= i < |v.grants| && Extent(v.grants[i].start, v.grants[i].size) == e }

  /** What a request does: one more piece or one more large block, or nothing if it fails. */
  ghost predicate Step(v: View, v': View, q: Request, start: nat) {
    && (v'.bases == v.bases || (q.answer != 0 && v'.bases == v.bases + [q.answer]))
    && (start == 0 ==> v'.grants == v.grants && v'.live == v.live)
    && (start != 0 ==> Small(v, v', q, start) || Large(v, v', q, start))
  }

  ghost predicate Small(v: View, v': View, q: Request, start: nat) {
    v'.live == v.live && exists k :: v'.grants == v.grants + [Region(k, start, q.size)]
  }

  ghost predicate Large(v: View, v': View, q: Request, start: nat) {
    && start == q.a && Piece(q) !in v.live && v'.live == v.live + {Piece(q)}
    && (v'.grants == v.grants || exists k, m :: v'.grants == v.grants + [Region(k, m, LARGE)])
  }

  /** What was noted stays noted. */
  lemma NotedStays(v: View, v': View, q: Request, start: nat, e: Extent)
    requires Step(v, v', q, start) && Noted(v, e)
    ensures Noted(v', e)
  {
    if i :| 0 <= i < |v.grants| && Extent(v.grants[i].start, v.grants[i].size) == e {
      assert v'.grants[i] == v.grants[i];
    }
  }

  /** A new piece is noted, and apart from what was noted before. */
  lemma NewIsApart(v: View, v': View, q: Request, start: nat, e: Extent)
    requires Step(v, v', q, start) && Tidy(v') && start != 0
    ensures Noted(v', Extent(start, q.size))
    ensures Noted(v, e) ==> Apart(e.start, e.size, start, q.size)
  {
    var n := |v.grants|;
    if Small(v, v', q, start) {
      assert v'.grants[n].start == start && v'.grants[n].size == q.size;
      assert Extent(v'.grants[n].start, v'.grants[n].size) == Extent(start, q.size);
      if i :| 0 <= i < n && Extent(v.grants[i].start, v.grants[i].size) == e {
        assert v'.grants[i] == v.grants[i];
      }
    } else {
      assert Piece(q) in v'.live;
      if i :| 0 <= i < n && Extent(v.grants[i].start, v.grants[i].size) == e {
        assert v'.grants[i] == v.grants[i];
      }
    }
  }

  /** What is available for a later request stays available. */
  lemma FreeStays(v: View, v': View, psize: nat, q: Request, start: nat, e: Extent)
    requires Step(v, v', q, start) && Free(v, psize, e) && Separate(Piece(q), e) && Separate(NewBlock(q, psize), e)
    ensures Free(v', psize, e)
  {
    if e.start != 0 {
      forall i | 0 <= i < |v'.bases| ensures Outside(e.start, e.size, v'.bases[i], psize) {
        if i < |v.bases| { assert v'.bases[i] == v.bases[i]; }
      }
    }
  }

  // ---- runs -----------------------------------------------------------------------------------------

  /** The pieces of the requests so far. */
  ghost predicate Served(v: View, psize: nat, qs: seq<Request>, pieces: seq<Extent>)
    requires POOL <= psize
  {
    && |pieces| <= |qs|
    && (forall i :: 0 <= i < |pieces| && pieces[i].start != 0 ==> pieces[i].size == qs[i].size && Noted(v, pieces[i]))
    && (forall i :: 0 <= i < |pieces| ==> Fits(qs[i], psize, pieces[i].start))
    && forall i, j :: 0 <= i < j < |pieces| && pieces[i].start != 0 && pieces[j].start != 0 ==>
         Apart(pieces[i].start, pieces[i].size, pieces[j].start, pieces[j].size)
  }

  /** The requests that are left can still be answered. */
  ghost predicate Coming(v: View, psize: nat, qs: seq<Request>, n: nat) { forall i :: n <= i < |qs| ==> Available(v, psize, qs[i]) }

  lemma ServedMore(v: View, v': View, psize: nat, qs: seq<Request>, pieces: seq<Extent>, start: nat)
    requires POOL <= psize && Served(v, psize, qs, pieces) && |pieces| < |qs|
    requires Step(v, v', qs[|pieces|], start) && Tidy(v') && Fits(qs[|pieces|], psize, start)
    ensures Served(v', psize, qs, pieces + [Extent(start, qs[|pieces|].size)])
  {
    hide Step, Tidy, Noted, WellPlaced, Fits;
    var n := |pieces|;
    var ps, q := pieces + [Extent(start, qs[n].size)], qs[n];
    forall i | 0 <= i <= n && ps[i].start != 0 ensures ps[i].size == qs[i].size && Noted(v', ps[i]) {
      if i < n { NotedStays(v, v', q, start, pieces[i]); } else { NewIsApart(v, v', q, start, ps[i]); }
    }
    forall i | 0 <= i < n && ps[i].start != 0 && start != 0 ensures Apart(ps[i].start, ps[i].size, start, q.size) {
      NewIsApart(v, v', q, start, pieces[i]);
    }
  }

  lemma ComingStays(v: View, v': View, p: nat, psize: nat, qs: seq<Request>, n: nat, start: nat)
    requires Coming(v, psize, qs, n) && n < |qs| && SystemOk(p, psize, qs) && Step(v, v', qs[n], start)
    ensures Coming(v', psize, qs, n + 1)
  {
    hide Step, Free, Separate, WellPlaced;
    forall i | n + 1 <= i < |qs| ensures Available(v', psize, qs[i]) {
      assert Available(v, psize, qs[i]) && Beside(qs[n], qs[i], psize);
      FreeStays(v, v', psize, qs[n], start, Piece(qs[i]));
      FreeStays(v, v', psize, qs[n], start, NewBlock(qs[i], psize));
    }
  }

  lemma AtFirst(p: nat, psize: nat, qs: seq<Request>)
    requires SystemOk(p, psize, qs) && p > 0 && POOL <= psize
    ensures Coming(View([p], [], {}), psize, qs, 0) && Served(View([p], [], {}), psize, qs, [])
  {
    forall i | 0 <= i < |qs| ensures Available(View([p], [], {}), psize, qs[i]) {
      assert WellPlaced(qs[i], psize) && Separate(Extent(p, psize), Piece(qs[i])) && Separate(Extent(p, psize), NewBlock(qs[i], psize));
    }
  }

  lemma IsTidy(pool: Pool)
    requires pool.Valid()
    ensures Tidy(ViewOf(pool))
  {
    pool.PiecesApart();
  }

  twostate lemma SmallStep(new pool: Pool, new q: Request, new k: nat, new start: nat)
    requires old(allocated(pool)) && pool.Smaller(start, Want(q.size, q.kind.Aligned?), k, q.answer)
    ensures Step(old(ViewOf(pool)), ViewOf(pool), q, start)
  {
    hide Live;
    BasesMore(old(pool.blocks), pool.blocks);
  }

  twostate lemma LargeStep(new pool: Pool, new q: Request, new start: nat)
    requires old(allocated(pool)) && pool.Larger(start, q.size, q.a, q.answer)
    ensures Step(old(ViewOf(pool)), ViewOf(pool), q, start)
  {
    BasesMore(old(pool.blocks), pool.blocks);
    assert Piece(q) in old(Live(pool.larges)) ==> q.a in Starts(old(Live(pool.larges)));
    hide Live;
  }

  lemma BasesMore(bs: seq<Block>, bs': seq<Block>)
    ensures |bs'| == |bs| + 1 && bs'[..|bs|] == bs ==> Bases(bs') == Bases(bs) + [bs'[|bs|].base]
  {
    if |bs'| == |bs| + 1 && bs'[..|bs|] == bs {
      forall i | 0 <= i < |bs| ensures Bases(bs')[i] == Bases(bs)[i] { assert bs'[..|bs|][i] == bs[i]; }
    }
  }

  /** One request. */
  method Ask(pool: Pool, q: Request) returns (start: nat)
    requires pool.Valid() && Available(ViewOf(pool), pool.psize, q) && WellPlaced(q, pool.psize)
    modifies pool.Repr()
    ensures pool.Valid() && POOL <= pool.psize && fresh(pool.Repr() - old(pool.Repr())) && Fits(q, pool.psize, start)
    ensures Step(old(ViewOf(pool)), ViewOf(pool), q, start)
  {
    FreeIsFresh(pool, Piece(q));
    FreeIsFresh(pool, NewBlock(q, pool.psize));
    LimitIs(pool);
    assert pool.Fresh(q.a, q.size) && pool.Fresh(q.answer, pool.psize);
    assert q.a != 0 && q.answer != 0 ==> Outside(q.a, q.size, q.answer, pool.psize);
    hide Free, Available, Separate, Step, ViewOf, Pool.Valid, Pool.Fresh, Pool.Smaller, Pool.Larger, Outside;
    ghost var k;
    match q.kind {
      case Aligned =>
        start, k := pool.Palloc(q.size, q.a, q.answer);
        Stepped(pool, q, k, start);
      case Plain =>
        start, k := pool.Pnalloc(q.size, q.a, q.answer);
        Stepped(pool, q, k, start);
      case OnBoundary(alignment) =>
        start := pool.Pmemalign(q.size, alignment, q.a, q.answer);
        LargeStep(pool, q, start);
    }
  }

  twostate lemma Stepped(new pool: Pool, new q: Request, new k: nat, new start: nat)
    requires old(allocated(pool))
    requires if q.size <= pool.max then pool.Smaller(start, Want(q.size, q.kind.Aligned?), k, q.answer) else pool.Larger(start, q.size, q.a, q.answer)
    ensures Step(old(ViewOf(pool)), ViewOf(pool), q, start)
  {
    hide Step, ViewOf, Pool.Smaller, Pool.Larger;
    if q.size <= pool.max { SmallStep(pool, q, k, start); } else { LargeStep(pool, q, start); }
  }

  lemma LimitIs(pool: Pool)
    requires pool.Valid()
    ensures POOL <= pool.psize && pool.max == MaxOf(pool.psize)
  {}

  /** A pool that has given out nothing. */
  method Create(p: nat, psize: nat) returns (pool: Pool)
    requires POOL <= psize && psize % ALIGNMENT == 0 && p > 0 && p % POOL_ALIGNMENT == 0 && p + psize < WORD
    ensures pool.Valid() && pool.psize == psize && fresh(pool.Repr()) && ViewOf(pool) == View([p], [], {})
  {
    hide Pool.Valid, Pool.Repr;
    pool := new Pool(p, psize);
  }

  /** The next request of a run. */
  method ServeNext(pool: Pool, ghost p: nat, psize: nat, qs: seq<Request>, pieces: seq<Extent>) returns (pieces': seq<Extent>)
    requires pool.Valid() && pool.psize == psize && POOL <= psize && SystemOk(p, psize, qs) && |pieces| < |qs|
    requires Coming(ViewOf(pool), psize, qs, |pieces|) && Served(ViewOf(pool), psize, qs, pieces)
    modifies pool.Repr()
    ensures pool.Valid() && fresh(pool.Repr() - old(pool.Repr())) && |pieces'| == |pieces| + 1
    ensures Coming(ViewOf(pool), psize, qs, |pieces'|) && Served(ViewOf(pool), psize, qs, pieces')
  {
    hide Served, Coming, Available, WellPlaced, SystemOk, Step, Fits, Tidy, Pool.Valid, ViewOf, Pool.Repr;
    ghost var v := ViewOf(pool);
    var n := |pieces|;
    Upcoming(v, p, psize, qs, n);
    var start := Ask(pool, qs[n]);
    IsTidy(pool);
    ServedMore(v, ViewOf(pool), psize, qs, pieces, start);
    ComingStays(v, ViewOf(pool), p, psize, qs, n, start);
    pieces' := pieces + [Extent(start, qs[n].size)];
  }

  /** ngx_create_pool and then any sequence of requests, by ngx_palloc, ngx_pnalloc and
      ngx_pmemalign: the pieces are as large and as aligned as asked for and pairwise disjoint. */
  method Serve(p: nat, psize: nat, qs: seq<Request>) returns (pool: Pool, pieces: seq<Extent>)
    requires POOL <= psize && psize % ALIGNMENT == 0 && p > 0 && p % POOL_ALIGNMENT == 0 && p + psize < WORD
    requires SystemOk(p, psize, qs)
    ensures pool.Valid() && |pieces| == |qs| && Served(ViewOf(pool), psize, qs, pieces)
  {
    hide Served, Coming, SystemOk, Pool.Valid, ViewOf;
    AtFirst(p, psize, qs);
    pool := Create(p, psize);
    pieces := [];
    while |pieces| < |qs|
      invariant |pieces| <= |qs| && pool.Valid() && fresh(pool.Repr())
      invariant Coming(ViewOf(pool), psize, qs, |pieces|) && Served(ViewOf(pool), psize, qs, pieces)
    {
      pieces := ServeNext(pool, p, psize, qs, pieces);
    }
  }

  lemma Upcoming(v: View, p: nat, psize: nat, qs: seq<Request>, n: nat)
    requires Coming(v, psize, qs, n) && n < |qs| && SystemOk(p, psize, qs)
    ensures Available(v, psize, qs[n]) && WellPlaced(qs[n], psize)
  {}
}
