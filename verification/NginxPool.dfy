/** The nginx pool allocator of code/mmpool/ngx_palloc.c: addresses are numbers, and what the
    system allocator answers is an input, 0 when it has no memory. */
module NginxPool {
  const ALIGNMENT := 8
  const POOL_ALIGNMENT := 16
  /** Sizes of ngx_pool_t, ngx_pool_data_t and ngx_pool_large_t. */
  const POOL := 80
  const DATA := 32
  const LARGE := 16
  const WORD := 0x1_0000_0000_0000_0000
  /** NGX_MAX_ALLOC_FROM_POOL for pages of 4096 bytes. */
  const MAX_FROM_POOL := 4095

  /** ngx_align_ptr. */
  function Align(m: nat): (a: nat)
    ensures m <= a < m + ALIGNMENT && a % ALIGNMENT == 0
  {
    (m + 7) / 8 * 8
  }

  /** Conversion to size_t. */
  function U64(x: int): nat { x % WORD }

  /** A piece of memory; `k` is the position of the chain block it lies in. */
  datatype Region = Region(k: nat, start: nat, size: nat)

  /** Memory of its own. */
  datatype Extent = Extent(start: nat, size: nat)

  predicate Apart(a: nat, n: nat, b: nat, m: nat) { n == 0 || m == 0 || a + n <= b || b + m <= a }

  // ---- the test for room ---------------------------------------------------------------------

  /** The code's test whether `size` bytes fit from `m` up to `end`. */
  predicate Room(m: nat, end: nat, size: nat) { U64(end - m) >= size }

  /** The test keeps an aligned piece inside the block exactly if aligning does not already
      leave it. */
  lemma RoomIff(last: nat, end: nat, size: nat)
    requires last <= end < WORD && size < WORD - ALIGNMENT
    ensures (Room(Align(last), end, size) ==> Align(last) + size <= end) <==> Align(last) <= end
  {
    var d := end - Align(last);
    if d >= 0 { assert U64(d) == d; } else { assert -ALIGNMENT < d && U64(d) == d + WORD; }
  }

  /** A multiple of the alignment as size of the pool keeps every block clear of that. */
  lemma AlignedRoom(base: nat, psize: nat, last: nat, size: nat)
    requires base % ALIGNMENT == 0 && psize % ALIGNMENT == 0 && last <= base + psize < WORD && size < WORD
    ensures Align(last) <= base + psize
    ensures Room(Align(last), base + psize, size) <==> Align(last) + size <= base + psize
    ensures Room(last, base + psize, size) <==> last + size <= base + psize
  {
    assert (base + psize) % 8 == 0;
    var e := (base + psize) / 8;
    assert base + psize == 8 * e && (last + 7) / 8 <= e;
    assert U64(base + psize - Align(last)) == base + psize - Align(last) && U64(base + psize - last) == base + psize - last;
  }

  // ---- one block, request by request -------------------------------------------------------------

  /** A small request, of ngx_palloc or of ngx_pnalloc. */
  datatype Want = Want(size: nat, align: bool)

  function StartOf(last: nat, q: Want): nat { if q.align then Align(last) else last }

  /** `last` after the request; a block without room stays as it is. */
  function Next(last: nat, end: nat, q: Want): nat {
    var m := StartOf(last, q);
    if Room(m, end, q.size) then m + q.size else last
  }

  /** Every piece the block gives out ends inside the block. */
  predicate StaysInside(last: nat, end: nat, qs: seq<Want>)
    decreases |qs|
  {
    qs == []
    || (var m := StartOf(last, qs[0]);
        (Room(m, end, qs[0].size) ==> m + qs[0].size <= end) && StaysInside(Next(last, end, qs[0]), end, qs[1..]))
  }

  /** The largest small request of a pool. */
  function MaxOf(psize: nat): nat
    requires POOL <= psize
  {
    if psize - POOL < MAX_FROM_POOL then psize - POOL else MAX_FROM_POOL
  }

  predicate AllSmall(qs: seq<Want>, max: nat) { forall i :: 0 <= i < |qs| ==> qs[i].size <= max }

  /** The first block of a pool keeps every run of small requests inside if and only if its size
      is a multiple of the alignment. */
  lemma InsideIff(base: nat, psize: nat)
    requires base % POOL_ALIGNMENT == 0 && POOL <= psize && base + psize < WORD
    ensures (forall qs :: AllSmall(qs, MaxOf(psize)) ==> StaysInside(base + POOL, base + psize, qs)) <==> psize % ALIGNMENT == 0
  {
    if psize % ALIGNMENT == 0 {
      forall qs | AllSmall(qs, MaxOf(psize)) ensures StaysInside(base + POOL, base + psize, qs) {
        AlignedStays(base, psize, base + POOL, qs);
      }
    } else {
      var qs := Filling(psize - POOL, MaxOf(psize)) + [Want(1, true)];
      FillingSmall(psize - POOL, MaxOf(psize));
      FillingFills(base + POOL, base + psize, MaxOf(psize), [Want(1, true)]);
      BehindEnd(base, psize);
      assert AllSmall(qs, MaxOf(psize)) && !StaysInside(base + POOL, base + psize, qs);
    }
  }

  lemma {:induction false} AlignedStays(base: nat, psize: nat, last: nat, qs: seq<Want>)
    requires base % POOL_ALIGNMENT == 0 && psize % ALIGNMENT == 0 && last <= base + psize < WORD && AllSmall(qs, MAX_FROM_POOL)
    ensures StaysInside(last, base + psize, qs)
    decreases |qs|
  {
    if qs != [] {
      hide Room, Align;
      assert qs[0].size <= MAX_FROM_POOL;
      Multiple(base);
      AlignedRoom(base, psize, last, qs[0].size);
      AlignedStays(base, psize, Next(last, base + psize, qs[0]), qs[1..]);
    }
  }

  lemma Multiple(a: nat)
    requires a % POOL_ALIGNMENT == 0
    ensures a % ALIGNMENT == 0
  {
    assert a == 8 * (2 * (a / 16));
  }

  /** Unaligned requests that take up `n` bytes. */
  function Filling(n: nat, max: nat): seq<Want>
    requires max > 0 || n == 0
    decreases n
  {
    if n == 0 then [] else if n <= max then [Want(n, false)] else [Want(max, false)] + Filling(n - max, max)
  }

  lemma {:induction false} FillingSmall(n: nat, max: nat)
    requires max > 0 || n == 0
    ensures AllSmall(Filling(n, max), max)
    decreases n
  {
    if n > max { FillingSmall(n - max, max); }
  }

  lemma {:induction false} FillingFills(last: nat, end: nat, max: nat, qs: seq<Want>)
    requires last <= end < WORD && (max > 0 || last == end)
    ensures StaysInside(last, end, Filling(end - last, max) + qs) <==> StaysInside(end, end, qs)
    decreases end - last
  {
    var n := end - last;
    assert U64(n) == n;
    if n == 0 {
      assert [] + qs == qs;
    } else {
      var size := if n <= max then n else max;
      var rest := if n <= max then qs else Filling(n - max, max) + qs;
      assert Filling(n, max) + qs == [Want(size, false)] + rest;
      FillStep(last, end, size, rest);
      if n > max { FillingFills(last + max, end, max, qs); }
    }
  }

  lemma FillStep(last: nat, end: nat, size: nat, rest: seq<Want>)
    requires last + size <= end < WORD
    ensures StaysInside(last, end, [Want(size, false)] + rest) <==> StaysInside(last + size, end, rest)
  {
    assert U64(end - last) == end - last;
    assert ([Want(size, false)] + rest)[1..] == rest;
  }

  /** One aligned byte of a full block whose end is not aligned. */
  lemma BehindEnd(base: nat, psize: nat)
    requires base % POOL_ALIGNMENT == 0 && psize % ALIGNMENT != 0 && base + psize < WORD
    ensures !StaysInside(base + psize, base + psize, [Want(1, true)])
  {
    var end := base + psize;
    Multiple(base);
    assert end % 8 != 0;
    var d := end - Align(end);
    assert -ALIGNMENT < d < 0;
    assert U64(d) == d + WORD;
  }

  /** ngx_create_pool(100), ngx_pnalloc(20) and ngx_palloc(1). */
  lemma RoomBehind()
    ensures AllSmall([Want(20, false), Want(1, true)], MaxOf(100)) && !StaysInside(0x1000 + POOL, 0x1000 + 100, [Want(20, false), Want(1, true)])
  {
    var qs := [Want(20, false), Want(1, true)];
    assert Next(0x1000 + POOL, 0x1000 + 100, qs[0]) == 0x1000 + 100;
    assert qs[1..] == [Want(1, true)];
    BehindEnd(0x1000, 100);
  }

  // ---- blocks ----------------------------------------------------------------------------------

  class Block {
    const base: nat
    var last: nat
    var end: nat
    var next: Block?
    var failed: nat

    constructor (b: nat, l: nat, e: nat)
      ensures base == b && last == l && end == e && next == null && failed == 0
    {
      base, last, end, next, failed := b, l, e, null, 0;
    }
  }

  class Large {
    var alloc: nat
    var next: Large?
    ghost var size: nat

    constructor (p: nat, ghost s: nat, n: Large?)
      ensures alloc == p && size == s && next == n
    {
      alloc, size, next := p, s, n;
    }
  }

  function BlockAt(bs: seq<Block>, i: nat): Block? { if i < |bs| then bs[i] else null }

  function LargeAt(ls: seq<Large>, i: nat): Large? { if i < |ls| then ls[i] else null }

  ghost predicate Chained(bs: seq<Block>)
    reads bs`next
  {
    && Distinct(bs)
    && forall i :: 0 <= i < |bs| ==> NextOk(bs, i)
  }

  ghost predicate NextOk(bs: seq<Block>, i: nat)
    requires i < |bs|
    reads bs`next
  {
    bs[i].next == BlockAt(bs, i + 1)
  }

  /** Blocks of one size, aligned, in disjoint memory, and used between header and end. */
  ghost predicate Placed(bs: seq<Block>, psize: nat)
    reads bs`last, bs`end
  {
    && (forall i :: 0 <= i < |bs| ==>
          && bs[i].base > 0 && bs[i].base % POOL_ALIGNMENT == 0 && bs[i].end == bs[i].base + psize < WORD
          && bs[i].base + Header(i) <= bs[i].last <= bs[i].end)
    && forall i, j :: 0 <= i < j < |bs| ==> Apart(bs[i].base, psize, bs[j].base, psize)
  }

  /** The first block carries the whole pool header. */
  function Header(i: nat): nat { if i == 0 then POOL else DATA }

  /** Blocks in front of `current` failed six times, the others at most five times, and never
      more often than one in front of them. */
  ghost predicate Failures(bs: seq<Block>, cur: nat)
    reads bs`failed
  {
    && cur < |bs| && (forall i :: 0 <= i < cur ==> bs[i].failed == 6) && (forall i :: cur <= i < |bs| ==> bs[i].failed <= 5)
    && forall i, j :: cur <= i < j < |bs| ==> bs[i].failed >= bs[j].failed
  }

  /** The pieces given out lie behind the header in front of `last`, and are pairwise disjoint. */
  ghost predicate Granted(bs: seq<Block>, gs: seq<Region>)
    reads bs`last
  {
    && (forall i :: 0 <= i < |gs| ==> InBlock(bs, gs[i]))
    && forall i, j :: 0 <= i < j < |gs| ==> Apart(gs[i].start, gs[i].size, gs[j].start, gs[j].size)
  }

  ghost predicate InBlock(bs: seq<Block>, g: Region)
    reads bs`last
  {
    g.k < |bs| && bs[g.k].base + Header(g.k) <= g.start && g.start + g.size <= bs[g.k].last
  }

  /** A piece behind everything given out in its block is apart from all others. */
  lemma NewApart(bs: seq<Block>, psize: nat, gs: seq<Region>, k: nat, m: nat, size: nat, i: nat)
    requires Placed(bs, psize) && Granted(bs, gs) && k < |bs| && bs[k].last <= m && m + size <= bs[k].end && i < |gs|
    ensures Apart(gs[i].start, gs[i].size, m, size)
  {
    var g := gs[i];
    assert InBlock(bs, g);
    if g.k != k {
      var a, b := if g.k < k then g.k else k, if g.k < k then k else g.k;
      assert Apart(bs[a].base, psize, bs[b].base, psize);
    }
  }

  /** Taking a piece behind `last` of its block. */
  twostate lemma Taken(new bs: seq<Block>, new psize: nat, new gs: seq<Region>, new g: Region)
    requires old(allocated(bs)) && old(Placed(bs, psize)) && old(Granted(bs, gs)) && Distinct(bs) && g.k < |bs|
    requires old(bs[g.k].last) <= g.start && g.start + g.size <= old(bs[g.k].end) && bs[g.k].last == g.start + g.size
    requires forall i :: 0 <= i < |bs| ==> bs[i].end == old(bs[i].end) && (i != g.k ==> bs[i].last == old(bs[i].last))
    requires forall i :: 0 <= i < |gs| ==> Apart(gs[i].start, gs[i].size, g.start, g.size)
    ensures Placed(bs, psize) && Granted(bs, gs + [g])
  {
    var hs := gs + [g];
    forall i | 0 <= i < |hs| ensures InBlock(bs, hs[i]) {
      if i < |gs| { assert old(InBlock(bs, gs[i])); }
    }
  }

  ghost predicate Distinct(bs: seq<Block>) { forall i, j :: 0 <= i < j < |bs| ==> bs[i] != bs[j] }

  /** A new block behind the others, with its first piece. */
  twostate lemma Placed2(new bs: seq<Block>, new psize: nat, new b: Block, new gs: seq<Region>, new g: Region)
    requires old(allocated(bs)) && old(allocated(b)) && old(Placed(bs, psize)) && old(Granted(bs, gs)) && bs != []
    requires forall i :: 0 <= i < |bs| ==> bs[i].last == old(bs[i].last) && bs[i].end == old(bs[i].end)
    requires b.base > 0 && b.base % POOL_ALIGNMENT == 0 && b.end == b.base + psize < WORD
    requires g.k == |bs| && g.start == b.base + DATA && b.last == g.start + g.size <= b.end
    requires AllOutside(b.base, psize, bs, psize)
    ensures Placed(bs + [b], psize) && Granted(bs + [b], gs + [g])
  {
    var bs', hs := bs + [b], gs + [g];
    forall i | 0 <= i < |hs| ensures InBlock(bs', hs[i]) {
      if i < |gs| { assert old(InBlock(bs, gs[i])); }
    }
    forall i, j | 0 <= i < j < |bs'| ensures Apart(bs'[i].base, psize, bs'[j].base, psize) {
      if j == |bs| { assert Outside(b.base, psize, bs[i].base, psize); }
    }
    forall i | 0 <= i < |gs| ensures Apart(gs[i].start, gs[i].size, g.start, g.size) {
      assert old(InBlock(bs, gs[i])) && Outside(b.base, psize, bs[gs[i].k].base, psize);
    }
  }

  // ---- the block that serves a request ----------------------------------------------------------

  /** How far the blocks are used, from which one on requests look, and where the blocks end. */
  datatype Fill = Fill(blocks: seq<Block>, cur: nat, lasts: seq<nat>, ends: seq<nat>) {
    predicate Whole() { |lasts| == |blocks| == |ends| }

    predicate HasRoom(k: nat, q: Want)
      requires Whole() && k < |blocks|
    {
      StartOf(lasts[k], q) + q.size <= ends[k]
    }

    /** `k` is the first block from `cur` on that has room; the number of blocks if none has. */
    ghost predicate First(k: nat, q: Want)
      requires Whole()
    {
      cur <= k <= |blocks| && (forall i :: cur <= i < k ==> !HasRoom(i, q)) && (k < |blocks| ==> HasRoom(k, q))
    }
  }

  lemma StartBehind(last: nat, q: Want)
    ensures last <= StartOf(last, q) && (q.align ==> StartOf(last, q) % ALIGNMENT == 0)
  {}

  ghost function Lasts(bs: seq<Block>): (s: seq<nat>)
    reads bs`last
    ensures |s| == |bs| && forall i :: 0 <= i < |bs| ==> s[i] == bs[i].last
  {
    if bs == [] then [] else [bs[0].last] + Lasts(bs[1..])
  }

  ghost function Ends(bs: seq<Block>): (s: seq<nat>)
    reads bs`end
    ensures |s| == |bs| && forall i :: 0 <= i < |bs| ==> s[i] == bs[i].end
  {
    if bs == [] then [] else [bs[0].end] + Ends(bs[1..])
  }

  // ---- large blocks ------------------------------------------------------------------------

  ghost predicate LargeChain(ls: seq<Large>)
    reads ls`next
  {
    && (forall i, j :: 0 <= i < j < |ls| ==> ls[i] != ls[j])
    && forall i :: 0 <= i < |ls| ==> LinkOk(ls, i)
  }

  ghost predicate LinkOk(ls: seq<Large>, i: nat)
    requires i < |ls|
    reads ls`next
  {
    ls[i].next == LargeAt(ls, i + 1)
  }

  /** Each live large block is on the list once, in memory of its own. */
  ghost predicate LiveApart(ls: seq<Large>)
    reads ls`alloc, ls`size
  {
    forall i, j :: 0 <= i < j < |ls| && ls[i].alloc != 0 && ls[j].alloc != 0 ==>
      ls[i].alloc != ls[j].alloc && Apart(ls[i].alloc, ls[i].size, ls[j].alloc, ls[j].size)
  }

  predicate Outside(a: nat, n: nat, base: nat, psize: nat) { Apart(a, n, base, psize) && !(base <= a < base + psize) }

  ghost predicate AllOutside(a: nat, n: nat, bs: seq<Block>, psize: nat) {
    forall k :: 0 <= k < |bs| ==> Outside(a, n, bs[k].base, psize)
  }

  ghost predicate LiveOutside(ls: seq<Large>, bs: seq<Block>, psize: nat)
    reads ls`alloc, ls`size
  {
    forall i :: 0 <= i < |ls| && ls[i].alloc != 0 ==> AllOutside(ls[i].alloc, ls[i].size, bs, psize)
  }

  /** The list of large blocks, beside the chain of blocks. */
  ghost predicate LargesOk(ls: seq<Large>, bs: seq<Block>, psize: nat)
    reads ls
  {
    LargeChain(ls) && LiveApart(ls) && LiveOutside(ls, bs, psize)
  }

  ghost function Allocs(ls: seq<Large>): (s: seq<nat>)
    reads ls`alloc
    ensures |s| == |ls| && forall i :: 0 <= i < |ls| ==> s[i] == ls[i].alloc
  {
    if ls == [] then [] else [ls[0].alloc] + Allocs(ls[1..])
  }

  /** None of the first `n` entries is free. */
  ghost predicate NoneFree(ls: seq<Large>, n: nat)
    reads ls`alloc
  {
    forall i :: 0 <= i < |ls| && i < n ==> ls[i].alloc != 0
  }

  /** The first free entry, among the first five. */
  ghost predicate FreeAt(ls: seq<Large>, i: nat)
    reads ls`alloc
  {
    i < |ls| && i < 5 && ls[i].alloc == 0 && NoneFree(ls, i)
  }

  lemma FreeNotNone(ls: seq<Large>, i: nat)
    requires FreeAt(ls, i)
    ensures i < |ls| && ls[i].alloc == 0 && !NoneFree(ls, 5)
  {}

  /** The large blocks that were given out and not freed. */
  ghost function Live(ls: seq<Large>): set<Extent>
    reads ls`alloc, ls`size
  {
    set i | 0 <= i < |ls| && ls[i].alloc != 0 :: Extent(ls[i].alloc, ls[i].size)
  }

  ghost function Starts(live: set<Extent>): set<nat> { set e | e in live :: e.start }

  /** What stays when the block at `p` is freed. */
  ghost function Except(live: set<Extent>, p: nat): set<Extent> { set e | e in live && e.start != p }

  /** The addresses, entry by entry. */
  lemma StartsAt(ls: seq<Large>, q: nat)
    ensures q in Starts(Live(ls)) <==> exists i :: 0 <= i < |ls| && ls[i].alloc != 0 && ls[i].alloc == q
  {
    if i :| 0 <= i < |ls| && ls[i].alloc != 0 && ls[i].alloc == q {
      var e := Extent(ls[i].alloc, ls[i].size);
      assert e in Live(ls) && e.start == q;
    }
  }

  /** Memory that no live large block has. */
  ghost predicate Unused(ls: seq<Large>, a: nat, n: nat)
    reads ls`alloc, ls`size
  {
    forall i :: 0 <= i < |ls| && ls[i].alloc != 0 ==>
      ls[i].alloc != a && Apart(ls[i].alloc, ls[i].size, a, n) && !(a <= ls[i].alloc < a + n)
  }

  lemma NextLarge(ls: seq<Large>, i: nat)
    requires LargeChain(ls) && i < |ls|
    ensures ls[i].next == LargeAt(ls, i + 1)
  {
    assert LinkOk(ls, i);
  }

  /** A free entry is used again. */
  twostate lemma EntryUsed(new ls: seq<Large>, new bs: seq<Block>, new psize: nat, new i: nat, new p: nat, new n: nat)
    requires old(allocated(ls)) && old(allocated(bs)) && i < |ls| && old(LargesOk(ls, bs, psize))
    requires old(ls[i].alloc) == 0 && p != 0 && ls[i].alloc == p && ls[i].size == n && ls[i].next == old(ls[i].next)
    requires old(Unused(ls, p, n)) && AllOutside(p, n, bs, psize)
    requires forall k :: 0 <= k < |ls| && k != i ==> unchanged(ls[k])
    ensures LargesOk(ls, bs, psize) && p !in old(Starts(Live(ls))) && Live(ls) == old(Live(ls)) + {Extent(p, n)}
  {
    forall k | 0 <= k < |ls| ensures LinkOk(ls, k) { assert old(LinkOk(ls, k)); }
    forall e | e in old(Live(ls)) + {Extent(p, n)} ensures e in Live(ls) {
      if e in old(Live(ls)) {
        var k :| 0 <= k < |ls| && old(ls[k].alloc) != 0 && old(Extent(ls[k].alloc, ls[k].size)) == e;
        assert Extent(ls[k].alloc, ls[k].size) == e;
      } else {
        assert Extent(ls[i].alloc, ls[i].size) == e;
      }
    }
  }

  /** A live entry is emptied. */
  twostate lemma EntryFreed(new ls: seq<Large>, new bs: seq<Block>, new psize: nat, new i: nat)
    requires old(allocated(ls)) && old(allocated(bs)) && i < |ls| && old(LargesOk(ls, bs, psize))
    requires ls[i].alloc == 0 && ls[i].next == old(ls[i].next)
    requires forall k :: 0 <= k < |ls| && k != i ==> unchanged(ls[k])
    ensures LargesOk(ls, bs, psize) && Live(ls) == Except(old(Live(ls)), old(ls[i].alloc))
  {
    forall k | 0 <= k < |ls| ensures LinkOk(ls, k) { assert old(LinkOk(ls, k)); }
    var p := old(ls[i].alloc);
    forall e | e in Except(old(Live(ls)), p) ensures e in Live(ls) {
      var k :| 0 <= k < |ls| && old(ls[k].alloc) != 0 && old(Extent(ls[k].alloc, ls[k].size)) == e;
      assert k != i && Extent(ls[k].alloc, ls[k].size) == e;
    }
    forall e | e in Live(ls) ensures e in Except(old(Live(ls)), p) {
      var k :| 0 <= k < |ls| && ls[k].alloc != 0 && Extent(ls[k].alloc, ls[k].size) == e;
      assert k != i && old(Extent(ls[k].alloc, ls[k].size)) == e && old(ls[k].alloc) != p;
    }
  }

  /** A new entry in front. */
  lemma EntryPushed(l: Large, ls: seq<Large>, bs: seq<Block>, psize: nat)
    requires LargesOk(ls, bs, psize) && l !in ls && l.alloc != 0 && l.next == LargeAt(ls, 0)
    requires Unused(ls, l.alloc, l.size) && AllOutside(l.alloc, l.size, bs, psize)
    ensures LargesOk([l] + ls, bs, psize) && l.alloc !in Starts(Live(ls)) && Live([l] + ls) == Live(ls) + {Extent(l.alloc, l.size)}
  {
    var ls' := [l] + ls;
    forall k | 0 <= k < |ls'| ensures LinkOk(ls', k) {
      if k > 0 { assert LinkOk(ls, k - 1); }
    }
    forall e | e in Live(ls) + {Extent(l.alloc, l.size)} ensures e in Live(ls') {
      if e in Live(ls) {
        var k :| 0 <= k < |ls| && ls[k].alloc != 0 && Extent(ls[k].alloc, ls[k].size) == e;
        assert Extent(ls'[k + 1].alloc, ls'[k + 1].size) == e;
      } else {
        assert Extent(ls'[0].alloc, ls'[0].size) == e;
      }
    }
  }

  // ---- the pool ------------------------------------------------------------------------------

  class Pool {
    const first: Block
    const max: nat
    var current: Block
    var large: Large?

    ghost const psize: nat
    ghost var blocks: seq<Block>
    ghost var cur: nat
    ghost var grants: seq<Region>
    ghost var larges: seq<Large>

    ghost function Repr(): set<object>
      reads this
    {
      {this} + (set b: object | b in blocks) + (set l: object | l in larges)
    }

    ghost predicate Valid()
      reads this, blocks, larges
    {
      && POOL <= psize && psize % ALIGNMENT == 0 && max == MaxOf(psize)
      && blocks != [] && blocks[0] == first && Chained(blocks) && Placed(blocks, psize) && Granted(blocks, grants)
      && cur < |blocks| && Failures(blocks, cur) && current == blocks[cur]
      && LargesOk(larges, blocks, psize) && large == LargeAt(larges, 0)
    }

    /** What the system allocator answers is no memory, or memory nobody has. */
    ghost predicate Fresh(a: nat, n: nat)
      reads this`blocks, this`larges, larges
    {
      a != 0 ==> a + n < WORD && AllOutside(a, n, blocks, psize) && Unused(larges, a, n)
    }

    /** ngx_create_pool, when the system gives the memory at `p`. */
    constructor (p: nat, size: nat)
      requires POOL <= size && size % ALIGNMENT == 0 && p > 0 && p % POOL_ALIGNMENT == 0 && p + size < WORD
      ensures Valid() && blocks == [first] && grants == [] && larges == [] && psize == size && first.base == p && fresh(first) && fresh(Repr())
      ensures max == MaxOf(size)
    {
      var b := new Block(p, p + POOL, p + size);
      first, current, large := b, b, null;
      max := MaxOf(size);
      psize, blocks, cur, grants, larges := size, [b], 0, [], [];
      new;
      OneBlock(b, size);
      NoLarges([b], size);
      hide Chained, Placed, Granted, Failures, LargesOk;
    }

    /** Takes the piece at `m` from block `k`. */
    method GiveOut(p: Block, m: nat, size: nat, ghost k: nat)
      requires Valid() && k < |blocks| && blocks[k] == p && p.last <= m && m + size <= p.end
      modifies p`last, this`grants
      ensures Valid() && grants == old(grants) + [Region(k, m, size)]
      ensures Lasts(blocks) == old(Lasts(blocks))[k := m + size]
    {
      hide Chained, LargesOk, Failures, Placed, Granted, Lasts;
      ghost var gs := grants;
      ChainedDistinct(blocks);
      forall i | 0 <= i < |gs| ensures Apart(gs[i].start, gs[i].size, m, size) {
        NewApart(blocks, psize, gs, k, m, size, i);
      }
      label before:
      p.last := m + size;
      grants := gs + [Region(k, m, size)];
      Taken@before(blocks, psize, gs, Region(k, m, size));
    }

    ghost function Filling(): (f: Fill)
      reads this`blocks, this`cur, blocks`last, blocks`end
      ensures f.Whole()
    {
      Fill(blocks, cur, Lasts(blocks), Ends(blocks))
    }

    /** The search of ngx_palloc_small: the first block from the current one on that has room. */
    method FindRoom(size: nat, align: bool) returns (p: Block?, m: nat, ghost k: nat)
      requires Valid() && size < psize
      ensures Filling().First(k, Want(size, align)) && p == BlockAt(blocks, k)
      ensures k < |blocks| ==> m == StartOf(blocks[k].last, Want(size, align)) > 0
    {
      hide Chained, Placed, Granted, LargesOk, Failures, Lasts, Ends, Align, Room;
      p, m := current, 0;
      k := cur;
      ghost var f, q := Filling(), Want(size, align);
      while p != null
        invariant cur <= k <= |blocks| && p == BlockAt(blocks, k) && forall i :: cur <= i < k ==> !f.HasRoom(i, q)
        decreases |blocks| - k
      {
        m := p.last;
        if align {
          m := Align(m);
        }
        RoomIn(k, size);
        if Room(m, p.end, size) {
          return;
        }
        p := p.next;
        k := k + 1;
      }
    }

    /** ngx_palloc_small. */
    method PallocSmall(size: nat, align: bool, answer: nat) returns (m: nat, ghost k: nat)
      requires Valid() && size + DATA <= psize && Fresh(answer, psize) && answer % POOL_ALIGNMENT == 0
      modifies this`current, this`cur, this`blocks, this`grants, blocks
      ensures Valid() && Chain(answer) && FirstFit(old(Filling()), m, k, Want(size, align), answer)
      ensures if m == 0 then answer == 0 && grants == old(grants) else grants == old(grants) + [Region(k, m, size)]
      ensures align ==> m % ALIGNMENT == 0
    {
      hide Valid, Lasts, Ends, Align, StartOf, AllOutside, Unused, Counted, Counts;
      var p;
      p, m, k := FindRoom(size, align);
      if p != null {
        StartBehind(p.last, Want(size, align));
        GiveOut(p, m, size, k);
        return;
      }
      m := PallocBlock(size, answer);
    }

    /** The piece is in the first block from the current one on that has room, right behind what
        was used, or aligned; only if no block has room a new one is asked for. */
    ghost predicate FirstFit(f: Fill, m: nat, k: nat, q: Want, answer: nat)
      requires f.Whole()
      reads this`blocks, this`cur, blocks`last
    {
      && f.First(k, q)
      && if k < |f.blocks| then
           m == StartOf(f.lasts[k], q) > 0 && blocks == f.blocks && cur == f.cur && Lasts(blocks) == f.lasts[k := m + q.size]
         else if answer == 0 then m == 0 && blocks == f.blocks && cur == f.cur && Lasts(blocks) == f.lasts
         else m == answer + DATA && NewBlock(f.blocks, answer) && Lasts(blocks) == f.lasts + [m + q.size]
    }

    ghost predicate NewBlock(bs: seq<Block>, answer: nat)
      reads this`blocks
    {
      |blocks| == |bs| + 1 && blocks[..|bs|] == bs && blocks[|bs|].base == answer
    }

    /** The chain is the old one, or has one new block behind it. */
    twostate predicate Chain(answer: nat)
      reads this`blocks
    {
      blocks == old(blocks) || (answer != 0 && NewBlock(old(blocks), answer) && fresh(blocks[|blocks| - 1]))
    }

    /** The pieces given out stay, and there is at most one more, for the entry of a large block. */
    twostate predicate Kept()
      reads this`grants
    {
      grants == old(grants) || exists k, m :: grants == old(grants) + [Region(k, m, LARGE)]
    }

    /** The list is the old one, or has one new entry in front. */
    twostate predicate List()
      reads this`larges
    {
      larges == old(larges) || (|larges| == |old(larges)| + 1 && larges[1..] == old(larges) && fresh(larges[0]))
    }

    /** Every block and every entry was there, or is new. */
    twostate predicate OldOrNew()
      reads this
    {
      && (forall i :: 0 <= i < |blocks| ==> blocks[i] in old(blocks) || fresh(blocks[i]))
      && (forall i :: 0 <= i < |larges| ==> larges[i] in old(larges) || fresh(larges[i]))
      && fresh(Repr() - old(Repr()))
    }

    twostate lemma OnlyNew(new answer: nat)
      requires Chain(answer) && List()
      ensures OldOrNew()
    {
      forall i | 0 <= i < |blocks| ensures blocks[i] in old(blocks) || fresh(blocks[i]) {
        assert i < |old(blocks)| ==> blocks[..|old(blocks)|][i] == blocks[i];
      }
      forall i | 0 <= i < |larges| ensures larges[i] in old(larges) || fresh(larges[i]) {
        assert i > 0 ==> larges[1..][i - 1] == larges[i];
      }
    }

    /** Memory of its own was asked for: on success the pool has one more large block of that
        size, and on failure nothing changed. */
    twostate predicate Larger(p: nat, size: nat, a: nat, answer: nat)
      reads this, larges
    {
      && Chain(answer) && Kept() && List()
      && (p == 0 ==> blocks == old(blocks) && grants == old(grants) && Live(larges) == old(Live(larges)) && (a == 0 || answer == 0))
      && (p != 0 ==> p == a && p !in old(Starts(Live(larges))) && Live(larges) == old(Live(larges)) + {Extent(p, size)})
    }

    lemma RoomIn(k: nat, size: nat)
      requires Valid() && k < |blocks| && size < psize
      ensures var b := blocks[k];
        (&& (Room(Align(b.last), b.end, size) <==> Align(b.last) + size <= b.end)
         && (Room(b.last, b.end, size) <==> b.last + size <= b.end))
      ensures blocks[k].next == BlockAt(blocks, k + 1) && blocks[k].last > 0
    {
      hide Granted, LargesOk, Failures, Room, Align, Chained;
      var b := blocks[k];
      NextOf(blocks, k);
      Sixteen(b.base);
      AlignedRoom(b.base, psize, b.last, size);
    }

    static lemma Sixteen(a: nat)
      requires a % POOL_ALIGNMENT == 0
      ensures a % ALIGNMENT == 0 && (a + DATA) % ALIGNMENT == 0 && Align(a + DATA) == a + DATA
    {
      assert a == 8 * (2 * (a / 16));
      assert (a + 32 + 7) / 8 == 2 * (a / 16) + 4;
    }

    /** ngx_palloc_block: a new block behind the last one; every block passed failed once more. */
    method PallocBlock(size: nat, answer: nat) returns (m: nat)
      requires Valid() && size + DATA <= psize && Fresh(answer, psize) && answer % POOL_ALIGNMENT == 0
      modifies this`current, this`cur, this`blocks, this`grants, blocks`failed, blocks`next
      ensures Valid() && Chain(answer) && m % ALIGNMENT == 0 && old(cur) <= cur
      ensures Counted(old(blocks), old(Counts(blocks)), old(cur), if m == 0 then old(cur) else |old(blocks)| - 1)
      ensures
        var k := |old(blocks)|;
        if answer == 0 then m == 0 && blocks == old(blocks) && cur == old(cur) && grants == old(grants) && Lasts(blocks) == old(Lasts(blocks))
        else
          && m == answer + DATA && NewBlock(old(blocks), answer) && grants == old(grants) + [Region(k, m, size)]
          && Lasts(blocks) == old(Lasts(blocks)) + [m + size]
    {
      hide Valid, AllOutside, Unused, Align, Counts, Counted, Lasts;
      NoneCounted(blocks, cur);
      PoolBlock();
      if answer == 0 {
        return 0;
      }
      var psize := first.end - first.base;
      Sixteen(answer);
      m := Align(answer + DATA);
      var b := new Block(answer, m + size, answer + psize);
      Append(b, m, size);
    }

    /** The new block is linked in, and its first piece is given out. */
    method Append(b: Block, ghost m: nat, ghost size: nat)
      requires Valid() && b !in blocks && b.next == null && b.failed == 0 && b.base > 0 && b.base % POOL_ALIGNMENT == 0
      requires Fresh(b.base, psize) && b.end == b.base + psize && m == b.base + DATA && b.last == m + size <= b.end
      modifies this`current, this`cur, this`blocks, this`grants, blocks`failed, blocks`next
      ensures Valid() && blocks == old(blocks) + [b] && grants == old(grants) + [Region(|old(blocks)|, m, size)]
      ensures Lasts(blocks) == old(Lasts(blocks)) + [b.last] && b.last == old(b.last)
      ensures Counted(old(blocks), old(Counts(blocks)), old(cur), |old(blocks)| - 1) && old(cur) <= cur
    {
      hide Chained, Placed, Granted, LargesOk, Failures, AllOutside, Unused, LargeAt, BlockAt, Distinct, Counts, Counted, Lasts;
      ghost var bs, g := blocks, Region(|blocks|, m, size);
      label before:
      LinkLast(b);
      Placed2@before(bs, psize, b, grants, g);
      LargesBeside(larges, bs, psize, b);
      grants := grants + [g];
    }

    lemma PoolBlock()
      requires Valid()
      ensures first.end == first.base + psize && cur < |blocks|
    {}

    /** The loop that looks for the last block. */
    method LinkLast(b: Block)
      requires Chained(blocks) && cur < |blocks| && current == blocks[cur] && Failures(blocks, cur)
      requires b !in blocks && b.next == null && b.failed == 0
      modifies this`current, this`cur, this`blocks, blocks`failed, blocks`next
      ensures blocks == old(blocks) + [b] && Chained(blocks) && cur < |blocks| && Failures(blocks, cur) && current == blocks[cur]
      ensures forall k :: 0 <= k < |old(blocks)| ==> blocks[k].last == old(blocks[k].last) && blocks[k].end == old(blocks[k].end)
      ensures Counted(old(blocks), old(Counts(blocks)), old(cur), |old(blocks)| - 1) && old(cur) <= cur
    {
      hide Placed, Granted, LargesOk, Chained, Failures, BlockAt, Counted, Counts;
      ghost var bs := blocks;
      ChainedDistinct(bs);
      var p := CountFailures();
      NextOf(bs, |bs| - 1);
      label before:
      p.next := b;
      blocks := bs + [b];
      NowLast@before(bs, b);
      StillFailures(bs, b, cur);
    }

    /** The loop counts a failure for every block from the current one to the last but one, and
        moves `current` behind those that failed six times. */
    method CountFailures() returns (p: Block)
      requires Chained(blocks) && cur < |blocks| && current == blocks[cur] && Failures(blocks, cur)
      modifies this`current, this`cur, blocks`failed
      ensures p == blocks[|blocks| - 1] && cur < |blocks| && current == blocks[cur] && Failures(blocks, cur)
      ensures Counted(blocks, old(Counts(blocks)), old(cur), |blocks| - 1) && old(cur) <= cur
    {
      hide Placed, Granted, LargesOk, Failures, Chained, Passed, Distinct, Counted, Counts, BlockAt;
      ghost var bs, was, c := blocks, Counts(blocks), cur;
      p := current;
      ghost var j := cur;
      ChainedDistinct(bs);
      NextOf(bs, j);
      StartPass(bs, cur);
      NoneCounted(bs, cur);
      while p.next != null
        invariant cur <= j < |bs| && p == bs[j] && current == bs[cur] && blocks == bs && p.next == BlockAt(bs, j + 1)
        invariant Chained(bs) && Passed(bs, cur, j) && Counted(bs, was, c, j) && c <= cur
        decreases |bs| - j
      {
        p := CountStep(p, bs, j, was, c);
        j := j + 1;
      }
      AtEnd(bs, j);
      AllPassed(bs, cur, j);
    }

    method CountStep(p: Block, ghost bs: seq<Block>, ghost j: nat, ghost was: seq<nat>, ghost c: nat) returns (n: Block)
      requires cur <= j < |bs| && p == bs[j] && current == bs[cur] && p.next != null && p.next == BlockAt(bs, j + 1)
      requires Chained(bs) && Passed(bs, cur, j) && Counted(bs, was, c, j) && c <= cur
      modifies this`current, this`cur, p`failed
      ensures c <= cur <= j + 1 < |bs| && n == bs[j + 1] && n.next == BlockAt(bs, j + 2) && current == bs[cur]
      ensures Passed(bs, cur, j + 1) && Counted(bs, was, c, j + 1)
    {
      hide Passed, Counted, Chained, BlockAt, Distinct;
      Inside(bs, j);
      NextOf(bs, j + 1);
      ChainedDistinct(bs);
      n := p.next;
      CountFailure(p, bs, j, was, c);
    }

    method CountFailure(p: Block, ghost bs: seq<Block>, ghost j: nat, ghost was: seq<nat>, ghost c: nat)
      requires cur <= j && j + 1 < |bs| && p == bs[j] && current == bs[cur] && p.next == bs[j + 1]
      requires Distinct(bs) && Passed(bs, cur, j) && Counted(bs, was, c, j) && c <= cur
      modifies this`current, this`cur, p`failed
      ensures c <= cur <= j + 1 && current == bs[cur] && Passed(bs, cur, j + 1) && Counted(bs, was, c, j + 1)
    {
      hide Passed, Counted;
      label before:
      ghost var cur0 := cur;
      if p.failed > 4 {
        current := p.next;
        cur := j + 1;
      }
      p.failed := p.failed + 1;
      PassMore@before(bs, cur0, j);
      CountMore@before(bs, was, c, j);
    }

    /** ngx_palloc_large: memory of its own, noted in one of the first five entries that is
        free, or else in a new entry in front. */
    method PallocLarge(size: nat, a: nat, answer: nat) returns (p: nat)
      requires Valid() && Fresh(a, size) && Fresh(answer, psize) && answer % POOL_ALIGNMENT == 0
      requires a != 0 && answer != 0 ==> Outside(a, size, answer, psize)
      modifies this`current, this`cur, this`blocks, this`grants, this`large, this`larges, blocks, larges
      ensures Valid() && Larger(p, size, a, answer)
      ensures a != 0 ==> if old(NoneFree(larges, 5)) then InFront(p, a, answer) else Again(p, a)
    {
      hide Valid, Unused, AllOutside, Live, Starts, Outside, NewBlock, NoneFree, FreeAt, FirstFit, Filling, Allocs;
      p := a;
      if p == 0 {
        return;
      }
      var l;
      ghost var i;
      l, i := FreeEntry();
      if l != null {
        FreeNotNone(larges, i);
        Reuse(l, p, size, i);
        return;
      }
      p := NewEntry(p, size, answer);
    }

    /** The end of ngx_palloc_large, and of ngx_pmemalign. */
    method NewEntry(a: nat, size: nat, answer: nat) returns (p: nat)
      requires Valid() && a != 0 && Fresh(a, size) && Fresh(answer, psize) && answer % POOL_ALIGNMENT == 0
      requires answer != 0 ==> Outside(a, size, answer, psize)
      modifies this`current, this`cur, this`blocks, this`grants, this`large, this`larges, blocks
      ensures Valid() && Larger(p, size, a, answer) && InFront(p, a, answer)
    {
      hide Valid, Unused, AllOutside, Live, Starts, Outside, NewBlock, FirstFit, Filling, Allocs;
      p := a;
      ghost var bs := blocks;
      var m;
      ghost var k;
      FitsLarge();
      m, k := PallocSmall(LARGE, true, answer);
      if m == 0 {
        return 0;
      }
      StillOutside(bs, a, size, answer);
      PushLarge(p, size);
      assert FirstFit(old(Filling()), m, k, Want(LARGE, true), answer);
    }

    /** The first free entry among the first five holds the memory now, the others what they held. */
    twostate predicate Again(p: nat, a: nat)
      reads this, larges
    {
      && p == a && blocks == old(blocks) && grants == old(grants) && larges == old(larges)
      && exists i: nat :: old(FreeAt(larges, i)) && Allocs(larges) == old(Allocs(larges))[i := a]
    }

    /** A small piece for a new entry was looked for; the entry is in front, and holds the memory. */
    twostate predicate InFront(p: nat, a: nat, answer: nat)
      reads this, blocks, larges
    {
      && (exists k: nat, m: nat :: FirstFit(old(Filling()), m, k, Want(LARGE, true), answer) && (m == 0 <==> p == 0))
      && if p == 0 then larges == old(larges) else p == a && Allocs(larges) == [a] + old(Allocs(larges))
    }

    /** A piece of a block was asked for: on success there is one more piece, and on failure
        nothing changed. */
    twostate predicate Smaller(p: nat, q: Want, k: nat, answer: nat)
      reads this, larges, blocks
    {
      && Chain(answer) && FirstFit(old(Filling()), p, k, q, answer) && larges == old(larges) && Live(larges) == old(Live(larges))
      && if p == 0 then answer == 0 && grants == old(grants) else grants == old(grants) + [Region(k, p, q.size)]
    }

    lemma FitsLarge()
      requires Valid()
      ensures LARGE + DATA <= psize
    {}

    lemma StillOutside(bs: seq<Block>, a: nat, n: nat, answer: nat)
      requires AllOutside(a, n, bs, psize) && (blocks == bs || (Outside(a, n, answer, psize) && NewBlock(bs, answer)))
      ensures AllOutside(a, n, blocks, psize)
    {
      forall k | 0 <= k < |blocks| ensures Outside(a, n, blocks[k].base, psize) {
        if k < |bs| && blocks != bs { assert blocks[..|bs|][k] == bs[k]; }
      }
    }

    /** The loop finds the first free entry among the first five. */
    method FreeEntry() returns (l: Large?, ghost i: nat)
      requires Valid()
      ensures if l == null then NoneFree(larges, 5) else FreeAt(larges, i) && i < |larges| && larges[i] == l
    {
      hide LiveApart, LiveOutside, Chained, Placed, Granted, Failures, LargeChain;
      l := large;
      var n := 0;
      i := 0;
      while l != null
        invariant l == LargeAt(larges, i) && n == i <= 4 && NoneFree(larges, i)
        decreases |larges| - i
      {
        if l.alloc == 0 {
          return;
        }
        if n > 3 {
          n := n + 1;
          break;
        }
        n := n + 1;
        NextLarge(larges, i);
        l := l.next;
        i := i + 1;
      }
      l := null;
    }

    method Reuse(l: Large, p: nat, size: nat, ghost i: nat)
      requires Valid() && i < |larges| && larges[i] == l && l.alloc == 0 && p != 0 && Fresh(p, size)
      modifies l`alloc, l`size
      ensures Allocs(larges) == old(Allocs(larges))[i := p]
      ensures Valid() && p !in old(Starts(Live(larges))) && Live(larges) == old(Live(larges)) + {Extent(p, size)}
    {
      hide LargesOk, Chained, Placed, Granted, Failures, AllOutside, Unused, Live, Allocs;
      DistinctEntries(larges, blocks, psize);
      label before:
      l.alloc := p;
      l.size := size;
      EntryUsed@before(larges, blocks, psize, i, p, size);
    }

    method PushLarge(p: nat, size: nat)
      requires Valid() && p != 0 && Fresh(p, size)
      modifies this`large, this`larges
      ensures List() && Allocs(larges) == [p] + old(Allocs(larges))
      ensures Valid() && p !in old(Starts(Live(larges))) && Live(larges) == old(Live(larges)) + {Extent(p, size)}
    {
      hide LargesOk, Chained, Placed, Granted, Failures, AllOutside, Unused, Live, Allocs;
      var l := new Large(p, size, large);
      EntryPushed(l, larges, blocks, psize);
      large := l;
      larges := [l] + larges;
    }

    /** ngx_palloc. */
    method Palloc(size: nat, a: nat, answer: nat) returns (p: nat, ghost k: nat)
      requires Valid() && Fresh(a, size) && Fresh(answer, psize) && answer % POOL_ALIGNMENT == 0
      requires a != 0 && answer != 0 ==> Outside(a, size, answer, psize)
      modifies this`current, this`cur, this`blocks, this`grants, this`large, this`larges, blocks, larges
      ensures Valid() && if size <= max then Smaller(p, Want(size, true), k, answer) && p % ALIGNMENT == 0 else Larger(p, size, a, answer)
      ensures size > max && a != 0 ==> if old(NoneFree(larges, 5)) then InFront(p, a, answer) else Again(p, a)
      ensures OldOrNew()
    {
      hide Valid, Unused, AllOutside, Live, Starts, Outside, NewBlock, FirstFit, InFront, Again, NoneFree, Filling;
      k := 0;
      if size <= max {
        FitsMax();
        p, k := PallocSmall(size, true, answer);
      } else {
        p := PallocLarge(size, a, answer);
      }
      OnlyNew(answer);
    }

    lemma FitsMax()
      requires Valid()
      ensures max + DATA <= psize
    {}

    /** ngx_pnalloc: the same without alignment of small pieces. */
    method Pnalloc(size: nat, a: nat, answer: nat) returns (p: nat, ghost k: nat)
      requires Valid() && Fresh(a, size) && Fresh(answer, psize) && answer % POOL_ALIGNMENT == 0
      requires a != 0 && answer != 0 ==> Outside(a, size, answer, psize)
      modifies this`current, this`cur, this`blocks, this`grants, this`large, this`larges, blocks, larges
      ensures Valid() && if size <= max then Smaller(p, Want(size, false), k, answer) else Larger(p, size, a, answer)
      ensures size > max && a != 0 ==> if old(NoneFree(larges, 5)) then InFront(p, a, answer) else Again(p, a)
      ensures OldOrNew()
    {
      hide Valid, Unused, AllOutside, Live, Starts, Outside, NewBlock, FirstFit, InFront, Again, NoneFree, Filling;
      k := 0;
      if size <= max {
        FitsMax();
        p, k := PallocSmall(size, false, answer);
      } else {
        p := PallocLarge(size, a, answer);
      }
      OnlyNew(answer);
    }

    /** ngx_pmemalign: aligned memory of its own, always in a new entry. */
    method Pmemalign(size: nat, alignment: nat, a: nat, answer: nat) returns (p: nat)
      requires Valid() && Fresh(a, size) && Fresh(answer, psize) && answer % POOL_ALIGNMENT == 0
      requires alignment > 0 && a % alignment == 0 && (a != 0 && answer != 0 ==> Outside(a, size, answer, psize))
      modifies this`current, this`cur, this`blocks, this`grants, this`large, this`larges, blocks
      ensures Valid() && p % alignment == 0 && Larger(p, size, a, answer) && (a != 0 ==> InFront(p, a, answer))
      ensures OldOrNew()
    {
      hide Valid, Unused, AllOutside, Live, Starts, Outside, NewBlock;
      if a == 0 {
        return 0;
      }
      p := NewEntry(a, size, answer);
      OnlyNew(answer);
    }

    /** Frees every live large block: the addresses in the order of the calls. */
    method FreeLarges() returns (freed: seq<nat>)
      requires Valid()
      ensures Once(freed) && (forall q :: q in freed <==> q in Starts(Live(larges)))
    {
      hide Chained, Placed, Granted, Failures, LargesOk, Live;
      freed := [];
      var l := large;
      ghost var i := 0;
      DistinctEntries(larges, blocks, psize);
      NoneFreed(larges);
      while l != null
        invariant l == LargeAt(larges, i) && i <= |larges| && Freed(freed, larges, i)
        decreases |larges| - i
      {
        FreeStep(freed, larges, blocks, psize, i);
        if l.alloc != 0 {
          freed := freed + [l.alloc];
        }
        NextLarge(larges, i);
        l := l.next;
        i := i + 1;
      }
      AllFreed(freed, larges, i);
    }

    /** ngx_reset_pool: all large blocks are freed, each once, and all blocks are empty: their
        first piece will lie behind a pool header. */
    method Reset() returns (freed: seq<nat>)
      requires Valid()
      modifies this`current, this`cur, this`grants, this`large, this`larges, blocks`last, blocks`failed
      ensures Valid() && grants == [] && larges == [] && blocks == old(blocks) && cur == 0 && Empty(blocks, |blocks|)
      ensures Once(freed) && (forall q :: q in freed <==> q in old(Starts(Live(larges))))
    {
      hide Valid, Live, Starts, Once;
      freed := FreeLarges();
      Rewind();
    }

    /** The rest of ngx_reset_pool. */
    method Rewind()
      requires Valid()
      modifies this`current, this`cur, this`grants, this`large, this`larges, blocks`last, blocks`failed
      ensures Valid() && grants == [] && larges == [] && blocks == old(blocks) && cur == 0 && Empty(blocks, |blocks|)
    {
      hide Chained, Placed, Granted, Failures, LargesOk, Empty;
      ResetBlocks();
      current := first;
      cur := 0;
      grants := [];
      large := null;
      larges := [];
      NoLarges(blocks, psize);
    }

    method ResetBlocks()
      requires Valid()
      modifies blocks`last, blocks`failed
      ensures Placed(blocks, psize) && Granted(blocks, []) && Failures(blocks, 0) && Empty(blocks, |blocks|)
    {
      hide Placed, Granted, Failures, LargesOk, Chained, Empty;
      var p: Block? := first;
      ghost var i := 0;
      ChainedDistinct(blocks);
      StartEmpty(blocks);
      while p != null
        invariant p == BlockAt(blocks, i) && i <= |blocks| && Empty(blocks, i) && Chained(blocks)
        decreases |blocks| - i
      {
        NextOf(blocks, i);
        label before:
        p.last := p.base + POOL;
        p.failed := 0;
        EmptyMore@before(blocks, i);
        p := p.next;
        i := i + 1;
      }
      Emptied(blocks, psize);
    }

    /** ngx_destroy_pool without the cleanup handlers: every live large block and every block
        of the chain is freed, each once. */
    method Destroy() returns (freed: seq<nat>)
      requires Valid()
      ensures Once(freed)
      ensures forall q :: q in freed <==> q in Starts(Live(larges)) || exists k :: 0 <= k < |blocks| && blocks[k].base == q
    {
      hide Placed, Granted, Failures, LargesOk, Chained, Live;
      freed := FreeLarges();
      ghost var large0, i := freed, 0;
      var p: Block := first;
      var n := first.next;
      NextOf(blocks, 0);
      NothingYet(large0, blocks, psize, larges);
      while true
        invariant i < |blocks| && p == blocks[i] && n == BlockAt(blocks, i + 1) && Released(freed, large0, blocks, i)
        decreases |blocks| - i
      {
        ReleaseStep(freed, large0, blocks, psize, larges, i);
        freed := freed + [p.base];
        i := i + 1;
        if n == null {
          break;
        }
        NextOf(blocks, i);
        p := n;
        n := n.next;
      }
      AllReleased(freed, large0, blocks);
    }

    /** What the pool gave out and did not take back is apart from one another. */
    lemma PiecesApart()
      requires Valid()
      ensures forall i, j :: 0 <= i < j < |grants| ==> Apart(grants[i].start, grants[i].size, grants[j].start, grants[j].size)
      ensures forall e, f :: e in Live(larges) && f in Live(larges) && e != f ==> Apart(e.start, e.size, f.start, f.size)
      ensures forall i, e :: 0 <= i < |grants| && e in Live(larges) ==> Apart(grants[i].start, grants[i].size, e.start, e.size)
    {
      hide Chained, Failures, LargeChain;
      forall e, f | e in Live(larges) && f in Live(larges) && e != f ensures Apart(e.start, e.size, f.start, f.size) {
        var i :| 0 <= i < |larges| && larges[i].alloc != 0 && Extent(larges[i].alloc, larges[i].size) == e;
        var j :| 0 <= j < |larges| && larges[j].alloc != 0 && Extent(larges[j].alloc, larges[j].size) == f;
      }
      forall i, e | 0 <= i < |grants| && e in Live(larges) ensures Apart(grants[i].start, grants[i].size, e.start, e.size) {
        var j :| 0 <= j < |larges| && larges[j].alloc != 0 && Extent(larges[j].alloc, larges[j].size) == e;
        assert InBlock(blocks, grants[i]) && AllOutside(e.start, e.size, blocks, psize);
        assert Outside(e.start, e.size, blocks[grants[i].k].base, psize);
      }
    }

    /** ngx_pfree: the large block goes, its entry stays for reuse. */
    method Pfree(p: nat) returns (ok: bool)
      requires Valid()
      modifies larges`alloc
      ensures Valid() && Live(larges) == Except(old(Live(larges)), p)
      ensures p != 0 ==> (ok <==> p in old(Starts(Live(larges))))
    {
      hide Chained, Placed, Granted, Failures, LargesOk, Live;
      var l := large;
      ghost var i := 0;
      DistinctEntries(larges, blocks, psize);
      while l != null
        invariant l == LargeAt(larges, i) && i <= |larges|
        invariant forall k :: 0 <= k < i ==> larges[k].alloc != p
        decreases |larges| - i
        modifies {}
      {
        if p == l.alloc {
          break;
        }
        DistinctEntries(larges, blocks, psize);
        NextLarge(larges, i);
        l := l.next;
        i := i + 1;
      }
      ok := l != null;
      LiveIff(larges, i, p);
      if l != null {
        label before:
        l.alloc := 0;
        EntryFreed@before(larges, blocks, psize, i);
      }
    }
  }

  lemma DistinctEntries(ls: seq<Large>, bs: seq<Block>, psize: nat)
    requires LargesOk(ls, bs, psize)
    ensures LargeChain(ls) && forall i, j :: 0 <= i < j < |ls| ==> ls[i] != ls[j]
  {}

  /** Where the search for a large block stops. */
  lemma LiveIff(ls: seq<Large>, i: nat, p: nat)
    requires i <= |ls| && (forall k :: 0 <= k < i ==> ls[k].alloc != p) && (i < |ls| ==> ls[i].alloc == p)
    ensures i == |ls| ==> p !in Starts(Live(ls)) && Except(Live(ls), p) == Live(ls)
    ensures i < |ls| && p != 0 ==> p in Starts(Live(ls))
  {
    StartsAt(ls, p);
  }

  /** A new block outside the live large blocks. */
  lemma LargesBeside(ls: seq<Large>, bs: seq<Block>, psize: nat, b: Block)
    requires LargesOk(ls, bs, psize) && Unused(ls, b.base, psize)
    ensures LargesOk(ls, bs + [b], psize)
  {
    forall i | 0 <= i < |ls| && ls[i].alloc != 0 ensures AllOutside(ls[i].alloc, ls[i].size, bs + [b], psize) {
      assert AllOutside(ls[i].alloc, ls[i].size, bs, psize);
    }
  }

  /** The blocks from `cur` on, of which those in front of `j` failed once more. */
  ghost predicate Passed(bs: seq<Block>, cur: nat, j: nat)
    reads bs`failed
  {
    && cur <= j < |bs| && (forall i :: 0 <= i < cur ==> bs[i].failed == 6)
    && (forall i :: cur <= i < j ==> bs[i].failed <= 5) && (forall i :: j <= i < |bs| ==> bs[i].failed <= 5)
    && (forall i, k :: cur <= i < j <= k < |bs| ==> bs[i].failed > bs[k].failed)
    && (forall i, k :: cur <= i < k < j ==> bs[i].failed >= bs[k].failed)
    && (forall i, k :: j <= i < k < |bs| ==> bs[i].failed >= bs[k].failed)
  }

  lemma OneBlock(b: Block, psize: nat)
    requires b.base > 0 && b.base % POOL_ALIGNMENT == 0 && b.end == b.base + psize < WORD && POOL <= psize
    requires b.last == b.base + POOL && b.next == null && b.failed == 0
    ensures Chained([b]) && Placed([b], psize) && Granted([b], []) && Failures([b], 0)
  {
    assert NextOk([b], 0);
  }

  lemma ChainedDistinct(bs: seq<Block>)
    requires Chained(bs)
    ensures Distinct(bs)
  {}

  lemma NextOf(bs: seq<Block>, i: nat)
    requires Chained(bs) && i < |bs|
    ensures bs[i].next == BlockAt(bs, i + 1)
  {
    assert NextOk(bs, i);
  }

  lemma AtEnd(bs: seq<Block>, i: nat)
    requires i < |bs| && BlockAt(bs, i + 1) == null
    ensures i == |bs| - 1
  {}

  lemma Inside(bs: seq<Block>, i: nat)
    requires i < |bs| && BlockAt(bs, i + 1) != null
    ensures i + 1 < |bs| && BlockAt(bs, i + 1) == bs[i + 1]
  {}

  lemma StartPass(bs: seq<Block>, cur: nat)
    requires cur < |bs| && Failures(bs, cur)
    ensures Passed(bs, cur, cur)
  {}

  twostate lemma PassMore(new bs: seq<Block>, new cur: nat, new j: nat)
    requires old(allocated(bs)) && old(Passed(bs, cur, j)) && j + 1 < |bs| && Distinct(bs)
    requires bs[j].failed == old(bs[j].failed) + 1 && forall i :: 0 <= i < |bs| && i != j ==> bs[i].failed == old(bs[i].failed)
    ensures Passed(bs, if old(bs[j].failed) > 4 then j + 1 else cur, j + 1)
  {}

  ghost function Counts(bs: seq<Block>): (cs: seq<nat>)
    reads bs`failed
    ensures |cs| == |bs| && forall i :: 0 <= i < |bs| ==> cs[i] == bs[i].failed
  {
    if bs == [] then [] else [bs[0].failed] + Counts(bs[1..])
  }

  /** The blocks from `c` to `j` failed once more than `was` says, and the others as often. */
  ghost predicate Counted(bs: seq<Block>, was: seq<nat>, c: nat, j: nat)
    reads bs`failed
  {
    |was| == |bs| && forall i :: 0 <= i < |bs| ==> bs[i].failed == was[i] + if c <= i < j then 1 else 0
  }

  lemma NoneCounted(bs: seq<Block>, c: nat)
    ensures Counted(bs, Counts(bs), c, c)
  {}

  twostate lemma CountMore(new bs: seq<Block>, new was: seq<nat>, new c: nat, new j: nat)
    requires old(allocated(bs)) && old(Counted(bs, was, c, j)) && c <= j < |bs|
    requires bs[j].failed == old(bs[j].failed) + 1 && forall i :: 0 <= i < |bs| && i != j ==> bs[i].failed == old(bs[i].failed)
    ensures Counted(bs, was, c, j + 1)
  {}

  lemma AllPassed(bs: seq<Block>, cur: nat, j: nat)
    requires Passed(bs, cur, j) && j == |bs| - 1
    ensures Failures(bs, cur)
  {}

  twostate lemma NowLast(new bs: seq<Block>, new b: Block)
    requires old(allocated(bs)) && old(allocated(b)) && bs != [] && old(Chained(bs)) && b !in bs && old(b.next) == null
    requires bs[|bs| - 1].next == b && b.next == null && forall i :: 0 <= i < |bs| - 1 ==> bs[i].next == old(bs[i].next)
    ensures Chained(bs + [b])
  {
    var s := bs + [b];
    forall i | 0 <= i < |s| ensures NextOk(s, i) {
      if i < |bs| - 1 { assert old(NextOk(bs, i)); }
    }
  }

  lemma StillFailures(bs: seq<Block>, b: Block, cur: nat)
    requires Failures(bs, cur) && b.failed == 0
    ensures Failures(bs + [b], cur)
  {}

  // ---- freeing everything --------------------------------------------------------------------

  ghost predicate Once(s: seq<nat>) { forall i, j :: 0 <= i < j < |s| ==> s[i] != s[j] }

  /** The live blocks of the first `i` entries were freed. */
  ghost predicate Freed(freed: seq<nat>, ls: seq<Large>, i: nat)
    reads ls`alloc
  {
    && i <= |ls| && Once(freed)
    && forall q :: q in freed <==> exists k :: 0 <= k < i && ls[k].alloc != 0 && ls[k].alloc == q
  }

  lemma NoneFreed(ls: seq<Large>)
    ensures Freed([], ls, 0)
  {}

  lemma FreeStep(freed: seq<nat>, ls: seq<Large>, bs: seq<Block>, psize: nat, i: nat)
    requires Freed(freed, ls, i) && i < |ls| && LargesOk(ls, bs, psize)
    ensures Freed(if ls[i].alloc != 0 then freed + [ls[i].alloc] else freed, ls, i + 1)
  {
    var p := ls[i].alloc;
    if p != 0 {
      assert p !in freed;
    }
  }

  lemma AllFreed(freed: seq<nat>, ls: seq<Large>, i: nat)
    requires Freed(freed, ls, i) && i == |ls|
    ensures Once(freed) && forall q :: q in freed <==> q in Starts(Live(ls))
  {
    forall q ensures q in freed <==> q in Starts(Live(ls)) { StartsAt(ls, q); }
  }

  /** The first `i` blocks were reset. */
  ghost predicate Empty(bs: seq<Block>, i: nat)
    reads bs`last, bs`failed
  {
    i <= |bs| && forall k :: 0 <= k < i ==> bs[k].last == bs[k].base + POOL && bs[k].failed == 0
  }

  lemma StartEmpty(bs: seq<Block>)
    ensures Empty(bs, 0)
  {}

  twostate lemma EmptyMore(new bs: seq<Block>, new i: nat)
    requires old(allocated(bs)) && old(Empty(bs, i)) && i < |bs| && bs[i].last == bs[i].base + POOL && bs[i].failed == 0
    requires Distinct(bs) && forall k :: 0 <= k < |bs| && k != i ==> bs[k].last == old(bs[k].last) && bs[k].failed == old(bs[k].failed)
    ensures Empty(bs, i + 1)
  {}

  lemma NoLarges(bs: seq<Block>, psize: nat)
    ensures LargesOk([], bs, psize)
  {}

  twostate lemma Emptied(new bs: seq<Block>, new psize: nat)
    requires old(allocated(bs)) && bs != [] && old(Placed(bs, psize)) && Empty(bs, |bs|) && POOL <= psize
    requires forall i :: 0 <= i < |bs| ==> bs[i].end == old(bs[i].end)
    ensures Placed(bs, psize) && Granted(bs, []) && Failures(bs, 0)
  {}

  /** After the large blocks, the first `i` blocks of the chain were freed. */
  ghost predicate Released(freed: seq<nat>, large0: seq<nat>, bs: seq<Block>, i: nat) {
    i <= |bs| && Once(freed) && forall q :: q in freed <==> q in large0 || exists k :: 0 <= k < i && bs[k].base == q
  }

  lemma NothingYet(large0: seq<nat>, bs: seq<Block>, psize: nat, ls: seq<Large>)
    requires Once(large0)
    ensures Released(large0, large0, bs, 0)
  {}

  lemma ReleaseStep(freed: seq<nat>, large0: seq<nat>, bs: seq<Block>, psize: nat, ls: seq<Large>, i: nat)
    requires Released(freed, large0, bs, i) && i < |bs| && Placed(bs, psize) && psize > 0 && LargesOk(ls, bs, psize)
    requires forall q :: q in large0 <==> q in Starts(Live(ls))
    ensures Released(freed + [bs[i].base], large0, bs, i + 1)
  {
    var b := bs[i].base;
    assert b !in large0 by { NotLive(ls, bs, psize, i); }
    forall k | 0 <= k < i ensures bs[k].base != b { assert Apart(bs[k].base, psize, b, psize); }
  }

  lemma NotLive(ls: seq<Large>, bs: seq<Block>, psize: nat, i: nat)
    requires LargesOk(ls, bs, psize) && i < |bs| && psize > 0
    ensures bs[i].base !in Starts(Live(ls))
  {
    StartsAt(ls, bs[i].base);
    forall k | 0 <= k < |ls| && ls[k].alloc != 0 ensures ls[k].alloc != bs[i].base {
      assert AllOutside(ls[k].alloc, ls[k].size, bs, psize) && Outside(ls[k].alloc, ls[k].size, bs[i].base, psize);
    }
  }

  lemma AllReleased(freed: seq<nat>, large0: seq<nat>, bs: seq<Block>)
    requires Released(freed, large0, bs, |bs|)
    ensures Once(freed) && forall q :: q in freed <==> q in large0 || exists k :: 0 <= k < |bs| && bs[k].base == q
  {}
}
