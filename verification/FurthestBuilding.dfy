/** leetcode/1642: a ladder is given afterwards to the largest climb paid for in bricks. */
module FurthestBuilding {
  /** Building `i` can be reached: every climb costs its height in bricks, or a ladder. */
  predicate Reaches(heights: seq<int>, i: nat, bricks: int, ladders: int)
    requires i < |heights|
    decreases i
  {
    if i == 0 then bricks >= 0 && ladders >= 0
    else
      var delta := heights[i] - heights[i - 1];
      if delta <= 0 then Reaches(heights, i - 1, bricks, ladders)
      else Reaches(heights, i - 1, bricks - delta, ladders) || Reaches(heights, i - 1, bricks, ladders - 1)
  }

  /** The climbs on the way to building `i`. */
  function Climbs(heights: seq<int>, i: nat): multiset<int>
    requires i < |heights|
  {
    if i == 0 then multiset{}
    else
      var delta := heights[i] - heights[i - 1];
      Climbs(heights, i - 1) + if delta <= 0 then multiset{} else multiset{delta}
  }

  lemma {:induction false} MoreReaches(heights: seq<int>, i: nat, b: int, l: int, b': int, l': int)
    requires i < |heights| && b <= b' && l <= l' && Reaches(heights, i, b, l)
    ensures Reaches(heights, i, b', l')
    decreases i
  {
    if i > 0 {
      var delta := heights[i] - heights[i - 1];
      if delta <= 0 {
        MoreReaches(heights, i - 1, b, l, b', l');
      } else if Reaches(heights, i - 1, b - delta, l) {
        MoreReaches(heights, i - 1, b - delta, l, b' - delta, l');
      } else {
        MoreReaches(heights, i - 1, b, l - 1, b', l' - 1);
      }
    }
  }

  /** What is reached, all before it is reached too. */
  lemma {:induction false} ReachesBefore(heights: seq<int>, i: nat, j: nat, b: int, l: int)
    requires i <= j < |heights| && Reaches(heights, j, b, l)
    ensures Reaches(heights, i, b, l)
    decreases j
  {
    if i < j {
      var delta := heights[j] - heights[j - 1];
      if delta > 0 {
        if Reaches(heights, j - 1, b - delta, l) {
          MoreReaches(heights, j - 1, b - delta, l, b, l);
        } else {
          MoreReaches(heights, j - 1, b, l - 1, b, l);
        }
      }
      ReachesBefore(heights, i, j - 1, b, l);
    }
  }

  // ---- sums --------------------------------------------------------------------------

  ghost function Sum(m: multiset<int>): int {
    if m == multiset{} then 0 else NotEmpty(m); var x :| x in m; x + Sum(m - multiset{x})
  }

  lemma NotEmpty(m: multiset<int>)
    requires m != multiset{}
    ensures exists x :: x in m
  {
    assert (forall x: int :: m[x] == 0) ==> m == multiset{};
  }

  lemma {:induction false} SumWithout(m: multiset<int>, y: int)
    requires y in m
    ensures Sum(m) == y + Sum(m - multiset{y})
    decreases |m|
  {
    var x :| x in m && Sum(m) == x + Sum(m - multiset{x});
    if x != y {
      var a, b := m - multiset{x}, m - multiset{y};
      SumWithout(a, y);
      SumWithout(b, x);
      assert a - multiset{y} == b - multiset{x};
    }
  }

  lemma SumWith(m: multiset<int>, y: int)
    ensures Sum(m + multiset{y}) == Sum(m) + y
  {
    SumWithout(m + multiset{y}, y);
    assert m + multiset{y} - multiset{y} == m;
  }

  lemma {:induction false} SumOfBoth(a: multiset<int>, b: multiset<int>)
    ensures Sum(a + b) == Sum(a) + Sum(b)
    decreases |b|
  {
    if b == multiset{} {
      assert a + b == a;
    } else {
      NotEmpty(b);
      var x :| x in b;
      SumOfBoth(a, b - multiset{x});
      SumWith(a + (b - multiset{x}), x);
      SumWithout(b, x);
      assert a + (b - multiset{x}) + multiset{x} == a + b;
    }
  }

  // ---- the best choice of ladders ------------------------------------------------------

  ghost predicate Above(r: multiset<int>, p: multiset<int>) { forall x, y :: x in r && y in p ==> y <= x }

  ghost predicate Positive(m: multiset<int>) { forall x :: x in m ==> x > 0 }

  lemma {:induction false} Dominated(a: multiset<int>, b: multiset<int>)
    requires |b| <= |a| && Above(a, b) && Positive(a)
    ensures Sum(b) <= Sum(a)
    decreases |a|
  {
    if a != multiset{} {
      NotEmpty(a);
      var x :| x in a;
      SumWithout(a, x);
      if b == multiset{} {
        Dominated(a - multiset{x}, b);
      } else {
        NotEmpty(b);
        var y :| y in b;
        SumWithout(b, y);
        Dominated(a - multiset{x}, b - multiset{y});
      }
    }
  }

  /** Ladders on the largest climbs leave the least to be paid in bricks. */
  lemma LargestAreBest(p: multiset<int>, r: multiset<int>, p': multiset<int>, r': multiset<int>)
    requires p + r == p' + r' && |r'| <= |r| && Above(r, p) && Positive(r)
    ensures Sum(p) <= Sum(p')
  {
    var c := r * r';
    var a, b := r - c, r' - c;
    assert r == a + c && r' == b + c;
    forall x, y | x in a && y in b ensures y <= x {
      assert r'[y] > r[y] && (p + r)[y] == (p' + r')[y];
      assert y in p;
    }
    Dominated(a, b);
    SumOfBoth(a, c);
    SumOfBoth(b, c);
    SumOfBoth(p, r);
    SumOfBoth(p', r');
  }

  lemma TakeOut(p: multiset<int>, r: multiset<int>, m: multiset<int>, x: int)
    requires p + r == m + multiset{x}
    ensures x in p || x in r
    ensures x in p ==> (p - multiset{x}) + r == m
    ensures x in r ==> p + (r - multiset{x}) == m && |r - multiset{x}| == |r| - 1
  {
    assert x in p + r;
    if x in p { assert (p - multiset{x}) + r == p + r - multiset{x}; }
    if x in r { assert p + (r - multiset{x}) == p + r - multiset{x}; }
    assert m + multiset{x} - multiset{x} == m;
  }

  lemma PutIn(p: multiset<int>, r: multiset<int>, x: int)
    ensures (p + multiset{x}) + r == p + r + multiset{x} && p + (r + multiset{x}) == p + r + multiset{x}
  {}

  lemma LastClimb(heights: seq<int>, i: nat)
    requires 0 < i < |heights|
    ensures var delta := heights[i] - heights[i - 1];
      Climbs(heights, i) == if delta > 0 then Climbs(heights, i - 1) + multiset{delta} else Climbs(heights, i - 1)
  {
    assert Climbs(heights, i - 1) + multiset{} == Climbs(heights, i - 1);
  }

  /** A division of the climbs into bricks and ladders is a way to get there, and the other
      way round. */
  lemma {:induction false} DivisionReaches(heights: seq<int>, i: nat, p: multiset<int>, r: multiset<int>, b: int, l: int)
    requires i < |heights| && p + r == Climbs(heights, i) && Sum(p) <= b && |r| <= l
    ensures Reaches(heights, i, b, l)
    decreases i
  {
    hide Climbs, Sum;
    if i == 0 {
      NothingToDivide(heights, p, r);
    } else {
      var delta := heights[i] - heights[i - 1];
      LastClimb(heights, i);
      if delta <= 0 {
        DivisionReaches(heights, i - 1, p, r, b, l);
      } else {
        TakeOut(p, r, Climbs(heights, i - 1), delta);
        if delta in p {
          SumWithout(p, delta);
          DivisionReaches(heights, i - 1, p - multiset{delta}, r, b - delta, l);
        } else {
          DivisionReaches(heights, i - 1, p, r - multiset{delta}, b, l - 1);
        }
      }
    }
  }

  lemma NothingToDivide(heights: seq<int>, p: multiset<int>, r: multiset<int>)
    requires 0 < |heights| && p + r == Climbs(heights, 0)
    ensures Sum(p) == 0 && |r| == 0
  {
    assert p <= p + r && r <= p + r;
  }

  lemma {:induction false} ReachesDivision(heights: seq<int>, i: nat, b: int, l: int)
    returns (p: multiset<int>, r: multiset<int>)
    requires i < |heights| && Reaches(heights, i, b, l)
    ensures p + r == Climbs(heights, i) && Sum(p) <= b && |r| <= l
    decreases i
  {
    hide Climbs, Sum;
    if i == 0 {
      Base(heights, b, l);
      p, r := multiset{}, multiset{};
    } else {
      LastClimb(heights, i);
      var delta := heights[i] - heights[i - 1];
      if delta <= 0 {
        p, r := ReachesDivision(heights, i - 1, b, l);
      } else if Reaches(heights, i - 1, b - delta, l) {
        p, r := ReachesDivision(heights, i - 1, b - delta, l);
        SumWith(p, delta);
        PutIn(p, r, delta);
        p := p + multiset{delta};
      } else {
        p, r := ReachesDivision(heights, i - 1, b, l - 1);
        PutIn(p, r, delta);
        r := r + multiset{delta};
      }
    }
  }

  // ---- the loop ------------------------------------------------------------------------

  /** So far `p` is paid in bricks and `r` got ladders; every ladder would cost more than
      the bricks that are left. */
  ghost predicate Greedy(p: multiset<int>, r: multiset<int>, bricks: int) {
    && Sum(p) <= bricks && Positive(p) && Positive(r) && Above(r, p)
    && forall x :: x in r ==> bricks - Sum(p) < x
  }

  /** With all ladders gone and too few bricks for one more climb, no choice would do. */
  lemma Stuck(p: multiset<int>, r: multiset<int>, delta: int, bricks: int, p': multiset<int>, r': multiset<int>)
    requires Greedy(p, r, bricks) && delta > 0 && Sum(p) + delta > bricks
    requires p' + r' == p + r + multiset{delta} && |r'| <= |r|
    ensures Sum(p') > bricks
  {
    if forall x :: x in r ==> delta <= x {
      SumWith(p, delta);
      assert p + multiset{delta} + r == p' + r';
      LargestAreBest(p + multiset{delta}, r, p', r');
    } else {
      var x := Least(r);
      var p1, r1 := p + multiset{x}, r - multiset{x} + multiset{delta};
      SumWith(p, x);
      assert p1 + r1 == p' + r';
      LargestAreBest(p1, r1, p', r');
    }
  }

  lemma {:induction false} Least(m: multiset<int>) returns (x: int)
    requires m != multiset{}
    ensures x in m && forall y :: y in m ==> x <= y
    decreases |m|
  {
    NotEmpty(m);
    var w :| w in m;
    var rest := m - multiset{w};
    x := w;
    if rest != multiset{} {
      var z := Least(rest);
      x := if z < w then z else w;
    }
    forall y | y in m ensures x <= y {
      if y != w { assert y in rest; }
    }
  }

  /** The top of the priority queue. */
  method Top(p: multiset<int>) returns (top: int)
    requires p != multiset{}
    ensures top in p && forall y :: y in p ==> y <= top
  {
    NotEmpty(p);
    top :| top in p;
    var rest := p - multiset{top};
    while rest != multiset{}
      invariant rest <= p && top in p && forall y :: y in p ==> y <= top || y in rest
      decreases |rest|
    {
      NotEmpty(rest);
      var x :| x in rest;
      if x > top { top := x; }
      rest := rest - multiset{x};
    }
  }

  /** One climb: pay in bricks, and if they do not suffice give a ladder to the largest
      climb. Not `ok` when no ladder is left. */
  method Climb(p0: multiset<int>, sum0: int, ladders0: int, delta: int, bricks: int, ghost given0: multiset<int>)
    returns (ok: bool, p: multiset<int>, sum: int, ladders: int, ghost given: multiset<int>)
    requires Greedy(p0, given0, bricks) && sum0 == Sum(p0) && delta > 0 && ladders0 >= 0
    ensures ok ==>
      && Greedy(p, given, bricks) && sum == Sum(p) && p + given == p0 + given0 + multiset{delta}
      && ladders >= 0 && ladders + |given| == ladders0 + |given0|
    ensures !ok ==> ladders0 == 0 && Sum(p0) + delta > bricks
  {
    ok, ladders, given := true, ladders0, given0;
    SumWith(p0, delta);
    p := p0 + multiset{delta};
    sum := sum0 + delta;
    if sum > bricks {
      if ladders > 0 {
        ladders := ladders - 1;
        var top := Top(p);
        SumWithout(p, top);
        sum := sum - top;
        p := p - multiset{top};
        given := given + multiset{top};
        LadderKeeps(p0, given0, delta, top, bricks);
      } else {
        ok := false;
      }
    } else {
      BricksKeep(p0, given0, delta, bricks);
    }
  }

  lemma BricksKeep(p: multiset<int>, r: multiset<int>, delta: int, bricks: int)
    requires Greedy(p, r, bricks) && delta > 0 && Sum(p) + delta <= bricks
    ensures Greedy(p + multiset{delta}, r, bricks)
  {
    SumWith(p, delta);
  }

  lemma LadderKeeps(p: multiset<int>, r: multiset<int>, delta: int, top: int, bricks: int)
    requires Greedy(p, r, bricks) && delta > 0 && Sum(p) + delta > bricks
    requires top in p + multiset{delta} && forall y :: y in p + multiset{delta} ==> y <= top
    ensures Greedy(p + multiset{delta} - multiset{top}, r + multiset{top}, bricks)
  {
    hide Sum;
    SumWith(p, delta);
    SumWithout(p + multiset{delta}, top);
    assert top >= delta by { assert delta in p + multiset{delta}; }
    TopAbove(p, r, delta, top);
  }

  lemma TopAbove(p: multiset<int>, r: multiset<int>, delta: int, top: int)
    requires Above(r, p) && Positive(p) && Positive(r) && delta > 0
    requires top in p + multiset{delta} && forall y :: y in p + multiset{delta} ==> y <= top
    ensures var q, s := p + multiset{delta} - multiset{top}, r + multiset{top};
      Above(s, q) && Positive(q) && Positive(s) && (forall x :: x in s ==> x in r || x == top) && (top != delta ==> top in p)
  {
    var q := p + multiset{delta} - multiset{top};
    if top == delta { assert q == p; }
    forall x, y | x in r + multiset{top} && y in q ensures y <= x {
      assert y in p + multiset{delta};
      if x in r && y !in p { assert top in p && top <= x; }
    }
  }

  /** What the loop knows in front of building `i`. */
  ghost predicate State(heights: seq<int>, i: nat, p: multiset<int>, r: multiset<int>, bricks: int, all: int) {
    && 1 <= i <= |heights| && p + r == Climbs(heights, i - 1) && Greedy(p, r, bricks) && |r| <= all
    && Reaches(heights, i - 1, bricks, all)
  }

  lemma ClimbKeeps(heights: seq<int>, i: nat, p0: multiset<int>, r0: multiset<int>, p: multiset<int>, r: multiset<int>,
                   bricks: int, all: int)
    requires State(heights, i, p0, r0, bricks, all) && i < |heights| && heights[i] > heights[i - 1]
    requires Greedy(p, r, bricks) && p + r == p0 + r0 + multiset{heights[i] - heights[i - 1]} && |r| <= all
    ensures State(heights, i + 1, p, r, bricks, all)
  {
    hide Reaches, Climbs;
    LastClimb(heights, i);
    DivisionReaches(heights, i, p, r, bricks, all);
  }

  lemma FlatKeeps(heights: seq<int>, i: nat, p: multiset<int>, r: multiset<int>, bricks: int, all: int)
    requires State(heights, i, p, r, bricks, all) && i < |heights| && heights[i] <= heights[i - 1]
    ensures State(heights, i + 1, p, r, bricks, all)
  {
    LastClimb(heights, i);
  }

  lemma Conclude(heights: seq<int>, i: nat, bricks: int, all: int)
    requires 1 <= i <= |heights| && Reaches(heights, i - 1, bricks, all)
    requires i < |heights| ==> !Reaches(heights, i, bricks, all)
    ensures forall j :: 0 <= j < |heights| ==> (Reaches(heights, j, bricks, all) <==> j <= i - 1)
  {
    forall j | 0 <= j < |heights| ensures Reaches(heights, j, bricks, all) <==> j <= i - 1 {
      if j <= i - 1 { ReachesBefore(heights, j, i - 1, bricks, all); }
      else if Reaches(heights, j, bricks, all) { ReachesBefore(heights, i, j, bricks, all); }
    }
  }

  /** furthestBuilding: the last building that can be reached, for any use of the ladders. */
  method Furthest(heights: seq<int>, bricks: int, ladders0: int) returns (r: int)
    requires bricks >= 0 && ladders0 >= 0
    ensures heights == [] ==> r == -1
    ensures heights != [] ==>
      0 <= r < |heights| && forall j :: 0 <= j < |heights| ==> (Reaches(heights, j, bricks, ladders0) <==> j <= r)
  {
    hide *;
    if |heights| <= 0 {
      return -1;
    }
    var p: multiset<int> := multiset{};
    var sum, ladders := 0, ladders0;
    ghost var given: multiset<int> := multiset{};
    Base(heights, bricks, ladders0);
    var last := heights[0];
    var i := 1;
    while i < |heights|
      invariant 1 <= i <= |heights| && last == heights[i - 1] && State(heights, i, p, given, bricks, ladders0)
      invariant sum == Sum(p) && ladders >= 0 && ladders + |given| == ladders0
    {
      StateIs(heights, i, p, given, bricks, ladders0);
      var delta := heights[i] - last;
      last := heights[i];
      if delta <= 0 {
        FlatKeeps(heights, i, p, given, bricks, ladders0);
        i := i + 1;
        continue;
      }
      ghost var p0, given0 := p, given;
      var ok;
      ok, p, sum, ladders, given := Climb(p, sum, ladders, delta, bricks, given);
      if !ok {
        NotReached(heights, i, p0, given0, bricks, ladders0);
        Conclude(heights, i, bricks, ladders0);
        return i - 1;
      }
      ClimbKeeps(heights, i, p0, given0, p, given, bricks, ladders0);
      i := i + 1;
    }
    StateIs(heights, i, p, given, bricks, ladders0);
    Conclude(heights, i, bricks, ladders0);
    r := i - 1;
  }

  lemma StateIs(heights: seq<int>, i: nat, p: multiset<int>, r: multiset<int>, bricks: int, all: int)
    requires State(heights, i, p, r, bricks, all)
    ensures 1 <= i <= |heights| && p + r == Climbs(heights, i - 1) && Greedy(p, r, bricks)
    ensures Reaches(heights, i - 1, bricks, all)
  {}

  lemma Base(heights: seq<int>, b: int, l: int)
    requires heights != [] && b >= 0 && l >= 0
    ensures State(heights, 1, multiset{}, multiset{}, b, l) && Sum(multiset{}) == 0
  {}

  lemma NotReached(heights: seq<int>, i: nat, p: multiset<int>, r: multiset<int>, bricks: int, ladders: int)
    requires 0 < i < |heights| && heights[i] > heights[i - 1] && p + r == Climbs(heights, i - 1) && |r| == ladders
    requires Greedy(p, r, bricks) && Sum(p) + (heights[i] - heights[i - 1]) > bricks
    ensures !Reaches(heights, i, bricks, ladders)
  {
    if Reaches(heights, i, bricks, ladders) {
      var p', r' := ReachesDivision(heights, i, bricks, ladders);
      Stuck(p, r, heights[i] - heights[i - 1], bricks, p', r');
    }
  }
}
