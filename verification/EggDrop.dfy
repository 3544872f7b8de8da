/** leetcode/887: the counting table and the minimax recursion give the same answer. */
module EggDrop {
  function Max(a: int, b: int): int { if a >= b then a else b }

  function Min(a: int, b: int): int { if a <= b then a else b }

  /** The recursion dp: fewest moves that settle `n` floors with `k` eggs in the worst case. */
  function Worst(k: nat, n: nat): (w: nat)
    requires k >= 1
    decreases n, k, n + 1
  {
    if k == 1 then n
    else if n == 0 then 0
    else Best(k, n, 1)
  }

  /** The best first drop among the floors from `i` on. */
  function Best(k: nat, n: nat, i: nat): (w: nat)
    requires k >= 2 && 1 <= i <= n
    decreases n, k, n - i + 1
  {
    var w := Drop(k, n, i);
    if i == n then w else Min(w, Best(k, n, i + 1))
  }

  /** Dropping from floor `i`: the egg survives or breaks. */
  function Drop(k: nat, n: nat, i: nat): (w: nat)
    requires k >= 2 && 1 <= i <= n
    decreases n, k, 0
  {
    Max(Worst(k, n - i), Worst(k - 1, i - 1)) + 1
  }

  /** The table: the most floors that `m` moves settle with `k` eggs. */
  function Floors(k: nat, m: nat): nat {
    if k == 0 || m == 0 then 0 else Floors(k, m - 1) + Floors(k - 1, m - 1) + 1
  }

  // ---- duality ---------------------------------------------------------------------------

  lemma {:induction false} BestIs(k: nat, n: nat, i: nat)
    requires k >= 2 && 1 <= i <= n
    ensures exists j :: i <= j <= n && Best(k, n, i) == Drop(k, n, j)
    ensures forall j :: i <= j <= n ==> Best(k, n, i) <= Drop(k, n, j)
    decreases n - i
  {
    assert Best(k, n, i) <= Drop(k, n, i);
    if i < n { BestIs(k, n, i + 1); }
  }

  lemma {:induction false} OneEgg(m: nat)
    ensures Floors(1, m) == m
    decreases m
  {
    if m > 0 {
      OneEgg(m - 1);
      assert Floors(0, m - 1) == 0;
    }
  }

  /** `m` moves are enough for `n` floors exactly when the table says so. */
  lemma {:induction false} Duality(k: nat, n: nat, m: nat)
    requires k >= 1
    ensures Worst(k, n) <= m <==> n <= Floors(k, m)
    decreases m, k
  {
    if k == 1 {
      OneEgg(m);
    } else if n > 0 {
      BestIs(k, n, 1);
      if m == 0 {
        assert Worst(k, n) >= 1;
      } else {
        var a, b := Floors(k, m - 1), Floors(k - 1, m - 1);
        if n <= a + b + 1 {
          var i := Min(b + 1, n);
          Duality(k, n - i, m - 1);
          Duality(k - 1, i - 1, m - 1);
          assert Drop(k, n, i) <= m;
        }
        if Worst(k, n) <= m {
          var j :| 1 <= j <= n && Best(k, n, 1) == Drop(k, n, j);
          Duality(k, n - j, m - 1);
          Duality(k - 1, j - 1, m - 1);
        }
      }
    }
  }

  lemma {:induction false} EnoughMoves(k: nat, m: nat)
    requires k >= 1
    ensures Floors(k, m) >= m
    decreases m
  {
    if m > 0 { EnoughMoves(k, m - 1); }
  }

  lemma {:induction false} MoreEggs(k: nat, k': nat, m: nat)
    requires k <= k'
    ensures Floors(k, m) <= Floors(k', m)
    decreases m
  {
    if k > 0 && m > 0 {
      MoreEggs(k, k', m - 1);
      MoreEggs(k - 1, k' - 1, m - 1);
    }
  }

  const INT_MAX: nat := 0x7fff_ffff

  /** Trying the floors from below one by one always works. */
  lemma {:induction false} AtMostFloors(k: nat, n: nat)
    requires k >= 1
    ensures Worst(k, n) <= n
  {
    EnoughMoves(k, n);
    Duality(k, n, n);
  }

  // ---- the two implementations ----------------------------------------------------------

  class Solver {
    var visited: map<(nat, nat), nat>

    constructor ()
      ensures visited == map[]
    {
      visited := map[];
    }

    ghost predicate Valid()
      reads this
    {
      forall p :: p in visited ==> p.0 >= 1 && visited[p] == Worst(p.0, p.1)
    }

    /** The recursion with its table of results. */
    method Dp(k: nat, n: nat) returns (res: nat)
      requires k >= 1 && n < INT_MAX && Valid()
      modifies this
      ensures Valid() && res == Worst(k, n)
      decreases n, k
    {
      if k == 1 {
        return n;
      }
      if n == 0 {
        return 0;
      }
      if (k, n) in visited {
        return visited[(k, n)];
      }
      res := INT_MAX;
      for i := 1 to n + 1
        invariant Valid() && (i == 1 ==> res == INT_MAX)
        invariant forall j :: 1 <= j < i ==> res <= Drop(k, n, j)
        invariant i > 1 ==> exists j :: 1 <= j < i && res == Drop(k, n, j)
      {
        var a := Dp(k, n - i);
        var b := Dp(k - 1, i - 1);
        AtMostFloors(k, n - i);
        AtMostFloors(k - 1, i - 1);
        assert Max(a, b) + 1 == Drop(k, n, i);
        res := Min(res, Max(a, b) + 1);
      }
      BestIs(k, n, 1);
      visited := visited[(k, n) := res];
    }
  }

  /** The columns up to `m` are filled. */
  ghost predicate Filled(dp: array2<nat>, m: int)
    reads dp
  {
    forall i, j :: 0 <= i < dp.Length0 && 0 <= j <= m && j < dp.Length1 ==> dp[i, j] == Floors(i, j)
  }

  /** The row of zeros at the top of the later columns. */
  ghost predicate NoEggs(dp: array2<nat>)
    reads dp
  {
    dp.Length0 > 0 && forall j :: 0 <= j < dp.Length1 ==> dp[0, j] == 0
  }

  /** One column of the table. */
  method Column(dp: array2<nat>, k: nat, m: nat)
    requires dp.Length0 == k + 1 && 0 < m < dp.Length1 && Filled(dp, m - 1) && NoEggs(dp)
    modifies dp
    ensures Filled(dp, m) && NoEggs(dp)
  {
    for i := 1 to k + 1
      invariant Filled(dp, m - 1) && NoEggs(dp)
      invariant forall a :: 0 <= a < i ==> dp[a, m] == Floors(a, m)
    {
      assert dp[i, m - 1] == Floors(i, m - 1) && dp[i - 1, m - 1] == Floors(i - 1, m - 1);
      dp[i, m] := dp[i, m - 1] + dp[i - 1, m - 1] + 1;
    }
  }

  /** superEggDrop: the columns of the table up to the first that covers all floors. */
  method SuperEggDrop(k: nat, n: nat) returns (res: nat)
    requires k >= 1
    ensures res == Worst(k, n)
  {
    var dp := new nat[k + 1, n + 1]((i, j) => 0);
    res := 0;
    while dp[k, res] < n
      invariant res <= n && Filled(dp, res) && NoEggs(dp) && dp[k, res] == Floors(k, res)
      invariant res > 0 ==> Floors(k, res - 1) < n
      decreases n - res
    {
      EnoughMoves(k, res);
      res := res + 1;
      Column(dp, k, res);
    }
    Duality(k, n, res);
    if res > 0 { Duality(k, n, res - 1); }
  }

  /** No entry of the next column exceeds twice the number of floors, for as long as the loop
      goes on: below 2^30 floors the table holds in an int. */
  lemma NoOverflow(k: nat, i: nat, m: nat, n: nat)
    requires 1 <= k && i <= k && Floors(k, m) < n
    ensures Floors(i, m + 1) < 2 * n
  {
    MoreEggs(i, k, m + 1);
    MoreEggs(k - 1, k, m);
  }
}
