/** leetcode/459: a string is a repeated block exactly when the shift to its longest
    border divides its length. */
module RepeatedSubstring {
  /** The first `k` characters are also the last ones. */
  predicate Border(s: string, k: int) { 0 <= k < |s| && s[..k] == s[|s| - k..] }

  ghost predicate LongestBorder(s: string, k: int) {
    Border(s, k) && forall b :: Border(s, b) ==> b <= k
  }

  function Repeat(block: string, k: nat): string {
    if k == 0 then "" else block + Repeat(block, k - 1)
  }

  ghost predicate Repeated(s: string) {
    exists block, k: nat :: k >= 2 && s == Repeat(block, k)
  }

  // ---- the table of longest borders ------------------------------------------------

  lemma BorderByChars(s: string, k: int)
    requires 0 <= k < |s|
    ensures Border(s, k) <==> forall i :: 0 <= i < k ==> s[i] == s[|s| - k + i]
  {
    if Border(s, k) {
      forall i | 0 <= i < k ensures s[i] == s[|s| - k + i] { assert s[..k][i] == s[|s| - k..][i]; }
    }
  }

  /** Borders of a prefix that is one longer. */
  lemma BorderExtends(s: string, i: nat, k: nat)
    requires 0 < i < |s|
    ensures Border(s[..i + 1], k + 1) <==> Border(s[..i], k) && s[k] == s[i]
  {
    var a, b := s[..i], s[..i + 1];
    if k < i {
      BorderByChars(a, k);
      BorderByChars(b, k + 1);
      if Border(b, k + 1) {
        forall j | 0 <= j < k ensures a[j] == a[i - k + j] { assert b[j] == b[i - k + j]; }
        assert b[k] == b[i];
      }
    }
  }

  /** A border shorter than another border is a border of that one. */
  lemma BorderOfBorder(s: string, i: nat, j: nat, b: nat)
    requires i <= |s| && Border(s[..i], j) && b < j
    ensures Border(s[..i], b) <==> Border(s[..j], b)
  {
    var t, u := s[..i], s[..j];
    BorderByChars(t, j);
    BorderByChars(t, b);
    BorderByChars(u, b);
    forall k | 0 <= k < b ensures t[k] == t[i - b + k] <==> u[k] == u[j - b + k] {
      assert t[j - b + k] == t[i - j + (j - b + k)];
    }
    if Border(t, b) {
      forall k | 0 <= k < b ensures u[k] == u[j - b + k] { assert t[k] == t[i - b + k]; }
    }
    if Border(u, b) {
      forall k | 0 <= k < b ensures t[k] == t[i - b + k] { assert u[k] == u[j - b + k]; }
    }
  }

  /** The borders of the first `i` characters above `j` cannot be extended by `s[i]`. */
  ghost predicate NoneAbove(s: string, i: nat, j: int)
    requires i < |s|
  {
    forall b :: Border(s[..i], b) && b > j ==> s[b] != s[i]
  }

  /** Falling back to the next shorter border. */
  lemma FallBack(s: string, i: nat, j: nat, k: nat)
    requires 0 < i < |s| && 0 < j && Border(s[..i], j) && LongestBorder(s[..j], k)
    requires NoneAbove(s, i, j) && s[i] != s[j]
    ensures Border(s[..i], k) && NoneAbove(s, i, k)
  {
    BorderOfBorder(s, i, j, k);
    forall b | Border(s[..i], b) && b > k ensures s[b] != s[i] {
      if b < j { BorderOfBorder(s, i, j, b); }
    }
  }

  lemma Settled(s: string, i: nat, j: nat)
    requires 0 < i < |s| && Border(s[..i], j) && NoneAbove(s, i, j) && (j == 0 || s[i] == s[j])
    ensures LongestBorder(s[..i + 1], if s[i] == s[j] then j + 1 else 0)
  {
    var r := if s[i] == s[j] then j + 1 else 0;
    BorderExtends(s, i, j);
    assert Border(s[..i + 1], 0);
    var t := s[..i + 1];
    forall b | Border(t, b) ensures b <= r {
      if b > 0 {
        BorderExtends(s, i, b - 1);
      }
    }
  }

  /** `v` is the entry of the table at `m`. */
  ghost predicate Entry(s: string, m: nat, v: nat)
    requires m < |s|
  {
    LongestBorder(s[..m + 1], v)
  }

  /** The loop over `next`. */
  method Borders(s: string) returns (next: array<nat>)
    requires s != ""
    ensures next.Length == |s| && forall m :: 0 <= m < |s| ==> Entry(s, m, next[m])
  {
    next := new nat[|s|](_ => 0);
    assert Border(s[..1], 0) && Entry(s, 0, 0);
    for i := 1 to |s|
      invariant forall m :: 0 <= m < i ==> Entry(s, m, next[m])
      invariant forall m :: i <= m < |s| ==> next[m] == 0
    {
      var j := next[i - 1];
      assert Entry(s, i - 1, j);
      assert s[..i - 1 + 1] == s[..i];
      assert Border(s[..i], j) && NoneAbove(s, i, j);
      while j > 0 && s[i] != s[j]
        invariant 0 <= j < i && Border(s[..i], j) && NoneAbove(s, i, j)
        modifies {}
        decreases j
      {
        assert Entry(s, j - 1, next[j - 1]) && s[..j - 1 + 1] == s[..j];
        FallBack(s, i, j, next[j - 1]);
        j := next[j - 1];
      }
      Settled(s, i, j);
      if s[i] == s[j] {
        j := j + 1;
        next[i] := j;
      }
      assert Entry(s, i, next[i]);
    }
  }

  // ---- periods -----------------------------------------------------------------------

  predicate Period(s: string, p: int) {
    0 < p <= |s| && forall i :: 0 <= i && i + p < |s| ==> s[i] == s[i + p]
  }

  /** A border and the shift to it. */
  lemma BorderIsPeriod(s: string, k: int)
    requires 0 <= k < |s|
    ensures Border(s, k) <==> Period(s, |s| - k)
  {
    BorderByChars(s, k);
    if Period(s, |s| - k) {
      forall i | 0 <= i < k ensures s[i] == s[|s| - k + i] { assert s[i] == s[i + (|s| - k)]; }
    }
  }

  /** Two periods that together fit into the string: their difference is a period. */
  lemma PeriodDifference(s: string, p: int, d: int)
    requires Period(s, p) && Period(s, d) && p < d && p + d <= |s|
    ensures Period(s, d - p)
  {
    forall i | 0 <= i && i + (d - p) < |s| ensures s[i] == s[i + (d - p)] {
      if i + d < |s| {
        assert s[i] == s[i + d] && s[i + (d - p)] == s[i + (d - p) + p];
      } else {
        assert s[i - p] == s[i - p + p] && s[i - p] == s[i - p + d];
      }
    }
  }

  /** The theorem of Fine and Wilf, for the least period: it divides every other period
      that fits into the string together with it. */
  lemma {:induction false} LeastPeriodDivides(s: string, p: int, d: int) returns (q: nat)
    requires Period(s, p) && (forall q :: Period(s, q) ==> p <= q)
    requires Period(s, d) && p + d <= |s|
    ensures d == q * p
    decreases d
  {
    if d == p {
      q := 1;
    } else {
      PeriodDifference(s, p, d);
      q := LeastPeriodDivides(s, p, d - p);
      q := q + 1;
    }
  }

  lemma AtLeastZero(k: nat, p: int)
    requires p >= 0
    ensures k * p >= 0
  {}

  lemma Multiple(k: int, p: int)
    requires p >= 0
    ensures k >= 1 ==> k * p >= p
    ensures k <= 1 ==> k * p <= p
    ensures k <= -1 ==> k * p <= -p
  {
    if k >= 1 { AtLeastZero(k - 1, p); }
    if k <= 1 { AtLeastZero(1 - k, p); }
    if k <= -1 { AtLeastZero(-1 - k, p); }
  }

  lemma UniqueQuotient(p: int, q: int, e: int, r: int)
    requires p > 0 && q * p == e * p + r && 0 <= r < p
    ensures q == e && r == 0
  {
    assert (q - e) * p == r;
    Multiple(q - e, p);
  }

  lemma Remainder(x: int, p: int, q: int)
    requires p > 0 && x == q * p
    ensures x % p == 0 && x / p == q
  {
    var e, r := x / p, x % p;
    assert x == e * p + r;
    UniqueQuotient(p, q, e, r);
  }

  // ---- blocks ------------------------------------------------------------------------

  lemma {:induction false} RepeatHasPeriod(block: string, k: nat)
    ensures |Repeat(block, k)| == k * |block|
    ensures k > 0 && block != "" ==> Period(Repeat(block, k), |block|)
    decreases k
  {
    if k > 0 {
      RepeatHasPeriod(block, k - 1);
      var s, d := Repeat(block, k), |block|;
      assert |s| == d + (k - 1) * d == k * d;
      if block != "" {
        forall i | 0 <= i && i + d < |s| ensures s[i] == s[i + d] { Shifted(block, k, i); }
      }
    }
  }

  lemma {:induction false} Shifted(block: string, k: nat, i: nat)
    requires i + |block| < |Repeat(block, k)| && k > 0
    ensures Repeat(block, k)[i] == Repeat(block, k)[i + |block|]
    decreases k
  {
    var rest := Repeat(block, k - 1);
    assert Repeat(block, k)[i + |block|] == rest[i];
    if i >= |block| {
      Shifted(block, k - 1, i - |block|);
    } else {
      assert k - 1 > 0;
      assert rest == block + Repeat(block, k - 2);
    }
  }

  lemma {:induction false} PeriodIsRepeat(s: string, d: int, k: nat)
    requires d > 0 && |s| == k * d && (k > 0 ==> Period(s, d))
    ensures k > 0 ==> s == Repeat(s[..d], k)
    decreases k
  {
    if k == 1 {
      assert Repeat(s[..d], 0) == "";
      assert s == s[..d] + "";
    } else if k > 1 {
      var rest := s[d..];
      assert |rest| == (k - 1) * d;
      assert d * 1 <= (k - 1) * d;
      forall i | 0 <= i && i + d < |rest| ensures rest[i] == rest[i + d] { assert s[d + i] == s[d + i + d]; }
      PeriodIsRepeat(rest, d, k - 1);
      forall i | 0 <= i < d ensures rest[..d][i] == s[..d][i] { assert s[i] == s[i + d]; }
      assert rest[..d] == s[..d];
      assert s == s[..d] + rest;
    }
  }

  /** The test on the longest border decides whether the string is a repeated block. */
  lemma DivisibleIffRepeated(s: string, b: int)
    requires s != "" && LongestBorder(s, b)
    ensures b != 0 && |s| % (|s| - b) == 0 <==> Repeated(s)
  {
    var n, p := |s|, |s| - b;
    BorderIsPeriod(s, b);
    forall q | Period(s, q) ensures p <= q { BorderIsPeriod(s, n - q); }
    if b != 0 && n % p == 0 { WholeBlocks(s, p); }
    if Repeated(s) { DividedByLeast(s, p); }
  }

  lemma WholeBlocks(s: string, p: int)
    requires Period(s, p) && p < |s| && |s| % p == 0
    ensures Repeated(s)
  {
    var k := |s| / p;
    assert |s| == k * p;
    Multiple(k, p);
    PeriodIsRepeat(s, p, k);
  }

  lemma DividedByLeast(s: string, p: int)
    requires s != "" && Period(s, p) && (forall q :: Period(s, q) ==> p <= q) && Repeated(s)
    ensures p < |s| && |s| % p == 0
  {
    var block, k: nat :| k >= 2 && s == Repeat(block, k);
    var d := |block|;
    RepeatHasPeriod(block, k);
    Multiple(k - 1, d);
    assert Period(s, d);
    var q := LeastPeriodDivides(s, p, d);
    assert |s| == k * (q * p) == (k * q) * p;
    Remainder(|s|, p, k * q);
  }

  /** repeatedSubstringPattern. */
  method RepeatedSubstringPattern(s: string) returns (r: bool)
    requires s != ""
    ensures r <==> Repeated(s)
  {
    var n := |s|;
    var next := Borders(s);
    assert Entry(s, n - 1, next[n - 1]) && s[..n - 1 + 1] == s;
    DivisibleIffRepeated(s, next[n - 1]);
    r := next[n - 1] != 0 && n % (n - next[n - 1]) == 0;
  }
}
