/** leetcode/316: the greedy stack gives the lexicographically least subsequence that has
    each occurring letter exactly once. */
module RemoveDuplicateLetters {
  predicate Subsequence(u: string, s: string) {
    if u == "" then true
    else if s == "" then false
    else
      var s', u' := s[..|s| - 1], u[..|u| - 1];
      Subsequence(u, s') || (u[|u| - 1] == s[|s| - 1] && Subsequence(u', s'))
  }

  predicate Distinct(u: string) { forall i, j :: 0 <= i < j < |u| ==> u[i] != u[j] }

  /** A way to take each letter of `s` once. */
  ghost predicate Answer(s: string, u: string) {
    Subsequence(u, s) && Distinct(u) && forall c :: c in s ==> c in u
  }

  /** The strings differ, and at the first difference `a` has the smaller letter. */
  ghost predicate Less(a: string, b: string) {
    exists k :: 0 <= k < |a| && k < |b| && a[..k] == b[..k] && a[k] < b[k]
  }

  // ---- what the stack is the least of -------------------------------------------------

  /** A choice among the first `i` letters that can still be completed. */
  ghost predicate Candidate(s: string, i: nat, u: string)
    requires i <= |s|
  {
    Subsequence(u, s[..i]) && Distinct(u) && forall c :: c in s ==> c in u || c in s[i..]
  }

  /** Lexicographic order in which the end of a string counts as the largest letter. */
  ghost predicate Below(a: string, b: string) { b <= a || Less(a, b) }

  /** Where the stack falls, the larger letter does not come again. */
  ghost predicate Falls(s: string, i: nat, r: string)
    requires i <= |s|
  {
    forall j :: 0 <= j < |r| - 1 && r[j] > r[j + 1] ==> r[j] !in s[i..]
  }

  ghost predicate Least(s: string, i: nat, r: string)
    requires i <= |s|
  {
    Candidate(s, i, r) && Falls(s, i, r) && forall u :: Candidate(s, i, u) ==> Below(r, u)
  }

  lemma {:induction false} InSubsequence(u: string, s: string)
    requires Subsequence(u, s)
    ensures forall c :: c in u ==> c in s
    decreases |s|
  {
    if u != "" {
      var s' := s[..|s| - 1];
      if Subsequence(u, s') {
        InSubsequence(u, s');
      } else {
        InSubsequence(u[..|u| - 1], s');
        forall c | c in u ensures c in s {
          if c !in u[..|u| - 1] { assert c == u[|u| - 1]; }
        }
      }
    }
  }

  /** The subsequences of a prefix that is one letter longer. */
  lemma SubsequenceGrows(s: string, i: nat, u: string)
    requires i < |s|
    ensures Subsequence(u, s[..i + 1]) <==>
      Subsequence(u, s[..i]) || (u != "" && u[|u| - 1] == s[i] && Subsequence(u[..|u| - 1], s[..i]))
  {
    assert s[..i + 1][..i] == s[..i];
  }

  lemma {:induction false} SubsequencePrefix(u: string, s: string, m: nat)
    requires Subsequence(u, s) && m <= |u|
    ensures Subsequence(u[..m], s)
    decreases |s|, |u|
  {
    if m == |u| {
      assert u[..m] == u;
    } else if u != "" {
      var s', u' := s[..|s| - 1], u[..|u| - 1];
      if Subsequence(u, s') {
        SubsequencePrefix(u, s', m);
      } else {
        SubsequencePrefix(u', s', m);
        assert u'[..m] == u[..m];
      }
      if u[..m] != "" { assert Subsequence(u[..m], s'); }
    }
  }

  lemma Later(s: string, i: nat, c: char)
    requires i < |s|
    ensures c in s[i..] <==> c == s[i] || c in s[i + 1..]
  {
    assert s[i..] == [s[i]] + s[i + 1..];
  }

  /** Comparing after a difference, or at the end of a prefix. */
  lemma LessExtends(a: string, b: string, x: string, y: string)
    requires Less(a, b)
    ensures Less(a + x, b + y)
  {
    var k :| 0 <= k < |a| && k < |b| && a[..k] == b[..k] && a[k] < b[k];
    assert (a + x)[..k] == a[..k] && (b + y)[..k] == b[..k];
  }

  lemma LessAt(u: string, x: char, y: char, a: string, b: string)
    requires x < y
    ensures Less(u + [x] + a, u + [y] + b)
  {
    var k := |u|;
    assert (u + [x] + a)[..k] == u == (u + [y] + b)[..k];
  }

  /** Between a letter above `c` and a letter not above it the stack falls. */
  lemma {:induction false} FindFall(s: string, i: nat, r: string, j: nat, e: nat, c: char)
    requires i <= |s| && Falls(s, i, r) && j < e < |r| && r[j] > c && r[e] <= c
    ensures exists k :: j <= k < e && r[k] !in s[i..]
    decreases e - j
  {
    if r[j + 1] <= c {
      assert r[j] > r[j + 1];
    } else {
      FindFall(s, i, r, j + 1, e, c);
    }
  }

  // ---- a letter that is on the stack already ---------------------------------------------

  lemma SkipKeeps(s: string, i: nat, r: string)
    requires i < |s| && Least(s, i, r) && s[i] in r
    ensures Least(s, i + 1, r)
  {
    SubsequenceGrows(s, i, r);
    assert Candidate(s, i + 1, r) by { forall x | x in s ensures x in r || x in s[i + 1..] { Later(s, i, x); } }
    assert Falls(s, i + 1, r) by { forall x ensures x in s[i + 1..] ==> x in s[i..] { Later(s, i, x); } }
    forall u | Candidate(s, i + 1, u) ensures Below(r, u) {
      SkipBelow(s, i, r, u);
    }
  }

  lemma SkipBelow(s: string, i: nat, r: string, u: string)
    requires i < |s| && Least(s, i, r) && s[i] in r && Candidate(s, i + 1, u)
    ensures Below(r, u)
  {
    var c := s[i];
    SubsequenceGrows(s, i, u);
    if Subsequence(u, s[..i]) {
      Widen(s, i, u);
    } else {
      var v := u[..|u| - 1];
      assert u == v + [c];
      Shorten(s, i, v);
      if Less(r, v) {
        LessExtends(r, v, "", [c]);
        assert r + "" == r;
      } else {
        assert c !in v by { assert forall k :: 0 <= k < |v| ==> u[k] != u[|v|]; }
        var e :| 0 <= e < |r| && r[e] == c;
        assert forall x :: 0 <= x < |v| ==> r[x] == v[x];
        if r[|v|] < c {
          assert r == v + [r[|v|]] + r[|v| + 1..];
          LessAt(v, r[|v|], c, r[|v| + 1..], "");
          assert v + [c] + "" == u;
        } else if r[|v|] > c {
          FindFall(s, i, r, |v|, e, c);
          var k :| |v| <= k < e && r[k] !in s[i..];
          Missing(s, i, r, u, k);
        } else {
          assert r[..|v| + 1] == u;
        }
      }
    }
  }

  /** A letter of the stack behind a common prefix has to come again for a candidate that
      lacks it. */
  lemma Missing(s: string, i: nat, r: string, u: string, k: nat)
    requires i < |s| && Candidate(s, i, r) && Candidate(s, i + 1, u) && |u| - 1 <= k < |r| && u != ""
    requires u[..|u| - 1] == r[..|u| - 1] && r[k] != u[|u| - 1]
    ensures r[k] in s[i..]
  {
    var v := u[..|u| - 1];
    InSubsequence(r, s[..i]);
    assert r[k] in r && r[k] in s[..i];
    Later(s, i, r[k]);
    forall q | 0 <= q < |u| ensures u[q] != r[k] {
      if q < |u| - 1 { assert u[q] == v[q] == r[q]; }
    }
  }

  lemma Widen(s: string, i: nat, u: string)
    requires i < |s| && Subsequence(u, s[..i]) && Candidate(s, i + 1, u)
    ensures Candidate(s, i, u)
  {
    forall x | x in s ensures x in u || x in s[i..] { Later(s, i, x); }
  }

  lemma Shorten(s: string, i: nat, v: string)
    requires i < |s| && Subsequence(v, s[..i]) && Candidate(s, i + 1, v + [s[i]])
    ensures Candidate(s, i, v)
  {
    assert Distinct(v) by {
      forall a, b | 0 <= a < b < |v| ensures v[a] != v[b] { assert (v + [s[i]])[a] != (v + [s[i]])[b]; }
    }
    forall x | x in s ensures x in v || x in s[i..] { Later(s, i, x); }
  }

  // ---- a new letter ------------------------------------------------------------------------

  /** The first `m` letters stay, the others are larger than the new one and come again. */
  ghost predicate Popped(s: string, i: nat, r: string, m: nat)
    requires i < |s| && m <= |r|
  {
    && (forall k :: m <= k < |r| ==> r[k] > s[i] && r[k] in s[i + 1..])
    && (m > 0 ==> r[m - 1] < s[i] || r[m - 1] !in s[i + 1..])
  }

  lemma PushKeeps(s: string, i: nat, r: string, m: nat)
    requires i < |s| && Least(s, i, r) && s[i] !in r && m <= |r| && Popped(s, i, r, m)
    ensures Least(s, i + 1, r[..m] + [s[i]])
  {
    var c, r' := s[i], r[..m] + [s[i]];
    PushCandidate(s, i, r, m);
    forall u | Candidate(s, i + 1, u) ensures Below(r', u) {
      PushBelow(s, i, r, m, u);
    }
  }

  lemma PushCandidate(s: string, i: nat, r: string, m: nat)
    requires i < |s| && Least(s, i, r) && s[i] !in r && m <= |r| && Popped(s, i, r, m)
    ensures Candidate(s, i + 1, r[..m] + [s[i]]) && Falls(s, i + 1, r[..m] + [s[i]])
  {
    var r0, r' := r[..m], r[..m] + [s[i]];
    SubsequencePrefix(r, s[..i], m);
    assert r'[..|r'| - 1] == r0;
    SubsequenceGrows(s, i, r');
    forall x | x in s ensures x in r' || x in s[i + 1..] {
      Later(s, i, x);
      if x in r && x !in r0 {
        var k :| 0 <= k < |r| && r[k] == x;
        assert forall j :: 0 <= j < m ==> r0[j] == r[j];
      }
    }
    forall j | 0 <= j < |r'| - 1 && r'[j] > r'[j + 1] ensures r'[j] !in s[i + 1..] {
      Later(s, i, r'[j]);
      if j < m - 1 { assert r[j] > r[j + 1]; }
    }
  }

  lemma PushBelow(s: string, i: nat, r: string, m: nat, u: string)
    requires i < |s| && Least(s, i, r) && s[i] !in r && m <= |r| && Popped(s, i, r, m) && Candidate(s, i + 1, u)
    ensures Below(r[..m] + [s[i]], u)
  {
    var c, r0 := s[i], r[..m];
    SubsequenceGrows(s, i, u);
    if Subsequence(u, s[..i]) {
      Widen(s, i, u);
      PushOver(r, m, c, u);
    } else {
      var v := u[..|u| - 1];
      assert u == v + [c];
      Shorten(s, i, v);
      if v < r0 {
        assert r0[|v|] == r[|v|];
        PushShort(s, i, r, m, u);
      } else if v == r0 {
        assert u == r0 + [c];
      } else {
        PushOver(r, m, c, v);
        if Less(r0 + [c], v) {
          LessExtends(r0 + [c], v, "", [c]);
          assert r0 + [c] + "" == r0 + [c];
        }
      }
    }
  }

  /** The new stack is below everything the old one was below, if the letters popped are
      larger than the new one. */
  lemma PushOver(r: string, m: nat, c: char, u: string)
    requires Below(r, u) && m <= |r| && forall k :: m <= k < |r| ==> r[k] > c
    ensures Below(r[..m] + [c], u)
    ensures !(u <= r[..m]) ==> Less(r[..m] + [c], u)
  {
    var r0 := r[..m];
    if u <= r {
      if |u| <= m {
        assert u <= r0;
      } else {
        assert u == r0 + [u[m]] + u[m + 1..] && u[m] == r[m];
        LessAt(r0, c, u[m], "", u[m + 1..]);
        assert r0 + [c] + "" == r0 + [c];
      }
    } else {
      var k :| 0 <= k < |r| && k < |u| && r[..k] == u[..k] && r[k] < u[k];
      var x := if k < m then r[k] else c;
      var h := if k < m then k else m;
      assert r[..k][..h] == r[..h] && u[..k][..h] == u[..h];
      assert k > m ==> r[..k][m] == u[..k][m];
      assert (r0 + [c])[..h] == r[..h] && (r0 + [c])[h] == x && x < u[h];
    }
  }

  /** A candidate that takes the new letter earlier: it would miss a letter for good, or be
      larger. */
  lemma PushShort(s: string, i: nat, r: string, m: nat, u: string)
    requires i < |s| && Least(s, i, r) && s[i] !in r && m <= |r| && Popped(s, i, r, m) && Candidate(s, i + 1, u)
    requires u != "" && u[|u| - 1] == s[i] && |u| - 1 < m && u[..|u| - 1] == r[..|u| - 1]
    ensures Less(r[..m] + [s[i]], u)
  {
    var c, n, r0 := s[i], |u| - 1, r[..m];
    if r[n] < c {
      assert r0 + [c] == r[..n] + [r[n]] + (r[n + 1..m] + [c]);
      assert u == r[..n] + [c] + "";
      LessAt(r[..n], r[n], c, r[n + 1..m] + [c], "");
    } else {
      if r[m - 1] < c {
        FindFall(s, i, r, n, m - 1, c);
        var k :| n <= k < m - 1 && r[k] !in s[i..];
        Missing(s, i, r, u, k);
      } else {
        Missing(s, i, r, u, m - 1);
        Later(s, i, r[m - 1]);
      }
      assert false;
    }
  }

  // ---- the program ---------------------------------------------------------------------------

  predicate Letters(s: string) { forall i :: 0 <= i < |s| ==> 'a' <= s[i] <= 'z' }

  function Slot(c: char): nat
    requires 'a' <= c <= 'z'
  {
    c as int - 'a' as int
  }

  /** `counts` says how often each letter comes from position `i` on. */
  ghost predicate Counts(counts: array<nat>, s: string, i: nat)
    requires i <= |s|
    reads counts
  {
    counts.Length == 27 && forall c :: 'a' <= c <= 'z' ==> counts[Slot(c)] == multiset(s[i..])[c]
  }

  ghost predicate Flags(inresult: array<bool>, r: string)
    reads inresult
  {
    inresult.Length == 27 && forall c :: 'a' <= c <= 'z' ==> (inresult[Slot(c)] <==> c in r)
  }

  lemma CountNext(s: string, i: nat, c: char)
    requires i < |s|
    ensures multiset(s[i..])[c] == multiset(s[i + 1..])[c] + if c == s[i] then 1 else 0
  {
    assert s[i..] == [s[i]] + s[i + 1..];
  }

  /** The first loop. */
  method CountLetters(s: string) returns (counts: array<nat>)
    requires Letters(s)
    ensures fresh(counts) && Counts(counts, s, 0)
  {
    counts := new nat[27](_ => 0);
    assert s[..0] == "";
    for i := 0 to |s|
      invariant forall c :: 'a' <= c <= 'z' ==> counts[Slot(c)] == multiset(s[..i])[c]
    {
      assert s[..i + 1] == s[..i] + [s[i]];
      counts[Slot(s[i])] := counts[Slot(s[i])] + 1;
    }
    assert s[..|s|] == s && s[0..] == s;
  }

  /** The inner loop: takes larger letters that come again from the stack. */
  method Pop(s: string, i: nat, r0: string, counts: array<nat>, inresult: array<bool>) returns (r: string)
    requires i < |s| && Letters(s) && Letters(r0) && Distinct(r0) && s[i] !in r0
    requires Counts(counts, s, i + 1) && Flags(inresult, r0)
    modifies inresult
    ensures r <= r0 && Flags(inresult, r) && Popped(s, i, r0, |r|)
  {
    r := r0;
    while r != "" && r[|r| - 1] > s[i] && counts[Slot(r[|r| - 1])] > 0
      invariant r <= r0 && Flags(inresult, r)
      invariant forall k :: |r| <= k < |r0| ==> r0[k] > s[i] && r0[k] in s[i + 1..]
      decreases |r|
    {
      var last := r[|r| - 1];
      inresult[Slot(last)] := false;
      forall c | 'a' <= c <= 'z' ensures c in r[..|r| - 1] <==> c in r && c != last {
        if c in r && c != last {
          var k :| 0 <= k < |r| && r[k] == c;
          assert r[..|r| - 1][k] == c;
        }
      }
      r := r[..|r| - 1];
    }
    if r != "" {
      assert r[|r| - 1] == r0[|r| - 1];
      assert r0[|r| - 1] != s[i];
    }
  }

  /** One turn of the second loop. */
  method Take(s: string, i: nat, r: string, counts: array<nat>, inresult: array<bool>) returns (result: string)
    requires i < |s| && Letters(s) && Letters(r) && Least(s, i, r) && Counts(counts, s, i) && Flags(inresult, r)
    modifies counts, inresult
    ensures Letters(result) && Least(s, i + 1, result) && Counts(counts, s, i + 1) && Flags(inresult, result)
  {
    hide Least, Popped, Subsequence;
    var c := s[i];
    Uncount(counts, s, i);
    LeastDistinct(s, i, r);
    if inresult[Slot(c)] {
      SkipKeeps(s, i, r);
      result := r;
    } else {
      result := Pop(s, i, r, counts, inresult);
      PushKeeps(s, i, r, |result|);
      assert result == r[..|result|];
      result := result + [c];
      inresult[Slot(c)] := true;
    }
  }

  method Uncount(counts: array<nat>, s: string, i: nat)
    requires i < |s| && Letters(s) && Counts(counts, s, i)
    modifies counts
    ensures Counts(counts, s, i + 1)
  {
    forall x | 'a' <= x <= 'z' ensures multiset(s[i..])[x] == multiset(s[i + 1..])[x] + if x == s[i] then 1 else 0 {
      CountNext(s, i, x);
    }
    counts[Slot(s[i])] := counts[Slot(s[i])] - 1;
  }

  lemma LeastDistinct(s: string, i: nat, r: string)
    requires i <= |s| && Least(s, i, r)
    ensures Distinct(r)
  {}

  /** removeDuplicateLetters. */
  method Remove(s: string) returns (result: string)
    requires Letters(s)
    ensures Answer(s, result) && forall t :: Answer(s, t) && t != result ==> Less(result, t)
  {
    hide Least, Answer, Subsequence, Less;
    var counts := CountLetters(s);
    var inresult := new bool[27](_ => false);
    result := "";
    Empty(s);
    for i := 0 to |s|
      invariant Counts(counts, s, i) && Flags(inresult, result) && Least(s, i, result) && Letters(result)
    {
      result := Take(s, i, result, counts, inresult);
    }
    Whole(s, result);
  }

  lemma Empty(s: string)
    ensures Least(s, 0, "")
  {
    assert s[0..] == s;
    forall u | Candidate(s, 0, u) ensures Below("", u) { InSubsequence(u, s[..0]); }
  }

  lemma Whole(s: string, r: string)
    requires Least(s, |s|, r)
    ensures Answer(s, r) && forall t :: Answer(s, t) && t != r ==> Less(r, t)
  {
    assert s[..|s|] == s && s[|s|..] == "";
    forall t | Answer(s, t) && t != r ensures Less(r, t) {
      assert Candidate(s, |s|, t);
      InSubsequence(r, s);
      PrefixLacks(r, t);
    }
  }

  lemma PrefixLacks(r: string, t: string)
    requires Distinct(r)
    ensures t < r ==> r[|t|] in r && r[|t|] !in t
  {
    forall k | t < r && 0 <= k < |t| ensures t[k] != r[|t|] { assert t[k] == r[k]; }
  }
}
