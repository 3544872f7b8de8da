/** leetcode/179: sorting by the order of concatenations gives the largest number. */
module LargestNumber {
  import opened Decimals

  /** Nonempty digit strings. */
  predicate Text(s: string) { s != "" && AllDigits(s) }

  /** operator> of strings. */
  predicate Greater(a: string, b: string) {
    if a == "" then false
    else if b == "" then true
    else if a[0] != b[0] then a[0] > b[0]
    else Greater(a[1..], b[1..])
  }

  /** The comparator. */
  predicate Before(a: string, b: string) { Greater(a + b, b + a) }

  // ---- numbers ---------------------------------------------------------------------------

  lemma {:induction false} PowerPositive(k: nat)
    ensures Power10(k) >= 1 && (k > 0 ==> Power10(k) >= 10)
    decreases k
  {
    if k > 0 { PowerPositive(k - 1); }
  }

  lemma {:induction false} ValueOfBoth(a: string, b: string)
    requires AllDigits(a) && AllDigits(b)
    ensures AllDigits(a + b) && DigitsValue(a + b) == DigitsValue(a) * Power10(|b|) + DigitsValue(b)
    decreases |b|
  {
    if b == "" {
      assert a + b == a;
    } else {
      var b', d := b[..|b| - 1], b[|b| - 1] as int - '0' as int;
      ValueOfBoth(a, b');
      assert (a + b)[..|a + b| - 1] == a + b';
      assert IsDigit(b[|b| - 1]);
      TenTimes(DigitsValue(a), Power10(|b'|), DigitsValue(b'), d);
    }
  }

  lemma TenTimes(v: int, p: int, w: int, d: int)
    ensures (v * p + w) * 10 + d == v * (10 * p) + (w * 10 + d)
  {}

  lemma {:induction false} ValueBound(s: string)
    requires AllDigits(s)
    ensures DigitsValue(s) < Power10(|s|)
    decreases |s|
  {
    if s != "" {
      assert IsDigit(s[|s| - 1]);
      ValueBound(s[..|s| - 1]);
    }
  }

  /** Strings of one length compare like their numbers. */
  lemma {:induction false} GreaterIsValue(a: string, b: string)
    requires AllDigits(a) && AllDigits(b) && |a| == |b|
    ensures Greater(a, b) <==> DigitsValue(a) > DigitsValue(b)
    decreases |a|
  {
    if a != "" {
      var x, y, a', b' := a[0] as int - '0' as int, b[0] as int - '0' as int, a[1..], b[1..];
      assert a == [a[0]] + a' && b == [b[0]] + b';
      assert IsDigit(a[0]) && IsDigit(b[0]);
      ValueOfBoth([a[0]], a');
      ValueOfBoth([b[0]], b');
      OneDigit(a[0]);
      OneDigit(b[0]);
      ValueBound(a');
      ValueBound(b');
      GreaterIsValue(a', b');
      FirstDigitRules(x, y, DigitsValue(a'), DigitsValue(b'), Power10(|a'|));
    }
  }

  lemma OneDigit(c: char)
    requires IsDigit(c)
    ensures DigitsValue([c]) == c as int - '0' as int
  {
    assert [c][..0] == "";
  }

  lemma NotNegative(a: int, b: int)
    requires a >= 0 && b >= 0
    ensures a * b >= 0
  {}

  lemma FirstDigitRules(x: int, y: int, v: int, w: int, p: int)
    requires 0 <= v < p && 0 <= w < p
    ensures x > y ==> x * p + v > y * p + w
    ensures x < y ==> x * p + v < y * p + w
  {
    if x > y { assert x * p == y * p + p + (x - y - 1) * p; NotNegative(x - y - 1, p); }
    if x < y { assert y * p == x * p + p + (y - x - 1) * p; NotNegative(y - x - 1, p); }
  }

  /** One less than the power of ten of the length; not 0 for a text. */
  function Weight(s: string): int { Power10(|s|) - 1 }

  /** The comparator compares value and weight like fractions. */
  lemma BeforeIsRatio(a: string, b: string)
    requires Text(a) && Text(b)
    ensures Weight(a) > 0 && Weight(b) > 0
    ensures Before(a, b) <==> DigitsValue(a) * Weight(b) > DigitsValue(b) * Weight(a)
  {
    ValueOfBoth(a, b);
    ValueOfBoth(b, a);
    GreaterIsValue(a + b, b + a);
    PowerPositive(|a|);
    PowerPositive(|b|);
    Cross(DigitsValue(a), Power10(|a|), DigitsValue(b), Power10(|b|));
  }

  lemma Cross(v: int, p: int, w: int, q: int)
    ensures v * q + w > w * p + v <==> v * (q - 1) > w * (p - 1)
  {}

  lemma Fractions(v: int, p: int, w: int, q: int, u: int, r: int)
    requires p > 0 && q > 0 && r > 0 && v * q >= w * p && w * r >= u * q
    ensures v * r >= u * p
    ensures v * q > w * p || w * r > u * q ==> v * r > u * p
  {
    Scale(v * q, w * p, r);
    Scale(w * r, u * q, p);
    var x, y := v * r, u * p;
    assert v * q * r == x * q && w * p * r == w * r * p && u * q * p == y * q;
    if x < y { Scale(y, x, q); }
    if x == y { assert x * q == y * q; }
  }

  lemma Scale(a: int, b: int, k: int)
    requires k > 0 && a >= b
    ensures a * k >= b * k && (a > b ==> a * k > b * k)
  {
    assert (a - b) * k >= 0;
    if a > b { assert (a - b - 1) * k >= 0; }
  }

  /** The comparator is a strict weak order, as sorting demands. */
  lemma StrictWeakOrder(a: string, b: string, c: string)
    requires Text(a) && Text(b) && Text(c)
    ensures !Before(a, a) && !(Before(a, b) && Before(b, a))
    ensures Before(a, b) && Before(b, c) ==> Before(a, c)
    ensures !Before(a, b) && !Before(b, a) && !Before(b, c) && !Before(c, b) ==> !Before(a, c) && !Before(c, a)
    ensures !Before(b, a) && !Before(c, b) ==> !Before(c, a)
  {
    BeforeIsRatio(a, a);
    BeforeIsRatio(a, b);
    BeforeIsRatio(b, a);
    BeforeIsRatio(b, c);
    BeforeIsRatio(c, b);
    BeforeIsRatio(a, c);
    BeforeIsRatio(c, a);
    var v, p, w, q, u, r := DigitsValue(a), Weight(a), DigitsValue(b), Weight(b), DigitsValue(c), Weight(c);
    hide *;
    if v * q >= w * p && w * r >= u * q { Fractions(v, p, w, q, u, r); }
    if u * q >= w * r && w * p >= v * q { Fractions(u, r, w, q, v, p); }
  }

  // ---- the largest concatenation -----------------------------------------------------------

  function Concat(xs: seq<string>): string {
    if xs == [] then "" else xs[0] + Concat(xs[1..])
  }

  ghost predicate Texts(xs: seq<string>) { forall i :: 0 <= i < |xs| ==> Text(xs[i]) }

  ghost predicate Sorted(xs: seq<string>) { forall i, j :: 0 <= i < j < |xs| ==> !Before(xs[j], xs[i]) }

  lemma {:induction false} ConcatBoth(xs: seq<string>, ys: seq<string>)
    ensures Concat(xs + ys) == Concat(xs) + Concat(ys)
    decreases |xs|
  {
    if xs == [] {
      assert xs + ys == ys && "" + Concat(ys) == Concat(ys);
    } else {
      assert (xs + ys)[1..] == xs[1..] + ys;
      ConcatBoth(xs[1..], ys);
      assert xs[0] + (Concat(xs[1..]) + Concat(ys)) == (xs[0] + Concat(xs[1..])) + Concat(ys);
    }
  }

  lemma {:induction false} ConcatDigits(xs: seq<string>)
    requires Texts(xs)
    ensures AllDigits(Concat(xs))
    decreases |xs|
  {
    if xs != [] { ConcatDigits(xs[1..]); }
  }

  /** Not larger as numbers of the same length. */
  ghost predicate AtMost(a: string, b: string) {
    AllDigits(a) && AllDigits(b) && |a| == |b| && DigitsValue(a) <= DigitsValue(b)
  }

  lemma AtMostBehind(a: string, b: string, x: string)
    requires AtMost(a, b) && AllDigits(x)
    ensures AtMost(a + x, b + x)
  {
    ValueOfBoth(a, x);
    ValueOfBoth(b, x);
    PowerPositive(|x|);
    Scale(DigitsValue(b), DigitsValue(a), Power10(|x|));
  }

  lemma AtMostInFront(a: string, b: string, x: string)
    requires AtMost(a, b) && AllDigits(x)
    ensures AtMost(x + a, x + b)
  {
    ValueOfBoth(x, a);
    ValueOfBoth(x, b);
  }

  lemma AtMostThrough(a: string, b: string, c: string)
    requires AtMost(a, b) && AtMost(b, c)
    ensures AtMost(a, c)
  {}

  lemma NotBefore(x: string, y: string)
    requires Text(x) && Text(y) && !Before(y, x)
    ensures AtMost(y + x, x + y)
  {
    ValueOfBoth(x, y);
    ValueOfBoth(y, x);
    GreaterIsValue(y + x, x + y);
  }

  lemma Assoc(a: string, b: string, c: string)
    ensures (a + b) + c == a + (b + c)
  {}

  /** Moving a text in front of a concatenation of texts that are not before it. */
  lemma {:induction false} MoveFront(x: string, us: seq<string>)
    requires Text(x) && Texts(us) && forall i :: 0 <= i < |us| ==> !Before(us[i], x)
    ensures AtMost(Concat(us) + x, x + Concat(us))
    decreases |us|
  {
    if us == [] {
      assert x + "" == x && "" + x == x;
    } else {
      ConcatDigits(us[1..]);
      MoveFront(x, us[1..]);
      MoveOver(x, us[0], Concat(us[1..]));
    }
  }

  lemma MoveOver(x: string, y: string, rest: string)
    requires Text(x) && Text(y) && !Before(y, x) && AllDigits(rest) && AtMost(rest + x, x + rest)
    ensures AtMost((y + rest) + x, x + (y + rest))
  {
    hide AtMost, Before;
    AtMostInFront(rest + x, x + rest, y);
    Assoc(y, rest, x);
    NotBefore(x, y);
    AtMostBehind(y + x, x + y, rest);
    Assoc(y, x, rest);
    Assoc(x, y, rest);
    AtMostThrough((y + rest) + x, (y + x) + rest, (x + y) + rest);
  }

  /** Where the first text of a list is in a permutation of it. */
  lemma Find(x: string, xs: seq<string>, ys: seq<string>) returns (k: nat)
    requires xs != [] && xs[0] == x && multiset(xs) == multiset(ys)
    ensures k < |ys| && ys[k] == x && multiset(xs[1..]) == multiset(ys[..k] + ys[k + 1..])
  {
    assert x in multiset(ys) by { assert x in multiset(xs); }
    k :| 0 <= k < |ys| && ys[k] == x;
    assert xs == [x] + xs[1..];
    assert ys == ys[..k] + [x] + ys[k + 1..];
    assert multiset(xs) == multiset{x} + multiset(xs[1..]);
    assert multiset(ys) == multiset{x} + multiset(ys[..k] + ys[k + 1..]);
    assert multiset(xs) - multiset{x} == multiset(xs[1..]);
    assert multiset(ys) - multiset{x} == multiset(ys[..k] + ys[k + 1..]);
  }

  /** The sorted texts give the largest of all concatenations of the same texts. */
  lemma {:induction false} SortedIsLargest(xs: seq<string>, ys: seq<string>)
    requires Texts(xs) && Sorted(xs) && multiset(xs) == multiset(ys)
    ensures AtMost(Concat(ys), Concat(xs))
    decreases |xs|
  {
    if xs == [] {
      assert |multiset(ys)| == 0;
    } else {
      LargestStep(xs, ys);
    }
  }

  lemma LargestStep(xs: seq<string>, ys: seq<string>)
    requires Texts(xs) && Sorted(xs) && multiset(xs) == multiset(ys) && xs != []
    ensures AtMost(Concat(ys), Concat(xs))
    decreases |xs|, 0
  {
    hide AtMost, Before, Text;
    TextsOf(xs, ys);
    var x := xs[0];
    var k := Find(x, xs, ys);
    var us, vs := ys[..k], ys[k + 1..];
    SortedIsLargest(xs[1..], us + vs);
    forall i | 0 <= i < |us| ensures !Before(us[i], x) { FirstIsMost(xs, ys, i); }
    FrontIsLarger(x, us, vs);
    assert ys == us + [x] + vs;
    TextDigits(x);
    AtMostInFront(Concat(us + vs), Concat(xs[1..]), x);
    AtMostThrough(Concat(ys), x + Concat(us + vs), x + Concat(xs[1..]));
  }

  lemma TextDigits(x: string)
    requires Text(x)
    ensures AllDigits(x)
  {}

  lemma TextsOf(xs: seq<string>, ys: seq<string>)
    requires Texts(xs) && multiset(xs) == multiset(ys)
    ensures Texts(ys)
  {
    forall i | 0 <= i < |ys| ensures Text(ys[i]) {
      assert ys[i] in multiset(xs);
    }
  }

  lemma FirstIsMost(xs: seq<string>, ys: seq<string>, i: nat)
    requires Texts(xs) && Sorted(xs) && multiset(xs) == multiset(ys) && i < |ys| && xs != []
    ensures !Before(ys[i], xs[0])
  {
    assert ys[i] in multiset(xs);
    var j :| 0 <= j < |xs| && xs[j] == ys[i];
    if j == 0 { BeforeIsRatio(xs[0], xs[0]); }
  }

  lemma FrontIsLarger(x: string, us: seq<string>, vs: seq<string>)
    requires Text(x) && Texts(us) && Texts(vs) && forall i :: 0 <= i < |us| ==> !Before(us[i], x)
    ensures AtMost(Concat(us + [x] + vs), x + Concat(us + vs))
  {
    hide AtMost, Before, Concat;
    var u, v := Concat(us), Concat(vs);
    MoveFront(x, us);
    ConcatDigits(vs);
    ConcatBoth(us + [x], vs);
    ConcatBoth(us, [x]);
    ConcatBoth(us, vs);
    ConcatOne(x);
    AtMostBehind(u + x, x + u, v);
    Assoc(x, u, v);
  }

  lemma ConcatOne(x: string)
    ensures Concat([x]) == x
  {
    assert Concat([x]) == x + "";
  }

  // ---- the program ---------------------------------------------------------------------------

  /** Puts a text into its place in a sorted list. */
  method InsertText(xs: seq<string>, x: string) returns (r: seq<string>)
    requires Texts(xs) && Sorted(xs) && Text(x)
    ensures Texts(r) && Sorted(r) && multiset(r) == multiset(xs) + multiset{x}
  {
    hide Before;
    var k := |xs|;
    while k > 0 && Before(x, xs[k - 1])
      invariant 0 <= k <= |xs| && forall j :: k <= j < |xs| ==> Before(x, xs[j])
    {
      k := k - 1;
    }
    r := xs[..k] + [x] + xs[k..];
    assert xs == xs[..k] + xs[k..];
    InsertSorted(xs, x, k);
  }

  lemma InsertSorted(xs: seq<string>, x: string, k: nat)
    requires Texts(xs) && Sorted(xs) && Text(x) && k <= |xs|
    requires (forall j :: k <= j < |xs| ==> Before(x, xs[j])) && (k > 0 ==> !Before(x, xs[k - 1]))
    ensures Sorted(xs[..k] + [x] + xs[k..])
  {
    hide Before;
    var r := xs[..k] + [x] + xs[k..];
    forall i, j | 0 <= i < j < |r| ensures !Before(r[j], r[i]) {
      if i == k {
        StrictWeakOrder(x, xs[j - 1], x);
      } else if j == k {
        StrictWeakOrder(xs[i], xs[k - 1], x);
        StrictWeakOrder(xs[i], xs[i], xs[i]);
      } else {
        var i', j' := if i < k then i else i - 1, if j < k then j else j - 1;
        assert r[i] == xs[i'] && r[j] == xs[j'];
      }
    }
  }

  /** Stands for std::sort with the comparator. */
  method Sort(strs: seq<string>) returns (r: seq<string>)
    requires Texts(strs)
    ensures Texts(r) && Sorted(r) && multiset(r) == multiset(strs)
  {
    r := [];
    for i := 0 to |strs|
      invariant Texts(r) && Sorted(r) && multiset(r) == multiset(strs[..i])
    {
      r := InsertText(r, strs[i]);
      assert strs[..i + 1] == strs[..i] + [strs[i]];
    }
    assert strs[..|strs|] == strs;
  }

  /** The decimal texts of the numbers in some order. */
  function ToTexts(ns: seq<nat>): seq<string> { seq(|ns|, i requires 0 <= i < |ns| => Digits(ns[i])) }

  lemma TextsOfNumbers(ns: seq<nat>)
    ensures Texts(ToTexts(ns)) && AllDigits(Concat(ToTexts(ns)))
  {
    forall i | 0 <= i < |ns| ensures Text(ToTexts(ns)[i]) { DigitsAre(ns[i]); }
    ConcatDigits(ToTexts(ns));
  }

  /** A sorted list that starts with a zero holds zeros only. */
  lemma {:induction false} AllZeros(xs: seq<string>)
    requires Texts(xs) && xs != [] && (forall i :: 0 <= i < |xs| ==> xs[i] == "0")
    ensures AllDigits(Concat(xs)) && DigitsValue(Concat(xs)) == 0
    decreases |xs|
  {
    ConcatDigits(xs);
    OneDigit('0');
    if |xs| == 1 {
      assert xs[0] + "" == "0";
    } else {
      AllZeros(xs[1..]);
      ValueOfBoth("0", Concat(xs[1..]));
    }
  }

  lemma ZeroIsLast(x: string)
    requires Text(x) && !Before(x, "0")
    ensures DigitsValue(x) == 0
  {
    OneDigit('0');
    BeforeIsRatio(x, "0");
  }

  /** The last loop. */
  method Join(strs: seq<string>) returns (result: string)
    ensures result == Concat(strs)
  {
    result := "";
    for i := 0 to |strs|
      invariant result == Concat(strs[..i])
    {
      assert strs[..i + 1] == strs[..i] + [strs[i]];
      ConcatBoth(strs[..i], [strs[i]]);
      assert Concat([strs[i]]) == strs[i] + "" == strs[i];
      result := result + strs[i];
    }
    assert strs[..|strs|] == strs;
  }

  /** Texts as std::to_string writes them. */
  ghost predicate Plain(xs: seq<string>) { forall i :: 0 <= i < |xs| ==> Text(xs[i]) && (xs[i][0] == '0' ==> xs[i] == "0") }

  lemma PlainTexts(ns: seq<nat>)
    ensures Plain(ToTexts(ns))
  {
    forall i | 0 <= i < |ns| ensures Text(ToTexts(ns)[i]) && (ToTexts(ns)[i][0] == '0' ==> ToTexts(ns)[i] == "0") {
      DigitsAre(ns[i]);
      if ns[i] == 0 { assert Digits(0) == "0"; }
    }
  }

  lemma PlainPermuted(xs: seq<string>, ys: seq<string>)
    requires Plain(xs) && multiset(xs) == multiset(ys)
    ensures Plain(ys)
  {
    forall i | 0 <= i < |ys| ensures Text(ys[i]) && (ys[i][0] == '0' ==> ys[i] == "0") {
      assert ys[i] in multiset(xs);
    }
  }

  /** A leading zero means that there is nothing but zeros. */
  lemma LeadingZero(xs: seq<string>)
    requires Plain(xs) && Texts(xs) && Sorted(xs) && xs != []
    ensures Text(Concat(xs)) && (Concat(xs)[0] == '0' ==> DigitsValue(Concat(xs)) == 0)
  {
    ConcatDigits(xs);
    assert Concat(xs)[0] == xs[0][0];
    if xs[0][0] == '0' {
      forall i | 0 <= i < |xs| ensures xs[i] == "0" {
        if i > 0 {
          ZeroIsLast(xs[i]);
          NoValue(xs[i]);
        }
      }
      AllZeros(xs);
    }
  }

  lemma NoValue(s: string)
    requires Text(s) && DigitsValue(s) == 0
    ensures s[0] == '0'
  {
    assert s == [s[0]] + s[1..];
    ValueOfBoth([s[0]], s[1..]);
    OneDigit(s[0]);
    PowerPositive(|s[1..]|);
    var d, p := s[0] as int - '0' as int, Power10(|s| - 1);
    AtLeastOnce(d, p);
  }

  lemma AtLeastOnce(d: int, p: nat)
    ensures d > 0 ==> d * p >= p
  {
    if d > 0 { assert (d - 1) * p >= 0; }
  }

  /** `strs` is an order of the texts of `nums`. */
  ghost predicate OrderOf(strs: seq<string>, nums: seq<nat>) { multiset(strs) == multiset(ToTexts(nums)) }

  /** The number written by a digit string. */
  function Number(s: string): int { if AllDigits(s) then DigitsValue(s) else -1 }

  /** largestNumber: no order of the numbers gives a larger one, some order gives this one,
      and there are no leading zeros. */
  method Largest(nums: seq<nat>) returns (result: string)
    ensures nums == [] ==> result == ""
    ensures nums != [] ==> Text(result) && (result == "0" || result[0] != '0')
    ensures nums != [] ==> exists strs :: OrderOf(strs, nums) && Number(Concat(strs)) == Number(result)
    ensures nums != [] ==> forall strs :: OrderOf(strs, nums) ==> 0 <= Number(Concat(strs)) <= Number(result)
  {
    var strs: seq<string> := [];
    for i := 0 to |nums|
      invariant strs == ToTexts(nums)[..i]
    {
      strs := strs + [Digits(nums[i])];
    }
    TextsOfNumbers(nums);
    PlainTexts(nums);
    ghost var texts := strs;
    strs := Sort(strs);
    result := Join(strs);
    SortedWins(texts, strs, nums);
    if result != "" && result[0] == '0' {
      result := "0";
    }
  }

  lemma SortedWins(texts: seq<string>, strs: seq<string>, nums: seq<nat>)
    requires texts == ToTexts(nums) && multiset(strs) == multiset(texts) && Texts(strs) && Sorted(strs)
    ensures nums == [] ==> Concat(strs) == ""
    ensures nums != [] ==> Text(Concat(strs)) && (Concat(strs)[0] == '0' ==> Number(Concat(strs)) == 0 == Number("0"))
    ensures OrderOf(strs, nums) && forall ys :: OrderOf(ys, nums) ==> 0 <= Number(Concat(ys)) <= Number(Concat(strs))
  {
    assert |strs| == |multiset(strs)| == |multiset(texts)| == |nums|;
    PlainTexts(nums);
    PlainPermuted(texts, strs);
    OneDigit('0');
    if nums != [] { LeadingZero(strs); }
    forall ys | OrderOf(ys, nums) ensures 0 <= Number(Concat(ys)) <= Number(Concat(strs)) {
      SortedIsLargest(strs, ys);
    }
  }
}
