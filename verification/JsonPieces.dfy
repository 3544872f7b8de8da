/** The pieces of a printed text, and where the parser of code/json/cjson/cJSON.c finds them. */
module JsonPieces {
  import opened Decimals
  import opened JsonText

  lemma Split(t: string, i: nat, a: string, b: string)
    ensures StartsWith(t, i, a + b) <==> StartsWith(t, i, a) && StartsWith(t, i + |a|, b)
    ensures StartsWith(t, i, a + b) ==> i + |a| + |b| <= |t|
  {
    if i + |a| + |b| <= |t| {
      assert t[i..i + |a + b|] == t[i..i + |a|] + t[i + |a|..i + |a| + |b|];
      if StartsWith(t, i, a + b) {
        assert a == (a + b)[..|a|] && b == (a + b)[|a|..];
      }
    }
  }

  lemma Head(t: string, i: nat, p: string, k: nat)
    requires StartsWith(t, i, p) && k < |p|
    ensures i + k < |t| && Get(t, i + k) == t[i + k] == p[k]
  {
    assert t[i..i + |p|][k] == p[k];
  }

  // ---- white space -----------------------------------------------------------------

  predicate White(w: string) { forall i :: 0 <= i < |w| ==> w[i] != NUL && w[i] <= ' ' }

  lemma {:induction false} SkipOver(t: string, i: nat, w: string)
    requires White(w) && StartsWith(t, i, w)
    ensures Skip(t, i) == Skip(t, i + |w|)
    decreases |w|
  {
    if w != "" {
      Head(t, i, w, 0);
      assert w == [w[0]] + w[1..];
      Split(t, i, [w[0]], w[1..]);
      SkipOver(t, i + 1, w[1..]);
    }
  }

  lemma {:induction false} SkipTwice(t: string, i: nat)
    ensures Skip(t, Skip(t, i)) == Skip(t, i)
    decreases |t| - i
  {
    if Get(t, i) != NUL && Get(t, i) <= ' ' { SkipTwice(t, i + 1); }
  }

  // ---- numbers ---------------------------------------------------------------------

  lemma {:induction false} DigitsEndAfter(t: string, i: nat, d: string)
    requires StartsWith(t, i, d) && (forall k :: 0 <= k < |d| ==> IsDigit(d[k])) && !IsDigit(Get(t, i + |d|))
    ensures DigitsEnd(t, i) == i + |d|
    decreases |d|
  {
    if d != "" {
      Head(t, i, d, 0);
      assert d == [d[0]] + d[1..];
      Split(t, i, [d[0]], d[1..]);
      DigitsEndAfter(t, i + 1, d[1..]);
    }
  }

  /** A character that cannot go on a number. */
  predicate Stops(c: char) { !IsDigit(c) && c != '.' && c != 'e' && c != 'E' }

  /** The digits that are read are the printed ones, but for a single zero. */
  lemma DigitsText(t: string, a: nat, m: nat)
    requires StartsWith(t, a, Digits(m))
    ensures var e := a + |Digits(m)|;
      if m > 0 then t[a..e] == Digits(m) && '1' <= t[a] <= '9' else e == a + 1 && t[a] == '0' && t[e..e] == ""
  {
    DigitsAre(m);
    Head(t, a, Digits(m), 0);
  }

  // ---- strings ---------------------------------------------------------------------

  /** The six characters of a control escape. */
  lemma EscapeChars(t: string, i: nat, hi: int, lo: int)
    requires 0 <= hi < 16 && 0 <= lo < 16 && StartsWith(t, i, "\\u00" + [Hex(hi), Hex(lo)])
    ensures i + 6 <= |t| && t[i] == '\\' && t[i + 1] == 'u' && t[i + 2] == t[i + 3] == '0' && t[i + 4] == Hex(hi) && t[i + 5] == Hex(lo)
  {
    hide Hex;
    var p := "\\u00" + [Hex(hi), Hex(lo)];
    forall k | 0 <= k < 6 ensures t[i + k] == p[k] { assert t[i..i + 6][k] == p[k]; }
    assert t[i + 0] == p[0] && t[i + 1] == p[1] && t[i + 2] == p[2] && t[i + 3] == p[3] && t[i + 4] == p[4] && t[i + 5] == p[5];
  }

  lemma ControlUtf8(c: char)
    requires NUL < c < ' '
    ensures Utf8(c as int) == [c]
  {}

  lemma HexBack(d: int)
    requires 0 <= d < 16
    ensures HexValue(Hex(d)) == d
  {}

  lemma Unescaped(c: char)
    requires |Escape(c)| == 1
    ensures Escape(c) == [c] && c != '\"' && c != '\\'
  {}

  // ---- values ------------------------------------------------------------------------

  /** Printed values start visibly and not like the end of a list. */
  lemma FirstChar(v: Value, depth: nat, fmt: bool)
    ensures var p := Print(v, depth, fmt); p != "" && p[0] > ' ' && p[0] !in {']', '}', ','}
  {
    if v.Number? && v.n >= 0 { DigitsAre(v.n); }
  }

  /** The branch of the parser that the first character selects. */
  lemma Dispatch(t: string, i: nat)
    requires i < |t|
    ensures t[i] == '\"' ==>
      ParseValue(t, i) == var r := ParseString(t, i); if r.Ok? then Ok(String(r.value), r.end) else if r.Fail? then Fail(r.ep) else Outside
    ensures t[i] == '-' || IsDigit(t[i]) ==> ParseValue(t, i) == ParseNumber(t, i)
    ensures t[i] == '[' ==>
      ParseValue(t, i) == var j := Skip(t, i + 1); if Get(t, j) == ']' then Ok(Array([]), j + 1) else ParseItems(t, j, [])
    ensures t[i] == '{' ==>
      ParseValue(t, i) == var j := Skip(t, i + 1); if Get(t, j) == '}' then Ok(Object([]), j + 1) else ParseMembers(t, j, [])
  {
    if StartsWith(t, i, "null") { Head(t, i, "null", 0); }
    if StartsWith(t, i, "false") { Head(t, i, "false", 0); }
    if StartsWith(t, i, "true") { Head(t, i, "true", 0); }
  }

  lemma ParseWords(t: string, i: nat)
    requires i <= |t|
    ensures StartsWith(t, i, "null") ==> ParseValue(t, i) == Ok(Null, i + 4)
    ensures StartsWith(t, i, "false") ==> ParseValue(t, i) == Ok(False, i + 5)
    ensures StartsWith(t, i, "true") ==> ParseValue(t, i) == Ok(True, i + 4)
  {
    if StartsWith(t, i, "false") { Head(t, i, "false", 0); }
    if StartsWith(t, i, "true") { Head(t, i, "true", 0); }
    if StartsWith(t, i, "null") { Head(t, i, "null", 0); }
  }

  lemma ArrayText(v: Value, depth: nat, fmt: bool)
    requires v.Array?
    ensures Print(v, depth, fmt) == "[" + (Items(v, 0, depth + 1, fmt) + "]")
    ensures v.items == [] ==> Items(v, 0, depth + 1, fmt) == ""
  {
    Assoc("[", Items(v, 0, depth + 1, fmt), "]");
  }

  lemma NoSkip(t: string, i: nat)
    requires Get(t, i) > ' '
    ensures Skip(t, i) == i
  {}

  lemma Assoc(a: string, b: string, c: string)
    ensures (a + b) + c == a + (b + c)
  {}

  /** The text of the `k`-th element and what follows it. */
  lemma ItemsParts(v: Value, k: nat, depth: nat, fmt: bool)
    requires v.Array? && k < |v.items|
    ensures var p, last := Print(v.items[k], depth, fmt), k + 1 == |v.items|;
      Items(v, k, depth, fmt) + "]" ==
        p + if last then "]" else "," + (If(fmt, " ") + (Items(v, k + 1, depth, fmt) + "]"))
  {
    var p, last := Print(v.items[k], depth, fmt), k + 1 == |v.items|;
    var rest := Items(v, k + 1, depth, fmt);
    assert Items(v, k, depth, fmt) == p + Comma(last, "," + If(fmt, " ")) + rest && (last ==> rest == "");
    hide Print, Items;
    Assoc(p, Comma(last, "," + If(fmt, " ")), rest);
    Assoc(p, Comma(last, "," + If(fmt, " ")) + rest, "]");
    Assoc(Comma(last, "," + If(fmt, " ")), rest, "]");
    if !last { Assoc(",", If(fmt, " "), rest + "]"); }
  }

  lemma ItemRest(v: Value, k: nat, depth: nat, fmt: bool)
    requires v.Array? && Plain(v) && k < |v.items|
    ensures White(If(fmt, " ")) && Plain(v.items[k]) && Stops(',') && Stops(']')
  {}

  /** Leading white space makes no difference. */
  lemma ItemsFrom(t: string, i: nat, j: nat, acc: seq<Value>)
    requires i <= |t| && j <= |t| && Skip(t, i) == Skip(t, j)
    ensures ParseItems(t, i, acc) == ParseItems(t, j, acc)
  {
    hide ParseValue, Skip;
  }

  lemma MembersFrom(t: string, i: nat, j: nat, acc: seq<Member>)
    requires i <= |t| && j <= |t| && Skip(t, i) == Skip(t, j)
    ensures ParseMembers(t, i, acc) == ParseMembers(t, j, acc)
  {
    hide ParseValue, ParseString, Skip, StartsWith;
  }

  // ---- objects -----------------------------------------------------------------------

  /** What follows the value of the `k`-th member. */
  function AfterMember(v: Value, k: nat, depth: nat, fmt: bool, tail: string): string
    requires v.Object? && k < |v.members|
  {
    if k + 1 == |v.members| then (If(fmt, "\n") + tail) + "}"
    else "," + (If(fmt, "\n") + (Members(v, k + 1, depth, fmt) + (tail + "}")))
  }

  /** The text of the `k`-th member, piece by piece. */
  lemma LineParts(v: Value, k: nat, depth: nat, fmt: bool, x: string)
    requires v.Object? && k < |v.members|
    ensures var m, last := v.members[k], k + 1 == |v.members|;
      Line(v, k, depth, fmt) + x == If(fmt, Tabs(depth)) + (Quoted(m.name) + (":" + (If(fmt, "\t")
        + (Print(m.value, depth, fmt) + (Comma(last, ",") + (If(fmt, "\n") + x))))))
  {
    var m, last := v.members[k], k + 1 == |v.members|;
    var w, q, w2, p, nl := If(fmt, Tabs(depth)), Quoted(m.name), If(fmt, "\t"), Print(m.value, depth, fmt), If(fmt, "\n");
    var c := Comma(last, ",");
    assert Line(v, k, depth, fmt) == w + q + ":" + w2 + p + c + nl;
    hide *;
    Assoc(w + q + ":" + w2 + p + c, nl, x);
    Assoc(w + q + ":" + w2 + p, c, nl + x);
    Assoc(w + q + ":" + w2, p, c + (nl + x));
    Assoc(w + q + ":", w2, p + (c + (nl + x)));
    Assoc(w + q, ":", w2 + (p + (c + (nl + x))));
    Assoc(w, q, ":" + (w2 + (p + (c + (nl + x)))));
  }

  lemma MembersParts(v: Value, k: nat, depth: nat, fmt: bool, tail: string)
    requires v.Object? && k < |v.members|
    ensures var m := v.members[k];
      Members(v, k, depth, fmt) + (tail + "}") == If(fmt, Tabs(depth)) + (Quoted(m.name) + (":" + (If(fmt, "\t")
        + (Print(m.value, depth, fmt) + AfterMember(v, k, depth, fmt, tail)))))
  {
    var line, rest, last := Line(v, k, depth, fmt), Members(v, k + 1, depth, fmt), k + 1 == |v.members|;
    Assoc(line, rest, tail + "}");
    LineParts(v, k, depth, fmt, rest + (tail + "}"));
    if last {
      assert rest + (tail + "}") == tail + "}";
      Assoc(If(fmt, "\n"), tail, "}");
      assert "" + (If(fmt, "\n") + (tail + "}")) == If(fmt, "\n") + (tail + "}");
    }
  }

  lemma LineWhite(name: string, depth: nat, fmt: bool)
    ensures White(If(fmt, Tabs(depth))) && White(If(fmt, "\t")) && White(If(fmt, "\n")) && White(If(fmt, "\n") + If(fmt, Tabs(depth)))
    ensures Quoted(name) != "" && Quoted(name)[0] == '\"'
  {}

  /** Where the pieces of a member lie in the text, and what skipping finds there. */
  lemma MemberPlaces(v: Value, k: nat, depth: nat, fmt: bool, tail: string, t: string, i: nat)
    returns (i1: nat, i2: nat, i3: nat, i4: nat)
    requires v.Object? && k < |v.members| && StartsWith(t, i, Members(v, k, depth, fmt) + (tail + "}"))
    ensures var m := v.members[k]; var p := Print(m.value, depth, fmt);
      (&& Skip(t, i) == i1 && StartsWith(t, i1, Quoted(m.name)) && i2 == i1 + |Quoted(m.name)| && Get(t, i2) == ':'
       && Skip(t, i2 + 1) == i3 && StartsWith(t, i3, p) && i4 == i3 + |p|
       && StartsWith(t, i4, AfterMember(v, k, depth, fmt, tail)))
    ensures Get(t, i1) == '\"' && i4 + |AfterMember(v, k, depth, fmt, tail)| == i + |Members(v, k, depth, fmt)| + |tail| + 1
  {
    hide *;
    var m := v.members[k];
    var w, q, w2, p, a := If(fmt, Tabs(depth)), Quoted(m.name), If(fmt, "\t"), Print(m.value, depth, fmt), AfterMember(v, k, depth, fmt, tail);
    MembersParts(v, k, depth, fmt, tail);
    FirstChar(m.value, depth, fmt);
    LineWhite(m.name, depth, fmt);
    i1, i2 := i + |w|, i + |w| + |q|;
    i3 := i2 + 1 + |w2|;
    i4 := i3 + |p|;
    Split(t, i, w, q + (":" + (w2 + (p + a))));
    Split(t, i1, q, ":" + (w2 + (p + a)));
    Split(t, i2, ":", w2 + (p + a));
    Split(t, i2 + 1, w2, p + a);
    Split(t, i3, p, a);
    Head(t, i1, q, 0);
    Head(t, i2, ":", 0);
    Head(t, i3, p, 0);
    SkipOver(t, i, w);
    SkipOver(t, i2 + 1, w2);
    NoSkip(t, i1);
    NoSkip(t, i3);
  }

  lemma MemberRest(v: Value, k: nat, depth: nat, fmt: bool, tail: string)
    requires v.Object? && Plain(v) && k < |v.members| && White(tail)
    ensures var m, nl, a := v.members[k], If(fmt, "\n"), AfterMember(v, k, depth, fmt, tail);
      (&& Plain(m.value) && NUL !in m.name && White(nl) && White(nl + tail) && a != "" && Stops(a[0])
       && a == if k + 1 == |v.members| then (nl + tail) + "}" else "," + (nl + (Members(v, k + 1, depth, fmt) + (tail + "}"))))
  {}

  lemma AtClose(t: string, i: nat, w: string)
    requires White(w) && StartsWith(t, i, w + "}")
    ensures i + |w| < |t| && Skip(t, i) == i + |w| && Get(t, i + |w|) == '}'
  {
    hide *;
    Split(t, i, w, "}");
    SkipOver(t, i, w);
    Head(t, i + |w|, "}", 0);
    NoSkip(t, i + |w|);
  }

  lemma AtComma(t: string, i: nat, w: string, rest: string)
    requires White(w) && StartsWith(t, i, "," + (w + rest))
    ensures i + 1 + |w| <= |t| && Skip(t, i) == i && Get(t, i) == ','
    ensures Skip(t, i + 1) == Skip(t, i + 1 + |w|) && StartsWith(t, i + 1 + |w|, rest)
  {
    hide *;
    Split(t, i, ",", w + rest);
    Head(t, i, ",", 0);
    NoSkip(t, i);
    Split(t, i + 1, w, rest);
    SkipOver(t, i + 1, w);
  }

  lemma ObjectText(v: Value, depth: nat, fmt: bool)
    requires v.Object? && v.members != []
    ensures Print(v, depth, fmt) == "{" + (If(fmt, "\n") + (Members(v, 0, depth + 1, fmt) + (If(fmt, Tabs(depth)) + "}")))
  {
    ObjectParts("{", If(fmt, "\n"), Members(v, 0, depth + 1, fmt), If(fmt, Tabs(depth)), "}");
  }

  lemma ObjectParts(a: string, w: string, ms: string, tail: string, z: string)
    ensures a + w + ms + tail + z == a + (w + (ms + (tail + z)))
  {
    Assoc(a + w + ms, tail, z);
    Assoc(a + w, ms, tail + z);
    Assoc(a, w, ms + (tail + z));
  }

  lemma EmptyObjectText(depth: nat, fmt: bool) returns (w: string)
    ensures White(w) && Print(Object([]), depth, fmt) == "{" + (w + "}")
  {
    w := If(fmt, "\n" + Tabs(if depth == 0 then 0 else depth - 1));
    Assoc("{", w, "}");
  }
}
