/** cJSON_Minify of code/json/cjson/cJSON.c: white space and comments are taken out in
    place, strings are kept. Minifying a formatted print gives the unformatted print. */
module JsonMinify {
  import opened Decimals
  import opened JsonPieces
  import opened JsonText

  predicate Blank(c: char) { c == ' ' || c == '\t' || c == '\r' || c == '\n' }

  /** Behind the closing quote, from a position inside the string; 0 if it is missing. */
  function StringClose(t: string, k: nat): (e: nat)
    ensures e == 0 || k < e <= |t|
    decreases |t| - k
  {
    if k >= |t| then 0
    else if t[k] == '\"' then k + 1
    else StringClose(t, if t[k] == '\\' then k + 2 else k + 1)
  }

  function LineEnd(t: string, k: nat): (e: nat)
    requires k <= |t|
    ensures k <= e <= |t|
    decreases |t| - k
  {
    if k < |t| && t[k] != '\n' then LineEnd(t, k + 1) else k
  }

  /** Behind the end of a comment; 0 if it is missing. */
  function CommentEnd(t: string, k: nat): (e: nat)
    ensures e == 0 || k + 1 < e <= |t|
    decreases |t| - k
  {
    if k >= |t| then 0
    else if t[k] == '*' && Get(t, k + 1) == '/' then k + 2
    else CommentEnd(t, k + 1)
  }

  /** Behind the piece of text that one turn of the loop takes; 0 if it does not end. */
  function PieceEnd(t: string, i: nat): (e: nat)
    requires i < |t|
    ensures e == 0 || i < e <= |t|
  {
    if t[i] == '/' && Get(t, i + 1) == '/' then LineEnd(t, i + 1)
    else if t[i] == '/' && Get(t, i + 1) == '*' then CommentEnd(t, i)
    else if t[i] == '\"' then StringClose(t, i + 1)
    else i + 1
  }

  predicate Dropped(t: string, i: nat)
    requires i < |t|
  {
    Blank(t[i]) || (t[i] == '/' && (Get(t, i + 1) == '/' || Get(t, i + 1) == '*'))
  }

  /** All strings and comments are ended. */
  predicate Closed(t: string, i: nat)
    requires i <= |t|
    decreases |t| - i
  {
    i < |t| ==> PieceEnd(t, i) != 0 && Closed(t, PieceEnd(t, i))
  }

  function Minified(t: string, i: nat): string
    requires i <= |t| && Closed(t, i)
    decreases |t| - i
  {
    if i == |t| then ""
    else (if Dropped(t, i) then "" else t[i..PieceEnd(t, i)]) + Minified(t, PieceEnd(t, i))
  }

  // ---- reading behind the text -------------------------------------------------------

  /** Where the read pointer stands after the loop over a string, from inside the string. The
      character behind the loop is taken without a look at it, and so is the one behind a
      backslash: beyond `|t|` the pointer is past the terminator. */
  function StringStop(t: string, k: nat): (e: nat)
    ensures e > k || e > |t|
    decreases |t| - k
  {
    if k > |t| then k
    else if k == |t| || t[k] == '\"' then k + 1
    else StringStop(t, if t[k] == '\\' then k + 2 else k + 1)
  }

  /** The same for a comment: two characters are skipped behind its loop. */
  function CommentStop(t: string, k: nat): (e: nat)
    requires k <= |t|
    ensures e > k + 1
    decreases |t| - k
  {
    if k == |t| || (t[k] == '*' && Get(t, k + 1) == '/') then k + 2 else CommentStop(t, k + 1)
  }

  function PieceStop(t: string, i: nat): (e: nat)
    requires i < |t|
    ensures e > i
  {
    if t[i] == '/' && Get(t, i + 1) == '/' then LineEnd(t, i + 1)
    else if t[i] == '/' && Get(t, i + 1) == '*' then CommentStop(t, i)
    else if t[i] == '\"' then StringStop(t, i + 1)
    else i + 1
  }

  /** Where the read pointer of cJSON_Minify ends: at the terminator, or behind it, where the
      next thing the source does is to read there. */
  function ReadStop(t: string, i: nat): (e: nat)
    ensures e >= |t|
    decreases |t| - i
  {
    if i >= |t| then i else ReadStop(t, PieceStop(t, i))
  }

  lemma {:induction false} StringStopIs(t: string, k: nat)
    ensures if StringClose(t, k) != 0 then StringStop(t, k) == StringClose(t, k) else StringStop(t, k) > |t|
    decreases |t| - k
  {
    if k < |t| && t[k] != '\"' { StringStopIs(t, if t[k] == '\\' then k + 2 else k + 1); }
  }

  lemma {:induction false} CommentStopIs(t: string, k: nat)
    requires k <= |t|
    ensures if CommentEnd(t, k) != 0 then CommentStop(t, k) == CommentEnd(t, k) else CommentStop(t, k) > |t|
    decreases |t| - k
  {
    if k < |t| { CommentStopIs(t, k + 1); }
  }

  lemma PieceStopIs(t: string, i: nat)
    requires i < |t|
    ensures if PieceEnd(t, i) != 0 then PieceStop(t, i) == PieceEnd(t, i) else PieceStop(t, i) > |t|
  {
    StringStopIs(t, i + 1);
    CommentStopIs(t, i);
  }

  /** The loop reads nothing behind the terminator exactly if every string and every comment
      is ended. */
  lemma {:induction false} StaysInside(t: string, i: nat)
    requires i <= |t|
    ensures ReadStop(t, i) == |t| <==> Closed(t, i)
    decreases |t| - i
  {
    if i < |t| {
      PieceStopIs(t, i);
      if PieceEnd(t, i) != 0 { StaysInside(t, PieceEnd(t, i)); }
    }
  }

  /** A lone quote, a string that ends in a backslash, and an open comment. */
  lemma ReadsBehind()
    ensures ReadStop("\"", 0) == |"\""| + 1 && ReadStop("\"\\", 0) == |"\"\\"| + 1 && ReadStop("/*", 0) == |"/*"| + 2
    ensures !Closed("\"", 0) && !Closed("\"\\", 0) && !Closed("/*", 0)
  {
    assert StringStop("\"", 1) == 2 && StringStop("\"\\", 1) == 3;
    assert CommentStop("/*", 2) == 4 && CommentStop("/*", 1) == 4 && CommentStop("/*", 0) == 4;
    StaysInside("\"", 0);
    StaysInside("\"\\", 0);
    StaysInside("/*", 0);
  }

  // ---- minifying a print -----------------------------------------------------------

  /** Between `i` and `j` the minifier writes `s`. */
  ghost predicate Yields(t: string, i: nat, j: nat, s: string) {
    && i <= |t| && j <= |t| && (Closed(t, i) <==> Closed(t, j))
    && (Closed(t, i) ==> Minified(t, i) == s + Minified(t, j))
  }

  lemma Compose(t: string, i: nat, j: nat, k: nat, s: string, s': string)
    requires Yields(t, i, j, s) && Yields(t, j, k, s')
    ensures Yields(t, i, k, s + s')
  {
    hide Closed, Minified;
    if Closed(t, i) { Assoc(s, s', Minified(t, k)); }
  }

  lemma {:induction false} BlankYields(t: string, i: nat, w: string)
    requires StartsWith(t, i, w) && forall k :: 0 <= k < |w| ==> Blank(w[k])
    ensures Yields(t, i, i + |w|, "")
    decreases |w|
  {
    if w == "" {
      if Closed(t, i) { assert "" + Minified(t, i) == Minified(t, i); }
    } else {
      Head(t, i, w, 0);
      assert w == [w[0]] + w[1..];
      Split(t, i, [w[0]], w[1..]);
      BlankYields(t, i + 1, w[1..]);
    }
  }

  /** Text without quotes, slashes and white space is copied. */
  lemma {:induction false} PlainYields(t: string, i: nat, p: string)
    requires StartsWith(t, i, p) && forall k :: 0 <= k < |p| ==> p[k] !in {'\"', '/'} && !Blank(p[k])
    ensures Yields(t, i, i + |p|, p)
    decreases |p|
  {
    if p == "" {
      if Closed(t, i) { assert "" + Minified(t, i) == Minified(t, i); }
    } else {
      Head(t, i, p, 0);
      assert p == [p[0]] + p[1..];
      Split(t, i, [p[0]], p[1..]);
      PlainYields(t, i + 1, p[1..]);
      CharYields(t, i);
      Compose(t, i, i + 1, i + |p|, [p[0]], p[1..]);
    }
  }

  lemma CharYields(t: string, i: nat)
    requires i < |t| && t[i] !in {'\"', '/'} && !Blank(t[i])
    ensures Yields(t, i, i + 1, [t[i]])
  {
    assert t[i..i + 1] == [t[i]];
  }

  lemma {:induction false} EscapedClose(s: string, t: string, i: nat)
    requires StartsWith(t, i, Escaped(s) + "\"")
    ensures StringClose(t, i) == i + |Escaped(s)| + 1
    decreases |s|
  {
    hide Escape, StartsWith;
    if s == "" {
      assert Escaped(s) + "\"" == "\"";
      Head(t, i, "\"", 0);
    } else {
      var e := Escape(s[0]);
      Assoc(e, Escaped(s[1..]), "\"");
      Split(t, i, e, Escaped(s[1..]) + "\"");
      EscapedClose(s[1..], t, i + |e|);
      EscapeSkipped(s[0], t, i);
    }
  }

  /** No escape sequence ends the string. */
  lemma EscapeSkipped(c: char, t: string, i: nat)
    requires StartsWith(t, i, Escape(c))
    ensures StringClose(t, i) == StringClose(t, i + |Escape(c)|)
  {
    var e := Escape(c);
    Head(t, i, e, 0);
    if |e| == 6 {
      SixChars(c, t, i);
      Plain4(t, i + 2);
    }
  }

  lemma SixChars(c: char, t: string, i: nat)
    requires |Escape(c)| == 6 && StartsWith(t, i, Escape(c))
    ensures i + 6 <= |t| && t[i] == '\\' && forall k :: i + 2 <= k < i + 6 ==> t[k] != '\"' && t[k] != '\\'
  {
    var hi, lo := c as int / 16, c as int % 16;
    EscapeChars(t, i, hi, lo);
    HexPlain(hi);
    HexPlain(lo);
    hide *;
    FourPlain(t, i);
  }

  lemma FourPlain(t: string, i: nat)
    requires i + 6 <= |t| && t[i + 2] == t[i + 3] == '0'
    requires t[i + 4] != '\"' && t[i + 4] != '\\' && t[i + 5] != '\"' && t[i + 5] != '\\'
    ensures forall k :: i + 2 <= k < i + 6 ==> t[k] != '\"' && t[k] != '\\'
  {
    forall k | i + 2 <= k < i + 6 ensures t[k] != '\"' && t[k] != '\\' {
      assert k == i + 2 || k == i + 3 || k == i + 4 || k == i + 5;
    }
  }

  lemma HexPlain(d: int)
    requires 0 <= d < 16
    ensures Hex(d) != '\"' && Hex(d) != '\\'
  {}

  lemma Plain4(t: string, i: nat)
    requires i + 4 <= |t| && forall k :: i <= k < i + 4 ==> t[k] != '\"' && t[k] != '\\'
    ensures StringClose(t, i) == StringClose(t, i + 4)
  {
    assert StringClose(t, i) == StringClose(t, i + 1);
    assert StringClose(t, i + 1) == StringClose(t, i + 2);
    assert StringClose(t, i + 2) == StringClose(t, i + 3);
  }

  lemma QuotedYields(s: string, t: string, i: nat)
    requires StartsWith(t, i, Quoted(s))
    ensures Yields(t, i, i + |Quoted(s)|, Quoted(s))
  {
    hide *;
    QuotedText(s);
    Head(t, i, Quoted(s), 0);
    Split(t, i, "\"", Escaped(s) + "\"");
    EscapedClose(s, t, i + 1);
    StringYields(t, i, Quoted(s));
  }

  lemma StringYields(t: string, i: nat, q: string)
    requires StartsWith(t, i, q) && q != "" && q[0] == '\"' && StringClose(t, i + 1) == i + |q|
    ensures Yields(t, i, i + |q|, q)
  {
    Head(t, i, q, 0);
  }

  lemma QuotedText(s: string)
    ensures Quoted(s) == "\"" + (Escaped(s) + "\"") && Quoted(s)[0] == '\"'
  {
    Assoc("\"", Escaped(s), "\"");
  }

  lemma DecimalAt(n: int, k: nat)
    requires k < |Decimal(n)|
    ensures Decimal(n)[k] == '-' || '0' <= Decimal(n)[k] <= '9'
  {
    var m := if n < 0 then -n else n;
    DigitsAre(m);
    hide Digits;
    assert n < 0 && k > 0 ==> Decimal(n)[k] == Digits(m)[k - 1];
  }

  lemma PlainDigit(c: char)
    requires c == '-' || '0' <= c <= '9'
    ensures c !in {'\"', '/'} && !Blank(c)
  {}

  lemma DecimalPlain(n: int)
    ensures forall k :: 0 <= k < |Decimal(n)| ==> Decimal(n)[k] !in {'\"', '/'} && !Blank(Decimal(n)[k])
  {
    hide Decimal, Blank;
    forall k | 0 <= k < |Decimal(n)| ensures Decimal(n)[k] !in {'\"', '/'} && !Blank(Decimal(n)[k]) {
      DecimalAt(n, k);
      PlainDigit(Decimal(n)[k]);
    }
  }

  lemma {:induction false} PrintYields(v: Value, depth: nat, depth': nat, fmt: bool, t: string, i: nat)
    requires StartsWith(t, i, Print(v, depth, fmt))
    ensures Yields(t, i, i + |Print(v, depth, fmt)|, Print(v, depth', false))
    decreases v, 1, 0
  {
    hide Yields, Quoted, Decimal;
    match v
    case Null => PlainYields(t, i, "null");
    case False => PlainYields(t, i, "false");
    case True => PlainYields(t, i, "true");
    case Number(n) => DecimalPlain(n); PlainYields(t, i, Decimal(n));
    case String(s) => QuotedYields(s, t, i);
    case Array(items) => ArrayYields(v, depth, depth', fmt, t, i);
    case Object(ms) => ObjectYields(v, depth, depth', fmt, t, i);
  }

  lemma ArrayYields(v: Value, depth: nat, depth': nat, fmt: bool, t: string, i: nat)
    requires v.Array? && StartsWith(t, i, Print(v, depth, fmt))
    ensures Yields(t, i, i + |Print(v, depth, fmt)|, Print(v, depth', false))
    decreases v, 0, |v.items| + 1
  {
    hide *;
    var items, items' := Items(v, 0, depth + 1, fmt), Items(v, 0, depth' + 1, false);
    ArrayText(v, depth, fmt);
    ArrayText(v, depth', false);
    Split(t, i, "[", items + "]");
    Split(t, i + 1, items, "]");
    Brackets();
    PlainYields(t, i, "[");
    ItemsYield(v, 0, depth + 1, depth' + 1, fmt, t, i + 1);
    PlainYields(t, i + 1 + |items|, "]");
    Compose(t, i + 1, i + 1 + |items|, i + |items| + 2, items', "]");
    Compose(t, i, i + 1, i + |items| + 2, "[", items' + "]");
  }

  lemma Brackets()
    ensures forall c :: c in {'[', ']', '{', '}', ',', ':'} ==> c !in {'\"', '/'} && !Blank(c)
  {}

  lemma {:induction false} ItemsYield(v: Value, k: nat, depth: nat, depth': nat, fmt: bool, t: string, i: nat)
    requires v.Array? && k <= |v.items| && StartsWith(t, i, Items(v, k, depth, fmt))
    ensures Yields(t, i, i + |Items(v, k, depth, fmt)|, Items(v, k, depth', false))
    decreases v, 0, |v.items| - k
  {
    hide Yields, Print;
    var last := k + 1 >= |v.items|;
    if k == |v.items| {
      BlankYields(t, i, "");
    } else {
      var p, p' := Print(v.items[k], depth, fmt), Print(v.items[k], depth', false);
      var c, rest, rest' := Comma(last, "," + If(fmt, " ")), Items(v, k + 1, depth, fmt), Items(v, k + 1, depth', false);
      ItemYield(v.items[k], depth, depth', fmt, c, Comma(last, ","), last, rest, t, i);
      ItemsYield(v, k + 1, depth, depth', fmt, t, i + |p| + |c|);
      Compose(t, i, i + |p| + |c|, i + |p| + |c| + |rest|, p' + Comma(last, ","), rest');
      assert "," + If(false, " ") == ",";
    }
  }

  /** One element with its comma. */
  lemma ItemYield(e: Value, depth: nat, depth': nat, fmt: bool, c: string, c': string, last: bool, rest: string,
                  t: string, i: nat)
    requires c == Comma(last, "," + If(fmt, " ")) && c' == Comma(last, ",")
    requires StartsWith(t, i, Print(e, depth, fmt) + c + rest)
    ensures Yields(t, i, i + |Print(e, depth, fmt)| + |c|, Print(e, depth', false) + c')
    ensures StartsWith(t, i + |Print(e, depth, fmt)| + |c|, rest)
    decreases e, 2
  {
    hide Yields, Print;
    var p := Print(e, depth, fmt);
    Split(t, i, p + c, rest);
    Split(t, i, p, c);
    PrintYields(e, depth, depth', fmt, t, i);
    var j := i + |p|;
    if last {
      BlankYields(t, j, "");
    } else {
      Split(t, j, ",", If(fmt, " "));
      PlainYields(t, j, ",");
      BlankYields(t, j + 1, If(fmt, " "));
      Compose(t, j, j + 1, j + |c|, ",", "");
      assert "," + "" == ",";
    }
    Compose(t, i, j, j + |c|, Print(e, depth', false), c');
  }

  // ---- objects -----------------------------------------------------------------------

  lemma LineBlank(depth: nat, fmt: bool)
    ensures forall w :: w in {If(fmt, Tabs(depth)), If(fmt, "\t"), If(fmt, "\n")} ==> forall k :: 0 <= k < |w| ==> Blank(w[k])
  {}

  /** The comma and the end of the line behind a member. */
  lemma LineEndYields(last: bool, fmt: bool, t: string, i: nat)
    requires StartsWith(t, i, Comma(last, ",") + (If(fmt, "\n") + ""))
    ensures Yields(t, i, i + |Comma(last, ",")| + |If(fmt, "\n")|, Comma(last, ",") + "")
  {
    hide Yields;
    var c, nl := Comma(last, ","), If(fmt, "\n");
    assert nl + "" == nl;
    Split(t, i, c, nl);
    PlainYields(t, i, c);
    BlankYields(t, i + |c|, nl);
    Compose(t, i, i + |c|, i + |c| + |nl|, c, "");
  }

  lemma LineYields(v: Value, k: nat, depth: nat, depth': nat, fmt: bool, t: string, i: nat)
    requires v.Object? && k < |v.members| && StartsWith(t, i, Line(v, k, depth, fmt))
    ensures Yields(t, i, i + |Line(v, k, depth, fmt)|, Line(v, k, depth', false))
    decreases v, 0, 0
  {
    hide *;
    var m, last := v.members[k], k + 1 == |v.members|;
    var w, q, w2, p, nl, c := If(fmt, Tabs(depth)), Quoted(m.name), If(fmt, "\t"), Print(m.value, depth, fmt), If(fmt, "\n"), Comma(last, ",");
    var p' := Print(m.value, depth', false);
    LineParts(v, k, depth, fmt, "");
    LineBlank(depth, fmt);
    Brackets();
    assert Line(v, k, depth, fmt) + "" == Line(v, k, depth, fmt);
    var b5 := c + (nl + "");
    Split(t, i, w, q + (":" + (w2 + (p + b5))));
    var i1 := i + |w|;
    Split(t, i1, q, ":" + (w2 + (p + b5)));
    var i2 := i1 + |q|;
    Split(t, i2, ":", w2 + (p + b5));
    Split(t, i2 + 1, w2, p + b5);
    var i3 := i2 + 1 + |w2|;
    Split(t, i3, p, b5);
    var i4, z := i3 + |p|, i + |Line(v, k, depth, fmt)|;
    LineEndYields(last, fmt, t, i4);
    PrintYields(m.value, depth, depth', fmt, t, i3);
    Compose(t, i3, i4, z, p', c + "");
    BlankYields(t, i2 + 1, w2);
    Compose(t, i2 + 1, i3, z, "", p' + (c + ""));
    PlainYields(t, i2, ":");
    Compose(t, i2, i2 + 1, z, ":", "" + (p' + (c + "")));
    QuotedYields(m.name, t, i1);
    Compose(t, i1, i2, z, q, ":" + ("" + (p' + (c + ""))));
    BlankYields(t, i, w);
    Compose(t, i, i1, z, "", q + (":" + ("" + (p' + (c + "")))));
    LineShort(v, k, depth');
  }

  lemma LineShort(v: Value, k: nat, depth: nat)
    requires v.Object? && k < |v.members|
    ensures Line(v, k, depth, false) == "" + (Quoted(v.members[k].name) + (":" + ("" + (Print(v.members[k].value, depth, false)
        + (Comma(k + 1 == |v.members|, ",") + "")))))
  {
    LineParts(v, k, depth, false, "");
    hide Line, Print, Quoted;
    assert Line(v, k, depth, false) + "" == Line(v, k, depth, false);
  }

  lemma {:induction false} MembersYield(v: Value, k: nat, depth: nat, depth': nat, fmt: bool, t: string, i: nat)
    requires v.Object? && k <= |v.members| && StartsWith(t, i, Members(v, k, depth, fmt))
    ensures Yields(t, i, i + |Members(v, k, depth, fmt)|, Members(v, k, depth', false))
    decreases v, 0, |v.members| - k + 1
  {
    hide Yields, Print, Line;
    if k == |v.members| {
      BlankYields(t, i, "");
    } else {
      var l, rest := Line(v, k, depth, fmt), Members(v, k + 1, depth, fmt);
      Split(t, i, l, rest);
      LineYields(v, k, depth, depth', fmt, t, i);
      MembersYield(v, k + 1, depth, depth', fmt, t, i + |l|);
      Compose(t, i, i + |l|, i + |l| + |rest|, Line(v, k, depth', false), Members(v, k + 1, depth', false));
    }
  }

  lemma ObjectYields(v: Value, depth: nat, depth': nat, fmt: bool, t: string, i: nat)
    requires v.Object? && StartsWith(t, i, Print(v, depth, fmt))
    ensures Yields(t, i, i + |Print(v, depth, fmt)|, Print(v, depth', false))
    decreases v, 0, |v.members| + 2
  {
    hide *;
    var w, tail := OpenObject(v, depth, fmt), CloseObject(v, depth, fmt);
    var ms, ms' := Members(v, 0, depth + 1, fmt), Members(v, 0, depth' + 1, false);
    ObjectShape(v, depth, fmt);
    ObjectShape(v, depth', false);
    Split(t, i, "{", w + (ms + (tail + "}")));
    Split(t, i + 1, w, ms + (tail + "}"));
    Split(t, i + 1 + |w|, ms, tail + "}");
    var j := i + 1 + |w| + |ms|;
    Split(t, j, tail, "}");
    Brackets();
    var z := j + |tail| + 1;
    PlainYields(t, j + |tail|, "}");
    BlankYields(t, j, tail);
    Compose(t, j, j + |tail|, z, "", "}");
    MembersYield(v, 0, depth + 1, depth' + 1, fmt, t, i + 1 + |w|);
    Compose(t, i + 1 + |w|, j, z, ms', "" + "}");
    BlankYields(t, i + 1, w);
    Compose(t, i + 1, i + 1 + |w|, z, "", ms' + ("" + "}"));
    PlainYields(t, i, "{");
    Compose(t, i, i + 1, z, "{", "" + (ms' + ("" + "}")));
  }

  /** The white space behind the opening and before the closing brace. */
  function OpenObject(v: Value, depth: nat, fmt: bool): string
    requires v.Object?
  {
    If(fmt, "\n" + if v.members == [] && depth > 0 then Tabs(depth - 1) else "")
  }

  function CloseObject(v: Value, depth: nat, fmt: bool): string
    requires v.Object?
  {
    If(fmt && v.members != [], Tabs(depth))
  }

  lemma ObjectShape(v: Value, depth: nat, fmt: bool)
    requires v.Object?
    ensures var w, tail := OpenObject(v, depth, fmt), CloseObject(v, depth, fmt);
      (&& Print(v, depth, fmt) == "{" + (w + (Members(v, 0, depth + 1, fmt) + (tail + "}")))
       && (forall k :: 0 <= k < |w| ==> Blank(w[k])) && (forall k :: 0 <= k < |tail| ==> Blank(tail[k]))
       && (!fmt ==> w == "" && tail == ""))
  {
    if v.members != [] {
      ObjectText(v, depth, fmt);
      assert "\n" + "" == "\n";
    }
  }

  // ---- the theorem ---------------------------------------------------------------------

  /** Minifying a print, formatted or not, is closed and gives the unformatted print. */
  lemma MinifyPrint(v: Value, fmt: bool)
    ensures var t := Print(v, 0, fmt); Closed(t, 0) && Minified(t, 0) == Print(v, 0, false)
  {
    var t := Print(v, 0, fmt);
    assert t[0..0 + |t|] == t;
    PrintYields(v, 0, 0, fmt, t, 0);
    hide Print;
    assert Minified(t, |t|) == "" && Print(v, 0, false) + "" == Print(v, 0, false);
  }

  // ---- in place ------------------------------------------------------------------------

  /** The text in a buffer, up to the terminator at `n`. */
  ghost predicate Holds(a: array<char>, t: string)
    reads a
  {
    |t| < a.Length && a[..|t|] == t && a[|t|] == NUL && NUL !in t
  }

  /** `t` is still there from `k` on, and `out` was written in front of it. */
  ghost predicate Halfway(json: array<char>, t: string, k: nat, out: string)
    reads json
  {
    && |out| <= k <= |t| < json.Length && json[..|out|] == out && NUL !in out
    && json[k..|t|] == t[k..] && json[|t|] == NUL && NUL !in t
  }

  /** What the pointer reads. */
  lemma Reads(json: array<char>, t: string, k: nat, out: string)
    requires Halfway(json, t, k, out)
    ensures |out| <= k <= |t| < json.Length
    ensures json[k] == Get(t, k) && (json[k] == NUL <==> k == |t|) && (k < |t| ==> json[k + 1] == Get(t, k + 1))
  {
    forall j | k <= j < |t| ensures json[j] == t[j] { assert json[k..|t|][j - k] == t[k..][j - k]; }
  }

  lemma Ahead(json: array<char>, t: string, k: nat, j: nat, out: string)
    requires Halfway(json, t, k, out) && k <= j <= |t|
    ensures Halfway(json, t, j, out)
  {
    assert json[j..|t|] == json[k..|t|][j - k..];
  }

  /** `*into++ = *json++`. */
  method CopyChar(json: array<char>, into: nat, k: nat, ghost t: string, ghost out: string)
    requires Halfway(json, t, k, out) && into == |out| && k < |t|
    modifies json
    ensures Halfway(json, t, k + 1, out + [t[k]])
  {
    assert json[k] == json[k..|t|][0] == t[k];
    json[into] := json[k];
    assert json[k + 1..|t|] == t[k + 1..];
  }

  lemma SliceGrows(out: string, t: string, i: nat, k: nat, k': nat)
    requires i <= k <= k' <= |t|
    ensures (out + t[i..k]) + t[k..k'] == out + t[i..k']
  {}

  /** One turn inside a string: a character, or an escape and the character behind it. The
      model stops at the first position behind the terminator, at `n`. */
  method CopyInside(json: array<char>, into0: nat, k0: nat, n: nat, ghost t: string, ghost out0: string)
    returns (into: nat, k: nat, ghost out: string)
    requires Halfway(json, t, k0, out0) && into0 == |out0| && k0 < |t| == n && t[k0] != '\"'
    modifies json
    ensures k == (if t[k0] == '\\' then k0 + 2 else k0 + 1)
    ensures k <= n ==> Halfway(json, t, k, out) && into == |out| && out == out0 + t[k0..k]
  {
    hide Halfway;
    Reads(json, t, k0, out0);
    into, k, out := into0, k0, out0;
    if json[k] == '\\' {
      CopyChar(json, into, k, t, out);
      into, k, out := into + 1, k + 1, out + [t[k]];
      Reads(json, t, k, out);
    }
    if k < n {
      CopyChar(json, into, k, t, out);
      into, k, out := into + 1, k + 1, out + [t[k]];
    } else {
      json[into] := json[k];
      into, k := into + 1, k + 1;
    }
  }

  lemma SliceOfOne(t: string, k: nat)
    requires k < |t|
    ensures t[k..k + 1] == [t[k]]
  {}

  /** The branch for string literals: copies up to the closing quote. */
  method CopyString(json: array<char>, into0: nat, k0: nat, n: nat, ghost t: string, ghost out0: string)
    returns (into: nat, k: nat, ghost out: string)
    requires Halfway(json, t, k0, out0) && into0 == |out0| && k0 < |t| == n && t[k0] == '\"'
    modifies json
    ensures k == StringStop(t, k0 + 1)
    ensures k <= n ==> Halfway(json, t, k, out) && into == |out| && out == out0 + t[k0..k]
  {
    hide Halfway;
    CopyChar(json, into0, k0, t, out0);
    into, k, out := into0 + 1, k0 + 1, out0 + [t[k0]];
    assert out == out0 + t[k0..k];
    Reads(json, t, k, out);
    while k <= n && json[k] != NUL && json[k] != '\"'
      invariant k0 < k && n == |t| < json.Length && StringStop(t, k) == StringStop(t, k0 + 1)
      invariant k <= n ==> Halfway(json, t, k, out) && into == |out| && out == out0 + t[k0..k]
      invariant k <= n ==> json[k] == Get(t, k) && (json[k] == NUL <==> k == n)
      decreases n - k
    {
      ghost var k1 := k;
      into, k, out := CopyInside(json, into, k, n, t, out);
      if k <= n {
        SliceGrows(out0, t, k0, k1, k);
        Reads(json, t, k, out);
      }
    }
    if k < n {
      SliceGrows(out0, t, k0, k, k + 1);
      SliceOfOne(t, k);
      CopyChar(json, into, k, t, out);
      into, k, out := into + 1, k + 1, out + [t[k]];
    } else if k == n {
      Reads(json, t, k, out);
      json[into] := json[k];
      into, k := into + 1, k + 1;
    }
  }

  /** The branches that skip a comment. */
  method SkipComment(json: array<char>, k0: nat, n: nat, ghost t: string, ghost out: string) returns (k: nat)
    requires Halfway(json, t, k0, out) && k0 < |t| == n && t[k0] == '/'
    requires Get(t, k0 + 1) == '/' || Get(t, k0 + 1) == '*'
    ensures k == PieceStop(t, k0)
  {
    k := k0;
    Reads(json, t, k, out);
    if json[k + 1] == '/' {
      while json[k] != NUL && json[k] != '\n'
        invariant k0 <= k <= |t| && LineEnd(t, k0 + 1) == (if k == k0 then LineEnd(t, k0 + 1) else LineEnd(t, k))
        invariant json[k] == Get(t, k) && (json[k] == NUL <==> k == |t|)
        decreases |t| - k
      {
        k := k + 1;
        Ahead(json, t, k0, k, out);
        Reads(json, t, k, out);
      }
    } else {
      while json[k] != NUL && !(json[k] == '*' && json[k + 1] == '/')
        invariant k0 <= k <= |t| && CommentStop(t, k0) == CommentStop(t, k)
        invariant json[k] == Get(t, k) && (json[k] == NUL <==> k == |t|) && (k < |t| ==> json[k + 1] == Get(t, k + 1))
        decreases |t| - k
      {
        k := k + 1;
        Ahead(json, t, k0, k, out);
        Reads(json, t, k, out);
      }
      k := k + 2;
    }
  }

  /** One turn of the loop. */
  method TakePiece(json: array<char>, into0: nat, k0: nat, n: nat, ghost t: string, ghost out0: string)
    returns (into: nat, k: nat, ghost out: string)
    requires Halfway(json, t, k0, out0) && into0 == |out0| && k0 < |t| == n
    modifies json
    ensures k == PieceStop(t, k0)
    ensures k <= n ==> Halfway(json, t, k, out) && into == |out| && out == out0 + if Dropped(t, k0) then "" else t[k0..k]
  {
    hide Halfway;
    into, k, out := into0, k0, out0;
    Reads(json, t, k, out);
    if json[k] == ' ' {
      k := k + 1;
    } else if json[k] == '\t' {
      k := k + 1;
    } else if json[k] == '\r' {
      k := k + 1;
    } else if json[k] == '\n' {
      k := k + 1;
    } else if json[k] == '/' && (json[k + 1] == '/' || json[k + 1] == '*') {
      k := SkipComment(json, k, n, t, out);
    } else if json[k] == '\"' {
      into, k, out := CopyString(json, into, k, n, t, out);
    } else {
      SliceOfOne(t, k);
      CopyChar(json, into, k, t, out);
      into, k, out := into + 1, k + 1, out + [t[k]];
    }
    if Dropped(t, k0) && k <= n { Ahead(json, t, k0, k, out); }
  }

  method Terminate(json: array<char>, into: nat, ghost t: string, ghost out: string)
    requires Halfway(json, t, |t|, out) && into == |out|
    modifies json
    ensures Holds(json, out)
  {
    json[into] := NUL;
    assert json[..|out|] == out;
  }

  /** cJSON_Minify on a text with its terminator at `n`. If every string and every comment is
      ended, and only then, all reads are inside the text and its terminator, and the buffer
      ends up with the minified text. Otherwise the model stops at `end`, the first position
      behind the terminator that the source goes on to read. */
  method Minify(json: array<char>, n: nat, ghost t: string) returns (end: nat)
    requires Holds(json, t) && n == |t|
    modifies json
    ensures end == ReadStop(t, 0) && (end == n <==> Closed(t, 0))
    ensures Closed(t, 0) ==> Holds(json, Minified(t, 0))
  {
    var into, k := 0, 0;
    ghost var out := "";
    Start(json, t);
    StaysInside(t, 0);
    hide Halfway, Holds, PieceEnd, PieceStop, Dropped;
    Reads(json, t, k, out);
    while k <= n && json[k] != NUL
      invariant k <= n ==> Halfway(json, t, k, out) && into == |out| && k <= |t| < json.Length
      invariant k <= n ==> (json[k] == NUL <==> k == n) && (Closed(t, k) <==> Closed(t, 0))
      invariant k <= n && Closed(t, 0) ==> out + Minified(t, k) == Minified(t, 0)
      invariant n == |t| < json.Length && ReadStop(t, k) == ReadStop(t, 0)
      decreases n - k
    {
      PieceStopIs(t, k);
      ghost var e := PieceStop(t, k);
      if e <= n && Closed(t, 0) { Assoc(out, if Dropped(t, k) then "" else t[k..e], Minified(t, e)); }
      into, k, out := TakePiece(json, into, k, n, t, out);
      if k <= n { Reads(json, t, k, out); }
    }
    end := k;
    if k <= n {
      Terminate(json, into, t, out);
      assert out + "" == out;
    }
  }

  lemma Start(json: array<char>, t: string)
    requires Holds(json, t)
    ensures Halfway(json, t, 0, "") && (Closed(t, 0) ==> "" + Minified(t, 0) == Minified(t, 0))
  {
    assert json[0..|t|] == t[0..];
  }
}
