/** The two printers of code/json/cjson/cJSON.c: into a growing buffer, and into pieces of
    memory that are put together afterwards. */
module JsonPrint {
  import opened Decimals
  import opened JsonItem
  import opened JsonPieces
  import opened JsonText

  /** The largest size for which doubling does not overflow an int. */
  const LIMIT := 0x4000_0000

  /** A terminated string at a position of a buffer. */
  ghost predicate Wrote(a: array<char>, at: nat, s: string)
    reads a
  {
    at + |s| < a.Length && a[at..at + |s|] == s && a[at + |s|] == NUL
  }

  /** "%d" of an int needs at most 11 characters. */
  lemma DecimalShort(n: int)
    requires INT_MIN <= n <= INT_MAX
    ensures |Decimal(n)| <= 11
  {
    assert Power10(5) == 100000;
    assert Power10(10) == 10000000000;
    DigitsShort(if n < 0 then -n else n, 10);
  }

  // ---- what is printed holds no terminator ----------------------------------------------

  lemma {:induction false} EscapedNoNul(s: string)
    requires NUL !in s
    ensures NUL !in Escaped(s)
    decreases |s|
  {
    if s != "" { EscapedNoNul(s[1..]); }
  }

  lemma {:induction false} PrintNoNul(v: Value, depth: nat, fmt: bool)
    requires Plain(v)
    ensures NUL !in Print(v, depth, fmt)
    decreases v, 1, 0
  {
    hide Items, Members, Digits, Escaped;
    match v
    case Number(n) => DigitsAre(if n < 0 then -n else n);
    case String(s) => EscapedNoNul(s);
    case Array(items) => ItemsNoNul(v, 0, depth + 1, fmt);
    case Object(ms) => if ms != [] { MembersNoNul(v, 0, depth + 1, fmt); }
    case _ =>
  }

  lemma {:induction false} ItemsNoNul(v: Value, k: nat, depth: nat, fmt: bool)
    requires v.Array? && Plain(v) && k <= |v.items|
    ensures NUL !in Items(v, k, depth, fmt)
    decreases v, 0, |v.items| - k
  {
    if k < |v.items| {
      PrintNoNul(v.items[k], depth, fmt);
      ItemsNoNul(v, k + 1, depth, fmt);
    }
  }

  lemma {:induction false} MembersNoNul(v: Value, k: nat, depth: nat, fmt: bool)
    requires v.Object? && Plain(v) && k <= |v.members|
    ensures NUL !in Members(v, k, depth, fmt)
    decreases v, 0, |v.members| - k
  {
    hide Print, Line;
    if k < |v.members| {
      PrintNoNul(v.members[k].value, depth, fmt);
      LineNoNul(v, k, depth, fmt);
      MembersNoNul(v, k + 1, depth, fmt);
    }
  }

  lemma LineNoNul(v: Value, k: nat, depth: nat, fmt: bool)
    requires v.Object? && Plain(v) && k < |v.members| && NUL !in Print(v.members[k].value, depth, fmt)
    ensures NUL !in Line(v, k, depth, fmt)
  {
    hide Print, Escaped;
    EscapedNoNul(v.members[k].name);
  }

  // ---- strings ---------------------------------------------------------------------------

  /** Copies characters to a position of a buffer. */
  method Store(a: array<char>, at: nat, s: string)
    requires at + |s| <= a.Length
    modifies a
    ensures a[..at] == old(a[..at]) && a[at..at + |s|] == s
  {
    for i := 0 to |s|
      invariant a[..at] == old(a[..at]) && a[at..at + i] == s[..i]
    {
      a[at + i] := s[i];
      assert s[..i + 1] == s[..i] + [s[i]];
    }
  }

  /** strcpy and sprintf: the characters and a terminator. */
  method StoreEnded(a: array<char>, at: nat, s: string)
    requires at + |s| < a.Length
    modifies a
    ensures a[..at] == old(a[..at]) && Wrote(a, at, s)
  {
    Store(a, at, s);
    a[at + |s|] := NUL;
  }

  predicate Special(c: char) { c <= '\U{1f}' || c == '\"' || c == '\\' }

  /** The first pass of print_string_ptr: is there anything to escape? */
  method NeedsEscape(str: string) returns (flag: bool)
    ensures flag <==> exists i :: 0 <= i < |str| && Special(str[i])
    ensures !flag ==> Escaped(str) == str
  {
    flag := false;
    for i := 0 to |str|
      invariant flag <==> exists k :: 0 <= k < i && Special(str[k])
    {
      flag := flag || Special(str[i]);
    }
    if !flag { NothingEscaped(str); }
  }

  lemma {:induction false} NothingEscaped(s: string)
    requires forall i :: 0 <= i < |s| ==> !Special(s[i])
    ensures Escaped(s) == s
    decreases |s|
  {
    if s != "" {
      NothingEscaped(s[1..]);
      assert [s[0]] + s[1..] == s;
    }
  }

  lemma {:induction false} EscapedAppend(s: string, c: char)
    ensures Escaped(s + [c]) == Escaped(s) + Escape(c)
    decreases |s|
  {
    if s != "" {
      assert (s + [c])[1..] == s[1..] + [c];
      EscapedAppend(s[1..], c);
    } else {
      assert [c][1..] == "";
    }
  }

  /** The second pass: the length of the escaped string. */
  method EscapedLength(str: string) returns (len: nat)
    requires NUL !in str
    ensures len == |Escaped(str)|
  {
    len := 0;
    assert str[..0] == "";
    for i := 0 to |str|
      invariant len == |Escaped(str[..i])|
    {
      var token := str[i];
      len := len + 1;
      if token in "\"\\\U{08}\U{0c}\n\r\t" {
        len := len + 1;
      } else if token < ' ' {
        len := len + 5;
      }
      EscapedAppend(str[..i], str[i]);
      assert str[..i + 1] == str[..i] + [str[i]];
    }
    assert str[..|str|] == str;
  }

  /** The rest of the escape of a control character, behind a backslash. */
  method StoreHex(a: array<char>, at: nat, token: char)
    requires 0 < at && at + 5 <= a.Length && a[at - 1] == '\\' && NUL < token < ' ' && |Escape(token)| == 6
    modifies a
    ensures a[..at - 1] == old(a[..at - 1]) && a[at - 1..at + 5] == Escape(token)
  {
    Store(a, at, "u00" + [Hex(token as int / 16), Hex(token as int % 16)]);
    assert a[at - 1] == a[..at][at - 1] == '\\';
    assert a[..at - 1] == a[..at][..at - 1];
    assert a[at - 1..at + 5] == [a[at - 1]] + a[at..at + 5];
  }

  /** The escape of one character; the position behind it. */
  method StoreEscape(a: array<char>, at: nat, token: char) returns (p: nat)
    requires at + |Escape(token)| <= a.Length && token != NUL
    modifies a
    ensures p == at + |Escape(token)| && a[..at] == old(a[..at]) && a[at..p] == Escape(token)
  {
    p := at;
    if token > '\U{1f}' && token != '\"' && token != '\\' {
      a[p] := token;
      p := p + 1;
    } else {
      a[p] := '\\';
      p := p + 1;
      if token == '\\' { a[p] := '\\'; p := p + 1; }
      else if token == '\"' { a[p] := '\"'; p := p + 1; }
      else if token == '\U{08}' { a[p] := 'b'; p := p + 1; }
      else if token == '\U{0c}' { a[p] := 'f'; p := p + 1; }
      else if token == '\n' { a[p] := 'n'; p := p + 1; }
      else if token == '\r' { a[p] := 'r'; p := p + 1; }
      else if token == '\t' { a[p] := 't'; p := p + 1; }
      else {
        StoreHex(a, p, token);
        p := p + 5;
      }
    }
    if p == at + 1 { assert a[at..p] == [a[at]]; }
    if p == at + 2 { assert a[at..p] == [a[at], a[at + 1]]; }
  }

  /** The third pass: the quoted string. */
  method StoreQuoted(a: array<char>, at: nat, str: string)
    requires NUL !in str && at + |Quoted(str)| < a.Length
    modifies a
    ensures a[..at] == old(a[..at]) && Wrote(a, at, Quoted(str))
  {
    hide Escaped, Escape;
    a[at] := '\"';
    var p := at + 1;
    EscapedNothing();
    for i := 0 to |str|
      invariant at < p == at + 1 + |Escaped(str[..i])| && at + 1 + |Escaped(str)| + 1 < a.Length && p + 1 < a.Length
      invariant a[..at] == old(a[..at]) && a[at..p] == "\"" + Escaped(str[..i])
    {
      EscapedAppend(str[..i], str[i]);
      assert str[..i + 1] == str[..i] + [str[i]];
      EscapedPrefix(str, i + 1);
      p := StoreNext(a, at, p, str[i]);
      Assoc("\"", Escaped(str[..i]), Escape(str[i]));
    }
    assert str[..|str|] == str;
    a[p] := '\"';
    a[p + 1] := NUL;
  }

  /** An escape behind what was stored from `at` on. */
  method StoreNext(a: array<char>, ghost at: nat, p0: nat, token: char) returns (p: nat)
    requires at <= p0 && p0 + |Escape(token)| <= a.Length && token != NUL
    modifies a
    ensures p == p0 + |Escape(token)| && a[..at] == old(a[..at]) && a[at..p] == old(a[at..p0]) + Escape(token)
  {
    hide Escape;
    ghost var before := a[..p0];
    p := StoreEscape(a, p0, token);
    assert a[..at] == before[..at];
    assert a[at..p] == before[at..] + a[p0..p];
  }

  lemma EscapedNothing()
    ensures forall s: string :: Escaped(s[..0]) == ""
  {}

  lemma {:induction false} EscapedPrefix(s: string, i: nat)
    requires i <= |s|
    ensures |Escaped(s[..i])| <= |Escaped(s)|
    decreases |s| - i
  {
    if i < |s| {
      EscapedPrefix(s, i + 1);
      EscapedAppend(s[..i], s[i]);
      assert s[..i + 1] == s[..i] + [s[i]];
    } else {
      assert s[..i] == s;
    }
  }
}
