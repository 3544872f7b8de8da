/** Which texts spell which values, by the grammar of RFC 8259, and that the parser of
    code/json/cjson/cJSON.c reads all of them. Numbers are ints without fraction and exponent;
    white space is every control character and the blank, as the code skips them. */
module JsonGrammar {
  import opened Decimals
  import opened JsonPieces
  import opened JsonText
  import opened JsonUnicode

  // ---- the grammar -------------------------------------------------------------------------

  /** White space from `i` to `j`. */
  ghost predicate Blank(t: string, i: nat, j: nat) {
    i <= j <= |t| && forall k :: i <= k < j ==> NUL < t[k] <= ' '
  }

  ghost predicate Literal(t: string, i: nat, j: nat, w: string) { j == i + |w| <= |t| && t[i..j] == w }

  /** An int in decimal, with a minus sign if it is negative; "-0" is allowed. */
  ghost predicate SpellsNumber(t: string, i: nat, j: nat, n: int) {
    && INT_MIN <= n <= INT_MAX
    && ((n >= 0 && Literal(t, i, j, Digits(n))) || (n <= 0 && Literal(t, i, j, "-" + Digits(-n))))
  }

  /** A hexadecimal digit in either case. */
  predicate HexDigit(c: char, d: int) {
    0 <= d < 16 && (c == "0123456789abcdef"[d] || c == "0123456789ABCDEF"[d])
  }

  /** The escape of a 16-bit number at `i`. */
  predicate CodeUnit(t: string, i: nat, u: int) {
    && i + 6 <= |t| && t[i] == '\\' && t[i + 1] == 'u'
    && HexDigit(t[i + 2], u / 0x1000) && HexDigit(t[i + 3], u / 0x100 % 0x10)
    && HexDigit(t[i + 4], u / 0x10 % 0x10) && HexDigit(t[i + 5], u % 0x10)
  }

  /** The characters that a backslash goes in front of, and what the two mean. */
  predicate Short(c: char, m: char) {
    || (c in {'\"', '\\', '/'} && m == c)
    || (c == 'b' && m == '\U{08}') || (c == 'f' && m == '\U{0c}')
    || (c == 'n' && m == '\n') || (c == 'r' && m == '\r') || (c == 't' && m == '\t')
  }

  /** An escape from `i` to `m` that stands for the bytes `s`: a short one, a code point, or a
      pair of surrogates. */
  ghost predicate SpellsEscape(t: string, i: nat, m: nat, s: string) {
    || (m == i + 2 <= |t| && t[i] == '\\' && |s| == 1 && Short(t[i + 1], s[0]))
    || (m == i + 6 && exists u :: CodeUnit(t, i, u) && Scalar(u) && u != 0 && s == Utf8(u))
    || (m == i + 12 && exists a, b :: SpellsPair(t, i, a, b, s))
  }

  ghost predicate SpellsPair(t: string, i: nat, a: int, b: int, s: string) {
    && CodeUnit(t, i, a) && CodeUnit(t, i + 6, b) && High(a) && Low(b)
    && s == Utf8(0x1_0000 + (a - 0xD800) * 0x400 + (b - 0xDC00))
  }

  /** The inside of a string from `i` to `j`: characters that stand for themselves, and escapes. */
  ghost predicate SpellsChars(t: string, i: nat, j: nat, s: string)
    decreases j - i
  {
    if i >= j then i == j <= |t| && s == ""
    else
      || (i < |t| && t[i] !in {'\"', '\\', NUL} && s != "" && s[0] == t[i] && SpellsChars(t, i + 1, j, s[1..]))
      || exists m: nat, e :: i < m <= j && SpellsEscape(t, i, m, e) && e <= s && SpellsChars(t, m, j, s[|e|..])
  }

  ghost predicate SpellsString(t: string, i: nat, j: nat, s: string) {
    i + 2 <= j <= |t| && t[i] == '\"' && t[j - 1] == '\"' && SpellsChars(t, i + 1, j - 1, s)
  }

  /** A string or a number of the grammar, or, if not strict, of whatever form the parser takes for
      one: it also reads strings without an end, other escapes and leading zeros. */
  ghost predicate StringToken(t: string, i: nat, j: nat, s: string, strict: bool) {
    if strict then SpellsString(t, i, j, s) else i <= |t| && ParseString(t, i) == Ok(s, j)
  }

  ghost predicate NumberToken(t: string, i: nat, j: nat, n: int, strict: bool) {
    if strict then SpellsNumber(t, i, j, n)
    else i < |t| && (t[i] == '-' || IsDigit(t[i])) && ParseNumber(t, i) == Ok(Number(n), j)
  }

  /** The text from `i` to `j` spells the value. */
  ghost predicate Spells(t: string, i: nat, j: nat, v: Value, strict: bool)
    decreases v, 1, 0, 0
  {
    match v
    case Null => Literal(t, i, j, "null")
    case False => Literal(t, i, j, "false")
    case True => Literal(t, i, j, "true")
    case Number(n) => NumberToken(t, i, j, n, strict)
    case String(s) => StringToken(t, i, j, s, strict)
    case Array(items) =>
      i < |t| && t[i] == '['
      && if items == [] then i < j - 1 < |t| && Blank(t, i + 1, j - 1) && t[j - 1] == ']' else SpellsItems(t, i + 1, j, v, 0, strict)
    case Object(ms) =>
      i < |t| && t[i] == '{'
      && if ms == [] then i < j - 1 < |t| && Blank(t, i + 1, j - 1) && t[j - 1] == '}' else SpellsMembers(t, i + 1, j, v, 0, strict)
  }

  /** The elements from the `k`-th on and the closing bracket, with white space around each. */
  ghost predicate SpellsItems(t: string, i: nat, j: nat, v: Value, k: nat, strict: bool)
    requires v.Array? && k < |v.items|
    decreases v, 0, |v.items| - k, 1
  {
    exists a: nat, b: nat, c: nat :: Item(t, i, j, v, k, a, b, c, strict)
  }

  ghost predicate Item(t: string, i: nat, j: nat, v: Value, k: nat, a: nat, b: nat, c: nat, strict: bool)
    requires v.Array? && k < |v.items|
    decreases v, 0, |v.items| - k, 0
  {
    && Blank(t, i, a) && Spells(t, a, b, v.items[k], strict) && Blank(t, b, c) && c < |t|
    && if k + 1 == |v.items| then t[c] == ']' && j == c + 1 else t[c] == ',' && SpellsItems(t, c + 1, j, v, k + 1, strict)
  }

  /** The members from the `k`-th on and the closing brace, with white space around everything. */
  ghost predicate SpellsMembers(t: string, i: nat, j: nat, v: Value, k: nat, strict: bool)
    requires v.Object? && k < |v.members|
    decreases v, 0, |v.members| - k, 1
  {
    exists a: nat, b: nat, c: nat, d: nat, e: nat, f: nat :: Pair(t, i, j, v, k, a, b, c, d, e, f, strict)
  }

  ghost predicate Pair(t: string, i: nat, j: nat, v: Value, k: nat, a: nat, b: nat, c: nat, d: nat, e: nat, f: nat, strict: bool)
    requires v.Object? && k < |v.members|
    decreases v, 0, |v.members| - k, 0
  {
    && Blank(t, i, a) && StringToken(t, a, b, v.members[k].name, strict) && Blank(t, b, c) && c < |t| && t[c] == ':'
    && Blank(t, c + 1, d) && Spells(t, d, e, v.members[k].value, strict) && Blank(t, e, f) && f < |t|
    && if k + 1 == |v.members| then t[f] == '}' && j == f + 1 else t[f] == ',' && SpellsMembers(t, f + 1, j, v, k + 1, strict)
  }

  // ---- white space ----------------------------------------------------------------------------

  lemma {:induction false} SkipBlank(t: string, i: nat, j: nat)
    requires Blank(t, i, j)
    ensures Skip(t, i) == Skip(t, j)
    decreases j - i
  {
    if i < j { SkipBlank(t, i + 1, j); }
  }

  /** Blanks and then something visible. */
  lemma SkipTo(t: string, i: nat, j: nat)
    requires Blank(t, i, j) && j < |t| && t[j] > ' '
    ensures Skip(t, i) == j
  {
    SkipBlank(t, i, j);
    NoSkip(t, j);
  }

  // ---- strings ----------------------------------------------------------------------------------

  lemma HexIs(c: char, d: int)
    requires HexDigit(c, d)
    ensures HexValue(c) == d
  {}

  lemma CodeUnitRead(t: string, i: nat, u: int)
    requires CodeUnit(t, i, u)
    ensures 0 <= u < 0x1_0000 && FourHex(t, i + 2) && Hex4(t, i + 2) == u
  {
    HexIs(t[i + 2], u / 0x1000);
    HexIs(t[i + 3], u / 0x100 % 0x10);
    HexIs(t[i + 4], u / 0x10 % 0x10);
    HexIs(t[i + 5], u % 0x10);
    Nibbles(u);
    hide HexValue, HexDigit;
  }

  lemma EscapeRead(t: string, i: nat, m: nat, s: string)
    requires SpellsEscape(t, i, m, s)
    ensures i < |t| && t[i] == '\\' && Unescape(t, i) == Ok(s, m)
  {
    hide CodeUnit, Hex4, FourHex, Utf8;
    if m == i + 6 {
      var u :| CodeUnit(t, i, u) && Scalar(u) && u != 0 && s == Utf8(u);
      CodeUnitRead(t, i, u);
      CodeUnitStart(t, i, u);
      UnescapeOne(t, i, u);
    } else if m == i + 12 {
      var a, b :| SpellsPair(t, i, a, b, s);
      CodeUnitRead(t, i, a);
      CodeUnitRead(t, i + 6, b);
      CodeUnitStart(t, i, a);
      CodeUnitStart(t, i + 6, b);
      UnescapePair(t, i, a, b);
    } else {
      assert s == [s[0]];
    }
  }

  lemma CodeUnitStart(t: string, i: nat, u: int)
    requires CodeUnit(t, i, u)
    ensures i + 6 <= |t| && t[i] == '\\' && t[i + 1] == 'u'
  {}

  lemma {:induction false} CharsRead(t: string, i: nat, j: nat, s: string)
    requires SpellsChars(t, i, j, s) && j < |t| && t[j] == '\"'
    ensures i <= |t| && Inside(t, i) == Ok(s, j + 1)
    decreases j - i
  {
    hide Unescape, SpellsEscape;
    if i < j {
      if i < |t| && t[i] !in {'\"', '\\', NUL} && s != "" && s[0] == t[i] && SpellsChars(t, i + 1, j, s[1..]) {
        CharsRead(t, i + 1, j, s[1..]);
        assert [s[0]] + s[1..] == s;
      } else {
        var m: nat, e :| i < m <= j && SpellsEscape(t, i, m, e) && e <= s && SpellsChars(t, m, j, s[|e|..]);
        EscapeRead(t, i, m, e);
        CharsRead(t, m, j, s[|e|..]);
        assert e + s[|e|..] == s;
      }
    }
  }

  lemma StringRead(t: string, i: nat, j: nat, s: string)
    requires SpellsString(t, i, j, s)
    ensures i < |t| && t[i] == '\"' && ParseString(t, i) == Ok(s, j)
  {
    CharsRead(t, i + 1, j - 1, s);
  }

  lemma StringTokenRead(t: string, i: nat, j: nat, s: string, strict: bool)
    requires StringToken(t, i, j, s, strict)
    ensures i < |t| && t[i] == '\"' && ParseString(t, i) == Ok(s, j)
  {
    if strict { StringRead(t, i, j, s); }
  }

  // ---- numbers ------------------------------------------------------------------------------------

  lemma NumberRead(t: string, i: nat, j: nat, n: int)
    requires SpellsNumber(t, i, j, n) && Stops(Get(t, j))
    ensures i < |t| && (t[i] == '-' || IsDigit(t[i])) && ParseNumber(t, i) == Ok(Number(n), j)
  {
    hide Digits, DigitsEnd, DigitsValue;
    var minus := !(n >= 0 && Literal(t, i, j, Digits(n)));
    var m: nat := if minus then -n else n;
    var a: nat := if minus then i + 1 else i;
    DigitsAre(m);
    if minus {
      Split(t, i, "-", Digits(m));
      Head(t, i, "-" + Digits(m), 0);
    }
    Head(t, a, Digits(m), 0);
    DigitsEndAfter(t, a, Digits(m));
    DigitsText(t, a, m);
    NoDigits();
  }

  // ---- values -----------------------------------------------------------------------------------------

  lemma NumberStart(t: string, i: nat, j: nat, n: int)
    requires SpellsNumber(t, i, j, n)
    ensures i < |t| && t[i] > ' ' && t[i] !in {']', '}', ','} && i < j <= |t|
  {
    DigitsAre(if n < 0 then -n else n);
    if n >= 0 && Literal(t, i, j, Digits(n)) { Head(t, i, Digits(n), 0); } else { Head(t, i, "-" + Digits(-n), 0); }
  }

  /** A value starts visibly and not like the end of a list. */
  lemma SpellsStart(t: string, i: nat, j: nat, v: Value, strict: bool)
    requires Spells(t, i, j, v, strict)
    ensures i < |t| && t[i] > ' ' && t[i] !in {']', '}', ','}
  {
    hide SpellsNumber, SpellsItems, SpellsMembers, SpellsChars;
    match v
    case Null => Head(t, i, "null", 0);
    case False => Head(t, i, "false", 0);
    case True => Head(t, i, "true", 0);
    case Number(n) => if strict { NumberStart(t, i, j, n); }
    case String(s) => StringTokenRead(t, i, j, s, strict);
    case _ =>
  }

  /** What goes on behind a number in a list stops it. */
  lemma StopsAt(t: string, b: nat, c: nat)
    requires Blank(t, b, c) && c < |t| && t[c] in {',', ']', '}'}
    ensures Stops(Get(t, b))
  {}

  /** The parser reads every spelling of a value, as long as what follows does not go on with
      a number. */
  lemma {:induction false} SpellsRead(t: string, i: nat, j: nat, v: Value, strict: bool)
    requires Spells(t, i, j, v, strict) && (strict && v.Number? ==> Stops(Get(t, j)))
    ensures i <= |t| && ParseValue(t, i) == Ok(v, j)
    decreases v, 1, 0
  {
    SpellsStart(t, i, j, v, strict);
    Dispatch(t, i);
    hide ParseValue, ParseString, ParseNumber, SpellsNumber, SpellsString, SpellsItems, SpellsMembers, Stops;
    match v
    case Null => ParseWords(t, i);
    case False => ParseWords(t, i);
    case True => ParseWords(t, i);
    case Number(n) => if strict { NumberRead(t, i, j, n); }
    case String(s) => StringTokenRead(t, i, j, s, strict);
    case Array(items) => ArrayRead(t, i, j, v, strict);
    case Object(ms) => ObjectRead(t, i, j, v, strict);
  }

  lemma ArrayRead(t: string, i: nat, j: nat, v: Value, strict: bool)
    requires v.Array? && Spells(t, i, j, v, strict)
    ensures i <= |t| && ParseValue(t, i) == Ok(v, j)
    decreases v, 0, |v.items| + 1
  {
    SpellsStart(t, i, j, v, strict);
    Dispatch(t, i);
    hide ParseValue, ParseItems, Skip, SpellsItems;
    if v.items == [] {
      SkipTo(t, i + 1, j - 1);
    } else {
      ItemsVisible(t, i + 1, j, v, strict);
      ItemsRead(t, i + 1, j, v, 0, strict);
      SkipTwice(t, i + 1);
      ItemsFrom(t, i + 1, Skip(t, i + 1), []);
      assert v.items[..0] == [];
    }
  }

  lemma ObjectRead(t: string, i: nat, j: nat, v: Value, strict: bool)
    requires v.Object? && Spells(t, i, j, v, strict)
    ensures i <= |t| && ParseValue(t, i) == Ok(v, j)
    decreases v, 0, |v.members| + 1
  {
    SpellsStart(t, i, j, v, strict);
    Dispatch(t, i);
    BraceThere(t, i, j, v, strict);
    hide ParseValue, ParseMembers, Skip, Spells, SpellsMembers, IsDigit;
    if v.members == [] {
      SkipTo(t, i + 1, j - 1);
    } else {
      MembersVisible(t, i + 1, j, v, strict);
      MembersRead(t, i + 1, j, v, 0, strict);
      SkipTwice(t, i + 1);
      MembersFrom(t, i + 1, Skip(t, i + 1), []);
      assert v.members[..0] == [];
    }
  }

  lemma BraceThere(t: string, i: nat, j: nat, v: Value, strict: bool)
    requires v.Object? && Spells(t, i, j, v, strict)
    ensures i < |t| && t[i] == '{'
    ensures if v.members == [] then i < j - 1 < |t| && Blank(t, i + 1, j - 1) && t[j - 1] == '}' else SpellsMembers(t, i + 1, j, v, 0, strict)
  {}

  lemma ItemsVisible(t: string, i: nat, j: nat, v: Value, strict: bool)
    requires v.Array? && v.items != [] && SpellsItems(t, i, j, v, 0, strict)
    ensures i <= |t| && Get(t, Skip(t, i)) != ']'
  {
    hide Spells;
    var a: nat, b: nat, c: nat :| Item(t, i, j, v, 0, a, b, c, strict);
    SpellsStart(t, a, b, v.items[0], strict);
    SkipTo(t, i, a);
  }

  lemma MembersVisible(t: string, i: nat, j: nat, v: Value, strict: bool)
    requires v.Object? && v.members != [] && SpellsMembers(t, i, j, v, 0, strict)
    ensures i <= |t| && Get(t, Skip(t, i)) != '}'
  {
    hide Spells;
    var a: nat, b: nat, c: nat, d: nat, e: nat, f: nat :| Pair(t, i, j, v, 0, a, b, c, d, e, f, strict);
    SkipTo(t, i, a);
  }

  /** One turn of the loop of parse_array, and of parse_object. */
  lemma ItemTurn(t: string, i: nat, acc: seq<Value>, x: Value, a: nat, b: nat, c: nat)
    requires i <= |t| && a <= |t| && Skip(t, i) == a && ParseValue(t, a) == Ok(x, b) && Skip(t, b) == c < |t|
    ensures t[c] == ',' ==> ParseItems(t, i, acc) == ParseItems(t, c + 1, acc + [x])
    ensures t[c] == ']' ==> ParseItems(t, i, acc) == Ok(Array(acc + [x]), c + 1)
  {
    hide ParseValue, Skip;
  }

  lemma MemberTurn(t: string, i: nat, acc: seq<Member>, name: string, x: Value, a: nat, b: nat, c: nat, d: nat, e: nat, f: nat)
    requires i <= |t| && a <= |t| && Skip(t, i) == a && ParseString(t, a) == Ok(name, b) && Skip(t, b) == c < |t| && t[c] == ':'
    requires d <= |t| && Skip(t, c + 1) == d && ParseValue(t, d) == Ok(x, e) && Skip(t, e) == f < |t|
    ensures t[f] == ',' ==> ParseMembers(t, i, acc) == ParseMembers(t, f + 1, acc + [Member(name, x)])
    ensures t[f] == '}' ==> ParseMembers(t, i, acc) == Ok(Object(acc + [Member(name, x)]), f + 1)
  {
    hide ParseValue, ParseString, Skip;
  }

  /** Where the parser finds the pieces of an element, and of a member. */
  lemma ItemPlaces(t: string, i: nat, j: nat, v: Value, k: nat, strict: bool) returns (a: nat, b: nat, c: nat)
    requires v.Array? && k < |v.items| && SpellsItems(t, i, j, v, k, strict)
    ensures i <= |t| && a <= |t| && Skip(t, i) == a && Spells(t, a, b, v.items[k], strict) && Stops(Get(t, b)) && Skip(t, b) == c < |t|
    ensures if k + 1 == |v.items| then t[c] == ']' && j == c + 1 else t[c] == ',' && SpellsItems(t, c + 1, j, v, k + 1, strict)
  {
    hide Spells, Stops, Skip;
    a, b, c :| Item(t, i, j, v, k, a, b, c, strict);
    hide SpellsItems;
    SpellsStart(t, a, b, v.items[k], strict);
    SkipTo(t, i, a);
    SkipTo(t, b, c);
    StopsAt(t, b, c);
  }

  lemma MemberPieces(t: string, i: nat, j: nat, v: Value, k: nat, strict: bool) returns (a: nat, b: nat, c: nat, d: nat, e: nat, f: nat)
    requires v.Object? && k < |v.members| && SpellsMembers(t, i, j, v, k, strict)
    ensures i <= |t| && a <= |t| && Skip(t, i) == a && ParseString(t, a) == Ok(v.members[k].name, b)
    ensures Skip(t, b) == c < |t| && t[c] == ':' && d <= |t| && Skip(t, c + 1) == d
    ensures Spells(t, d, e, v.members[k].value, strict) && Stops(Get(t, e)) && Skip(t, e) == f < |t|
    ensures if k + 1 == |v.members| then t[f] == '}' && j == f + 1 else t[f] == ',' && SpellsMembers(t, f + 1, j, v, k + 1, strict)
  {
    hide Spells, ParseString, SpellsString, Stops, Skip;
    var m := v.members[k];
    a, b, c, d, e, f :| Pair(t, i, j, v, k, a, b, c, d, e, f, strict);
    hide SpellsMembers;
    StringTokenRead(t, a, b, m.name, strict);
    SkipTo(t, i, a);
    SkipTo(t, b, c);
    SpellsStart(t, d, e, m.value, strict);
    SkipTo(t, c + 1, d);
    SkipTo(t, e, f);
    StopsAt(t, e, f);
  }

  lemma {:induction false} ItemsRead(t: string, i: nat, j: nat, v: Value, k: nat, strict: bool)
    requires v.Array? && k < |v.items| && SpellsItems(t, i, j, v, k, strict)
    ensures i <= |t| && ParseItems(t, i, v.items[..k]) == Ok(v, j)
    decreases v, 0, |v.items| - k
  {
    hide *;
    var a, b, c := ItemPlaces(t, i, j, v, k, strict);
    SpellsRead(t, a, b, v.items[k], strict);
    ItemTurn(t, i, v.items[..k], v.items[k], a, b, c);
    assert v.items[..k] + [v.items[k]] == v.items[..k + 1];
    if k + 1 == |v.items| {
      assert v.items[..k + 1] == v.items;
    } else {
      ItemsRead(t, c + 1, j, v, k + 1, strict);
    }
  }

  lemma {:induction false} MembersRead(t: string, i: nat, j: nat, v: Value, k: nat, strict: bool)
    requires v.Object? && k < |v.members| && SpellsMembers(t, i, j, v, k, strict)
    ensures i <= |t| && ParseMembers(t, i, v.members[..k]) == Ok(v, j)
    decreases v, 0, |v.members| - k
  {
    hide *;
    var m := v.members[k];
    var a, b, c, d, e, f := MemberPieces(t, i, j, v, k, strict);
    SpellsRead(t, d, e, m.value, strict);
    MemberTurn(t, i, v.members[..k], m.name, m.value, a, b, c, d, e, f);
    assert v.members[..k] + [Member(m.name, m.value)] == v.members[..k + 1];
    if k + 1 == |v.members| {
      assert v.members[..k + 1] == v.members;
    } else {
      MembersRead(t, f + 1, j, v, k + 1, strict);
    }
  }

  // ---- nothing else is read ----------------------------------------------------------------------------------

  lemma {:induction false} SkippedIsBlank(t: string, i: nat)
    requires i <= |t|
    ensures Blank(t, i, Skip(t, i))
    decreases |t| - i
  {
    if Get(t, i) != NUL && Get(t, i) <= ' ' { SkippedIsBlank(t, i + 1); }
  }

  /** Whatever the parser takes for a value is built by the grammar from literals, strings,
      numbers, white space and the six structural characters. */
  lemma {:induction false} OnlySpelled(t: string, i: nat)
    requires i <= |t| && ParseValue(t, i).Ok?
    ensures var r := ParseValue(t, i); Spells(t, i, r.end, r.value, false)
    decreases |t| - i, 1
  {
    hide SpellsItems, SpellsMembers, ParseString, ParseNumber, ParseItems, ParseMembers, Skip;
    if !StartsWith(t, i, "null") && !StartsWith(t, i, "false") && !StartsWith(t, i, "true") && i < |t| {
      var j := Skip(t, i + 1);
      SkippedIsBlank(t, i + 1);
      if t[i] == '[' && Get(t, j) != ']' { OnlyItems(t, i + 1, j, []); }
      if t[i] == '{' && Get(t, j) != '}' { OnlyMembers(t, i + 1, j, []); }
    }
  }

  lemma Shorter<T>(a: seq<T>, x: T, s: seq<T>)
    requires |a| < |s| && a + [x] == s[..|a + [x]|]
    ensures a == s[..|a|] && s[|a|] == x
  {
    assert s[..|a| + 1][..|a|] == s[..|a|] && s[|a|] == s[..|a| + 1][|a|];
  }

  lemma {:induction false} OnlyItems(t: string, s: nat, i: nat, acc: seq<Value>)
    requires Blank(t, s, i) && ParseItems(t, i, acc).Ok?
    ensures var r := ParseItems(t, i, acc);
      r.value.Array? && |acc| < |r.value.items| && acc == r.value.items[..|acc|] && SpellsItems(t, s, r.end, r.value, |acc|, false)
    decreases |t| - i, 2
  {
    hide Spells, ParseValue, Skip;
    var a := Skip(t, i);
    var x := ParseValue(t, a);
    var c := Skip(t, x.end);
    SkippedIsBlank(t, i);
    SkippedIsBlank(t, x.end);
    OnlySpelled(t, a);
    var r := ParseItems(t, i, acc);
    if Get(t, c) == ',' {
      OnlyItems(t, c + 1, c + 1, acc + [x.value]);
      assert r == ParseItems(t, c + 1, acc + [x.value]);
      Shorter(acc, x.value, r.value.items);
    }
    hide ParseItems;
    assert Item(t, s, r.end, r.value, |acc|, a, x.end, c, false);
  }

  /** What one turn of the loop of parse_object saw when it did not fail. */
  lemma MemberSeen(t: string, i: nat, acc: seq<Member>) returns (a: nat, b: nat, c: nat, d: nat, e: nat, f: nat, m: Member)
    requires i <= |t| && ParseMembers(t, i, acc).Ok?
    ensures Skip(t, i) == a <= |t| && ParseString(t, a) == Ok(m.name, b) && Skip(t, b) == c < |t| && Get(t, c) == ':' && i < c
    ensures Skip(t, c + 1) == d <= |t| && ParseValue(t, d) == Ok(m.value, e) && Skip(t, e) == f < |t| && i < f
    ensures if Get(t, f) == ',' then ParseMembers(t, i, acc) == ParseMembers(t, f + 1, acc + [m])
      else Get(t, f) == '}' && ParseMembers(t, i, acc) == Ok(Object(acc + [m]), f + 1)
  {
    hide ParseValue, ParseString, Skip;
    a := Skip(t, i);
    b := ParseString(t, a).end;
    c := Skip(t, b);
    d := Skip(t, c + 1);
    e := ParseValue(t, d).end;
    f := Skip(t, e);
    m := Member(ParseString(t, a).value, ParseValue(t, d).value);
  }

  /** The member at hand, once its pieces were found by skipping. */
  lemma PairThere(t: string, s: nat, i: nat, j: nat, v: Value, k: nat, a: nat, b: nat, d: nat, e: nat, strict: bool)
    requires v.Object? && k < |v.members| && Blank(t, s, i) && Skip(t, i) == a && StringToken(t, a, b, v.members[k].name, strict)
    requires b <= |t| && e <= |t| && Get(t, Skip(t, b)) == ':' && Skip(t, Skip(t, b) + 1) == d
    requires Spells(t, d, e, v.members[k].value, strict)
    requires var f := Skip(t, e);
      if k + 1 == |v.members| then Get(t, f) == '}' && j == f + 1 else Get(t, f) == ',' && SpellsMembers(t, f + 1, j, v, k + 1, strict)
    ensures SpellsMembers(t, s, j, v, k, strict)
  {
    hide Spells, StringToken, Skip;
    var c, f := Skip(t, b), Skip(t, e);
    SkippedIsBlank(t, i);
    SkippedIsBlank(t, b);
    SkippedIsBlank(t, c + 1);
    SkippedIsBlank(t, e);
    assert Blank(t, s, a);
    assert Pair(t, s, j, v, k, a, b, c, d, e, f, strict);
  }

  lemma {:induction false} OnlyMembers(t: string, s: nat, i: nat, acc: seq<Member>)
    requires Blank(t, s, i) && ParseMembers(t, i, acc).Ok?
    ensures var r := ParseMembers(t, i, acc);
      r.value.Object? && |acc| < |r.value.members| && acc == r.value.members[..|acc|] && SpellsMembers(t, s, r.end, r.value, |acc|, false)
    decreases |t| - i, 2
  {
    hide *;
    var a, b, c, d, e, f, m := MemberSeen(t, i, acc);
    var r := ParseMembers(t, i, acc);
    OnlySpelled(t, d);
    IsToken(t, a, b, m.name);
    if Get(t, f) == ',' {
      NoneBlank(t, f + 1);
      OnlyMembers(t, f + 1, f + 1, acc + [m]);
      Shorter(acc, m, r.value.members);
    } else {
      assert r.value.members == acc + [m];
    }
    PairThere(t, s, i, r.end, r.value, |acc|, a, b, d, e, false);
  }

  lemma IsToken(t: string, i: nat, j: nat, s: string)
    ensures SpellsString(t, i, j, s) ==> StringToken(t, i, j, s, true)
    ensures i <= |t| && ParseString(t, i) == Ok(s, j) ==> StringToken(t, i, j, s, false)
  {}

  lemma NoneBlank(t: string, i: nat)
    requires i <= |t|
    ensures Blank(t, i, i)
  {}

  /** The parser reads a value exactly if the text spells it, with strings and numbers of whatever
      form the parser takes for them. */
  lemma ReadIff(t: string, i: nat, j: nat, v: Value)
    requires i <= |t|
    ensures ParseValue(t, i) == Ok(v, j) <==> Spells(t, i, j, v, false)
  {
    hide Spells, ParseValue;
    if ParseValue(t, i) == Ok(v, j) { OnlySpelled(t, i); }
    if Spells(t, i, j, v, false) { SpellsRead(t, i, j, v, false); }
  }

  // ---- whole texts ----------------------------------------------------------------------------------------

  /** A text of a value with white space around it is read to its end, or up to the white space
      behind the value. */
  lemma TextRead(t: string, i: nat, j: nat, v: Value, requireEnd: bool)
    requires Blank(t, 0, i) && Spells(t, i, j, v, true) && Blank(t, j, |t|)
    ensures Parse(t, requireEnd) == Ok(v, if requireEnd then |t| else j)
  {
    hide Spells, ParseValue;
    SpellsStart(t, i, j, v, true);
    SkipTo(t, 0, i);
    assert Stops(Get(t, j));
    SpellsRead(t, i, j, v, true);
    SkipBlank(t, j, |t|);
  }

  /** Anything else behind the value is an error at its first visible character if the end is
      required, and is left alone otherwise. */
  lemma TrailingText(t: string, i: nat, j: nat, k: nat, v: Value)
    requires Blank(t, 0, i) && Spells(t, i, j, v, true) && Blank(t, j, k) && k < |t| && t[k] > ' '
    requires v.Number? && k == j ==> Stops(t[k])
    ensures Parse(t, true) == Fail(k) && Parse(t, false) == Ok(v, j)
  {
    hide Spells, ParseValue;
    SpellsStart(t, i, j, v, true);
    SkipTo(t, 0, i);
    assert v.Number? ==> Stops(Get(t, j));
    SpellsRead(t, i, j, v, true);
    SkipTo(t, j, k);
  }

  // ---- what the printer writes ------------------------------------------------------------------------------

  lemma BlankThere(t: string, i: nat, w: string)
    requires White(w) && StartsWith(t, i, w)
    ensures Blank(t, i, i + |w|)
  {
    forall k | i <= k < i + |w| ensures NUL < t[k] <= ' ' { Head(t, i, w, k - i); }
  }

  /** The white space behind a comma. */
  lemma BlankBehind(t: string, i: nat, w: string, rest: string)
    requires White(w) && StartsWith(t, i, "," + (w + rest))
    ensures Blank(t, i + 1, i + 1 + |w|)
  {
    Split(t, i, ",", w + rest);
    Split(t, i + 1, w, rest);
    BlankThere(t, i + 1, w);
  }

  lemma EscapeSpelled(c: char, t: string, i: nat)
    requires c != NUL && StartsWith(t, i, Escape(c)) && |Escape(c)| > 1
    ensures SpellsEscape(t, i, i + |Escape(c)|, [c])
  {
    if |Escape(c)| == 2 {
      Head(t, i, Escape(c), 0);
      Head(t, i, Escape(c), 1);
    } else {
      var u := c as int;
      EscapeChars(t, i, u / 16, u % 16);
      ControlUtf8(c);
      assert u / 0x1000 == 0 && u / 0x100 % 0x10 == 0 && u / 0x10 % 0x10 == u / 16;
      assert CodeUnit(t, i, u);
    }
  }

  lemma {:induction false} CharsSpelled(s: string, t: string, i: nat)
    requires NUL !in s && StartsWith(t, i, Escaped(s))
    ensures SpellsChars(t, i, i + |Escaped(s)|, s)
    decreases |s|
  {
    hide Escape, StartsWith, SpellsEscape;
    if s != "" {
      var e := Escape(s[0]);
      assert Escaped(s) == e + Escaped(s[1..]);
      Split(t, i, e, Escaped(s[1..]));
      CharsSpelled(s[1..], t, i + |e|);
      if |e| > 1 {
        EscapeSpelled(s[0], t, i);
        assert s[|[s[0]]|..] == s[1..];
      } else {
        Unescaped(s[0]);
        Head(t, i, e, 0);
      }
    } else {
      StartsAt(t, i);
    }
  }

  lemma StartsAt(t: string, i: nat)
    requires StartsWith(t, i, "")
    ensures i <= |t|
  {}

  lemma StringSpelled(s: string, t: string, i: nat)
    requires NUL !in s && StartsWith(t, i, Quoted(s))
    ensures SpellsString(t, i, i + |Quoted(s)|, s)
  {
    hide StartsWith, Escaped;
    assert Quoted(s) == "\"" + (Escaped(s) + "\"");
    Split(t, i, "\"", Escaped(s) + "\"");
    Split(t, i + 1, Escaped(s), "\"");
    Head(t, i, "\"", 0);
    Head(t, i + 1 + |Escaped(s)|, "\"", 0);
    CharsSpelled(s, t, i + 1);
  }

  /** Both prints of a tree are texts of the grammar that spell the tree. */
  lemma PrintSpells(v: Value, fmt: bool)
    requires Plain(v)
    ensures Spells(Print(v, 0, fmt), 0, |Print(v, 0, fmt)|, v, true)
  {
    var t := Print(v, 0, fmt);
    assert t[0..0 + |t|] == t;
    ValueSpelled(v, 0, fmt, t, 0);
  }

  lemma {:induction false} ValueSpelled(v: Value, depth: nat, fmt: bool, t: string, i: nat)
    requires Plain(v) && StartsWith(t, i, Print(v, depth, fmt))
    ensures Spells(t, i, i + |Print(v, depth, fmt)|, v, true)
    decreases v, 1, 0
  {
    hide SpellsNumber, SpellsString, SpellsItems, SpellsMembers, Decimal, Quoted;
    match v
    case Null =>
    case False =>
    case True =>
    case Number(n) => NumberSpelled(n, t, i);
    case String(s) => StringSpelled(s, t, i);
    case Array(items) => ArraySpelled(v, depth, fmt, t, i);
    case Object(ms) => ObjectSpelled(v, depth, fmt, t, i);
  }

  lemma NumberSpelled(n: int, t: string, i: nat)
    requires INT_MIN <= n <= INT_MAX && StartsWith(t, i, Decimal(n))
    ensures SpellsNumber(t, i, i + |Decimal(n)|, n)
  {}

  lemma ArraySpelled(v: Value, depth: nat, fmt: bool, t: string, i: nat)
    requires v.Array? && Plain(v) && StartsWith(t, i, Print(v, depth, fmt))
    ensures Spells(t, i, i + |Print(v, depth, fmt)|, v, true)
    decreases v, 0, |v.items| + 1
  {
    hide Print, Items, StartsWith, SpellsItems;
    var items := Items(v, 0, depth + 1, fmt);
    ArrayText(v, depth, fmt);
    Split(t, i, "[", items + "]");
    Head(t, i, "[", 0);
    if v.items == [] {
      assert items + "]" == "]";
      Head(t, i + 1, "]", 0);
    } else {
      ItemsSpelled(v, 0, depth + 1, fmt, t, i + 1, i + 1);
    }
  }

  /** The elements from the `k`-th on, with the white space from `s` to `i` in front. */
  lemma {:induction false} ItemsSpelled(v: Value, k: nat, depth: nat, fmt: bool, t: string, s: nat, i: nat)
    requires v.Array? && Plain(v) && k < |v.items| && Blank(t, s, i) && StartsWith(t, i, Items(v, k, depth, fmt) + "]")
    ensures SpellsItems(t, s, i + |Items(v, k, depth, fmt)| + 1, v, k, true)
    decreases v, 0, |v.items| - k
  {
    hide Print, Items, StartsWith, SpellsItems, Spells, Skip;
    var p, last := Print(v.items[k], depth, fmt), k + 1 == |v.items|;
    var rest := if last then "]" else "," + (If(fmt, " ") + (Items(v, k + 1, depth, fmt) + "]"));
    ItemRest(v, k, depth, fmt);
    ItemsParts(v, k, depth, fmt);
    Split(t, i, p, rest);
    Head(t, i + |p|, rest, 0);
    ValueSpelled(v.items[k], depth, fmt, t, i);
    var c, j := i + |p|, i + |Items(v, k, depth, fmt)| + 1;
    if !last {
      AtComma(t, c, If(fmt, " "), Items(v, k + 1, depth, fmt) + "]");
      BlankBehind(t, c, If(fmt, " "), Items(v, k + 1, depth, fmt) + "]");
      ItemsSpelled(v, k + 1, depth, fmt, t, c + 1, c + 1 + |If(fmt, " ")|);
    }
    assert Item(t, s, j, v, k, i, c, c, true);
    Here(t, s, j, v, k, i, c, c);
  }

  lemma Here(t: string, i: nat, j: nat, v: Value, k: nat, a: nat, b: nat, c: nat)
    requires v.Array? && k < |v.items| && Item(t, i, j, v, k, a, b, c, true)
    ensures SpellsItems(t, i, j, v, k, true)
  {}

  lemma ObjectSpelled(v: Value, depth: nat, fmt: bool, t: string, i: nat)
    requires v.Object? && Plain(v) && StartsWith(t, i, Print(v, depth, fmt))
    ensures Spells(t, i, i + |Print(v, depth, fmt)|, v, true)
    decreases v, 0, |v.members| + 1
  {
    hide Print, Members, StartsWith, SpellsMembers, Skip, White;
    if v.members == [] {
      var w := EmptyObjectText(depth, fmt);
      Split(t, i, "{", w + "}");
      Head(t, i, "{", 0);
      AtClose(t, i + 1, w);
      SkippedIsBlank(t, i + 1);
    } else {
      var w, tail, ms := If(fmt, "\n"), If(fmt, Tabs(depth)), Members(v, 0, depth + 1, fmt);
      ObjectText(v, depth, fmt);
      LineWhite("", depth, fmt);
      Split(t, i, "{", w + (ms + (tail + "}")));
      Head(t, i, "{", 0);
      Split(t, i + 1, w, ms + (tail + "}"));
      BlankThere(t, i + 1, w);
      MembersSpelled(v, 0, depth + 1, fmt, tail, t, i + 1, i + 1 + |w|);
    }
  }

  lemma {:induction false} MembersSpelled(v: Value, k: nat, depth: nat, fmt: bool, tail: string, t: string, s: nat, i: nat)
    requires v.Object? && Plain(v) && k < |v.members| && White(tail) && Blank(t, s, i)
    requires StartsWith(t, i, Members(v, k, depth, fmt) + (tail + "}"))
    ensures SpellsMembers(t, s, i + |Members(v, k, depth, fmt)| + |tail| + 1, v, k, true)
    decreases v, 0, |v.members| - k
  {
    hide *;
    var m, nl, j := v.members[k], If(fmt, "\n"), i + |Members(v, k, depth, fmt)| + |tail| + 1;
    var i1, i2, i3, i4 := MemberPlaces(v, k, depth, fmt, tail, t, i);
    MemberRest(v, k, depth, fmt, tail);
    StringSpelled(m.name, t, i1);
    ValueSpelled(m.value, depth, fmt, t, i3);
    if k + 1 == |v.members| {
      AtClose(t, i4, nl + tail);
    } else {
      AtComma(t, i4, nl, Members(v, k + 1, depth, fmt) + (tail + "}"));
      BlankBehind(t, i4, nl, Members(v, k + 1, depth, fmt) + (tail + "}"));
      MembersSpelled(v, k + 1, depth, fmt, tail, t, i4 + 1, i4 + 1 + |nl|);
    }
    NoSkip(t, i2);
    IsToken(t, i1, i2, m.name);
    PairThere(t, s, i, j, v, k, i1, i2, i3, i4, true);
  }
}
