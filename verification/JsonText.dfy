/** What the printer of code/json/cjson/cJSON.c writes and what its parser reads, as
    functions. A character stands for one byte; a text never holds the terminator. */
module JsonText {
  import opened Decimals

  datatype Value =
    | Null
    | False
    | True
    | Number(n: int)
    | String(s: string)
    | Array(items: seq<Value>)
    | Object(members: seq<Member>)

  datatype Member = Member(name: string, value: Value)

  const NUL: char := '\0'
  const INT_MAX := 0x7fff_ffff
  const INT_MIN := -0x8000_0000

  /** Trees without NUL in strings and with numbers that are ints. */
  predicate Plain(v: Value) {
    match v
    case Number(n) => INT_MIN <= n <= INT_MAX
    case String(s) => NUL !in s
    case Array(items) => forall i :: 0 <= i < |items| ==> Plain(items[i])
    case Object(ms) => forall i :: 0 <= i < |ms| ==> NUL !in ms[i].name && Plain(ms[i].value)
    case _ => true
  }

  // ---- printing ----------------------------------------------------------------

  function Hex(d: int): char
    requires 0 <= d < 16
  {
    "0123456789abcdef"[d]
  }

  /** Section 7 of RFC 8259 asks for an escape of quote, backslash and controls. */
  function Escape(c: char): (e: string)
    ensures |e| >= 1
  {
    if c > '\U{1f}' && c != '\"' && c != '\\' then [c]
    else if c == '\\' then "\\\\"
    else if c == '\"' then "\\\""
    else if c == '\U{08}' then "\\b"
    else if c == '\U{0c}' then "\\f"
    else if c == '\n' then "\\n"
    else if c == '\r' then "\\r"
    else if c == '\t' then "\\t"
    else "\\u00" + [Hex(c as int / 16), Hex(c as int % 16)]
  }

  function Escaped(s: string): string {
    if s == "" then "" else Escape(s[0]) + Escaped(s[1..])
  }

  function Quoted(s: string): string { "\"" + Escaped(s) + "\"" }

  /** "%d". */
  function Decimal(n: int): string { if n < 0 then "-" + Digits(-n) else Digits(n) }

  function Tabs(n: nat): string { seq(n, _ => '\t') }

  /** `s` when formatting. */
  function If(fmt: bool, s: string): string { if fmt then s else "" }

  function Print(v: Value, depth: nat, fmt: bool): (t: string)
    decreases v, 2, 0
  {
    match v
    case Null => "null"
    case False => "false"
    case True => "true"
    case Number(n) => Decimal(n)
    case String(s) => Quoted(s)
    case Array(items) => "[" + Items(v, 0, depth + 1, fmt) + "]"
    case Object(ms) =>
      if ms == [] then "{" + If(fmt, "\n" + Tabs(if depth == 0 then 0 else depth - 1)) + "}"
      else "{" + If(fmt, "\n") + Members(v, 0, depth + 1, fmt) + If(fmt, Tabs(depth)) + "}"
  }

  function Comma(last: bool, sep: string): string { if last then "" else sep }

  /** The elements of an array from the `k`-th on. */
  function Items(v: Value, k: nat, depth: nat, fmt: bool): string
    requires v.Array? && k <= |v.items|
    decreases v, 1, |v.items| - k
  {
    if k == |v.items| then ""
    else Print(v.items[k], depth, fmt) + Comma(k + 1 == |v.items|, "," + If(fmt, " ")) + Items(v, k + 1, depth, fmt)
  }

  /** The lines of the members of an object from the `k`-th on. */
  function Members(v: Value, k: nat, depth: nat, fmt: bool): string
    requires v.Object? && k <= |v.members|
    decreases v, 1, |v.members| - k
  {
    if k == |v.members| then ""
    else Line(v, k, depth, fmt) + Members(v, k + 1, depth, fmt)
  }

  function Line(v: Value, k: nat, depth: nat, fmt: bool): string
    requires v.Object? && k < |v.members|
    decreases v, 0, 0
  {
    If(fmt, Tabs(depth)) + Quoted(v.members[k].name) + ":" + If(fmt, "\t") + Print(v.members[k].value, depth, fmt)
    + Comma(k + 1 == |v.members|, ",") + If(fmt, "\n")
  }

  // ---- parsing -------------------------------------------------------------------

  /** Ok with the value and where the text goes on, or a null result with the error
      position, or a text outside this model (a malformed escape, a number that is no int). */
  datatype Outcome<T> = Ok(value: T, end: nat) | Fail(ep: nat) | Outside

  /** The character at a position; the terminator behind the text. */
  function Get(t: string, i: nat): char { if i < |t| then t[i] else NUL }

  function Skip(t: string, i: nat): (j: nat)
    ensures i <= j && (i <= |t| ==> j <= |t|)
    decreases |t| - i
  {
    if Get(t, i) != NUL && Get(t, i) <= ' ' then Skip(t, i + 1) else i
  }

  predicate StartsWith(t: string, i: nat, w: string) { i + |w| <= |t| && t[i..i + |w|] == w }

  /** The position behind the digits at `i`. */
  function DigitsEnd(t: string, i: nat): (j: nat)
    ensures i <= j && (i <= |t| ==> j <= |t|)
    decreases |t| - i
  {
    if IsDigit(Get(t, i)) then DigitsEnd(t, i + 1) else i
  }

  lemma {:induction false} DigitsEndAll(t: string, i: nat)
    requires i <= |t|
    ensures forall k :: i <= k < DigitsEnd(t, i) ==> IsDigit(t[k])
    ensures !IsDigit(Get(t, DigitsEnd(t, i)))
    decreases |t| - i
  {
    if IsDigit(Get(t, i)) { DigitsEndAll(t, i + 1); }
  }

  /** The text after the digits makes the number a fraction. */
  predicate Fractional(t: string, i: nat) {
    (Get(t, i) == '.' && IsDigit(Get(t, i + 1))) || Get(t, i) == 'e' || Get(t, i) == 'E'
  }

  /** An optional sign, a zero that is skipped, then digits that do not start with another. */
  function ParseNumber(t: string, i: nat): (r: Outcome<Value>)
    requires i < |t| && (t[i] == '-' || IsDigit(t[i]))
    ensures r.Ok? ==> r.value.Number? && i < r.end <= |t|
  {
    var a := if t[i] == '-' then i + 1 else i;
    var b := if Get(t, a) == '0' then a + 1 else a;
    var e := if '1' <= Get(t, b) <= '9' then DigitsEnd(t, b) else b;
    DigitsEndAll(t, b);
    var n: int := DigitsValue(t[b..e]);
    var m := if t[i] == '-' then -n else n;
    if Fractional(t, e) || !(INT_MIN <= m <= INT_MAX) then Outside else Ok(Number(m), e)
  }

  function HexValue(c: char): int {
    if '0' <= c <= '9' then c as int - '0' as int
    else if 'A' <= c <= 'F' then 10 + c as int - 'A' as int
    else if 'a' <= c <= 'f' then 10 + c as int - 'a' as int
    else -1
  }

  predicate FourHex(t: string, i: nat) {
    i + 4 <= |t| && forall k :: i <= k < i + 4 ==> HexValue(t[k]) >= 0
  }

  function Hex4(t: string, i: nat): (h: int)
    requires FourHex(t, i)
    ensures 0 <= h < 0x1_0000
  {
    ((HexValue(t[i]) * 16 + HexValue(t[i + 1])) * 16 + HexValue(t[i + 2])) * 16 + HexValue(t[i + 3])
  }

  /** Section 3 of RFC 3629. */
  function Utf8(u: int): (s: string)
    requires 0 <= u < 0x11_0000
    ensures 1 <= |s| <= 4
  {
    if u < 0x80 then [u as char]
    else if u < 0x800 then [(0xC0 + u / 0x40) as char, (0x80 + u % 0x40) as char]
    else if u < 0x1_0000 then [(0xE0 + u / 0x1000) as char, (0x80 + u / 0x40 % 0x40) as char, (0x80 + u % 0x40) as char]
    else [(0xF0 + u / 0x4_0000) as char, (0x80 + u / 0x1000 % 0x40) as char, (0x80 + u / 0x40 % 0x40) as char,
          (0x80 + u % 0x40) as char]
  }

  predicate High(u: int) { 0xD800 <= u <= 0xDBFF }

  predicate Low(u: int) { 0xDC00 <= u <= 0xDFFF }

  /** The bytes an escape stands for and where the text goes on behind it. */
  function Unescape(t: string, i: nat): (r: Outcome<string>)
    requires i < |t| && t[i] == '\\'
    ensures r.Ok? ==> i + 2 <= r.end <= |t| && |r.value| < r.end - i
  {
    if i + 1 == |t| then Outside
    else if t[i + 1] == 'b' then Ok("\U{08}", i + 2)
    else if t[i + 1] == 'f' then Ok("\U{0c}", i + 2)
    else if t[i + 1] == 'n' then Ok("\n", i + 2)
    else if t[i + 1] == 'r' then Ok("\r", i + 2)
    else if t[i + 1] == 't' then Ok("\t", i + 2)
    else if t[i + 1] == 'u' then
      if !FourHex(t, i + 2) then Outside
      else
        var u := Hex4(t, i + 2);
        if Low(u) || u == 0 then Ok("", i + 6)
        else if High(u) then
          if !(Get(t, i + 6) == '\\' && Get(t, i + 7) == 'u') then Ok("", i + 6)
          else if !FourHex(t, i + 8) then Outside
          else
            var u2 := Hex4(t, i + 8);
            if !Low(u2) then Ok("", i + 12)
            else Ok(Utf8(0x1_0000 + (u - 0xD800) * 0x400 + (u2 - 0xDC00)), i + 12)
        else Ok(Utf8(u), i + 6)
    else Ok([t[i + 1]], i + 2)
  }

  /** The string whose inside starts at `i`; the closing quote may be missing at the end. */
  function Inside(t: string, i: nat): (r: Outcome<string>)
    requires i <= |t|
    ensures r.Ok? ==> i <= r.end <= |t|
    decreases |t| - i
  {
    if i == |t| then Ok("", i)
    else if t[i] == '\"' then Ok("", i + 1)
    else if t[i] != '\\' then Cons([t[i]], Inside(t, i + 1))
    else
      var e := Unescape(t, i);
      if e.Ok? then Cons(e.value, Inside(t, e.end)) else Outside
  }

  function Cons(s: string, r: Outcome<string>): Outcome<string> {
    if r.Ok? then Ok(s + r.value, r.end) else r
  }

  function ParseString(t: string, i: nat): (r: Outcome<string>)
    requires i <= |t|
    ensures r.Ok? ==> i < r.end <= |t|
  {
    if Get(t, i) != '\"' then Fail(i) else Inside(t, i + 1)
  }

  function ParseValue(t: string, i: nat): (r: Outcome<Value>)
    requires i <= |t|
    ensures r.Ok? ==> i < r.end <= |t|
    decreases |t| - i, 1
  {
    if StartsWith(t, i, "null") then Ok(Null, i + 4)
    else if StartsWith(t, i, "false") then Ok(False, i + 5)
    else if StartsWith(t, i, "true") then Ok(True, i + 4)
    else if Get(t, i) == '\"' then
      var r := ParseString(t, i);
      if r.Ok? then Ok(String(r.value), r.end) else if r.Fail? then Fail(r.ep) else Outside
    else if Get(t, i) == '-' || IsDigit(Get(t, i)) then ParseNumber(t, i)
    else if Get(t, i) == '[' then
      var j := Skip(t, i + 1);
      if Get(t, j) == ']' then Ok(Array([]), j + 1) else ParseItems(t, j, [])
    else if Get(t, i) == '{' then
      var j := Skip(t, i + 1);
      if Get(t, j) == '}' then Ok(Object([]), j + 1) else ParseMembers(t, j, [])
    else Fail(i)
  }

  /** The elements from position `i` on, behind those in `acc`. */
  function ParseItems(t: string, i: nat, acc: seq<Value>): (r: Outcome<Value>)
    requires i <= |t|
    ensures r.Ok? ==> i < r.end <= |t|
    decreases |t| - i, 2
  {
    var r := ParseValue(t, Skip(t, i));
    if !r.Ok? then r
    else
      var j := Skip(t, r.end);
      if Get(t, j) == ',' then ParseItems(t, j + 1, acc + [r.value])
      else if Get(t, j) == ']' then Ok(Array(acc + [r.value]), j + 1)
      else Fail(j)
  }

  function ParseMembers(t: string, i: nat, acc: seq<Member>): (r: Outcome<Value>)
    requires i <= |t|
    ensures r.Ok? ==> i < r.end <= |t|
    decreases |t| - i, 2
  {
    var s := ParseString(t, Skip(t, i));
    if s.Fail? then Fail(s.ep) else if s.Outside? then Outside
    else
      var c := Skip(t, s.end);
      if Get(t, c) != ':' then Fail(c)
      else
        var r := ParseValue(t, Skip(t, c + 1));
        if !r.Ok? then r
        else
          var j := Skip(t, r.end);
          if Get(t, j) == ',' then ParseMembers(t, j + 1, acc + [Member(s.value, r.value)])
          else if Get(t, j) == '}' then Ok(Object(acc + [Member(s.value, r.value)]), j + 1)
          else Fail(j)
  }

  /** cJSON_ParseWithOpts. */
  function Parse(t: string, requireEnd: bool): (r: Outcome<Value>) {
    var r := ParseValue(t, Skip(t, 0));
    if r.Ok? && requireEnd then
      var e := Skip(t, r.end);
      if e < |t| then Fail(e) else Ok(r.value, e)
    else r
  }
}
