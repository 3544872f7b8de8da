/** Unicode escapes in code/json/cjson/cJSON.c: section 7 of RFC 8259 writes a scalar value
    as one or two escapes, and the parser turns them into the bytes of section 3 of RFC 3629. */
module JsonUnicode {
  import opened JsonPieces
  import opened JsonText

  predicate Scalar(u: int) { 0 <= u < 0x11_0000 && !High(u) && !Low(u) }

  function Escape4(u: int): (e: string)
    requires 0 <= u < 0x1_0000
    ensures |e| == 6
  {
    "\\u" + [Hex(u / 0x1000), Hex(u / 0x100 % 0x10), Hex(u / 0x10 % 0x10), Hex(u % 0x10)]
  }

  /** Beyond the first 64K code points, a pair of surrogates. */
  function ScalarEscape(u: int): string
    requires Scalar(u)
  {
    if u < 0x1_0000 then Escape4(u)
    else Escape4(0xD800 + (u - 0x1_0000) / 0x400) + Escape4(0xDC00 + (u - 0x1_0000) % 0x400)
  }

  lemma HexBack4(u: int, t: string, i: nat)
    requires 0 <= u < 0x1_0000 && StartsWith(t, i, Escape4(u))
    ensures i + 6 <= |t| && t[i] == '\\' && t[i + 1] == 'u' && FourHex(t, i + 2) && Hex4(t, i + 2) == u
  {
    EscapeChars4(u, t, i);
    HexBack(u / 0x1000);
    HexBack(u / 0x100 % 0x10);
    HexBack(u / 0x10 % 0x10);
    HexBack(u % 0x10);
    Nibbles(u);
    hide Escape4, Hex, HexValue, StartsWith;
  }

  /** The six characters of an escape. */
  lemma EscapeChars4(u: int, t: string, i: nat)
    requires 0 <= u < 0x1_0000 && StartsWith(t, i, Escape4(u))
    ensures i + 6 <= |t| && t[i] == '\\' && t[i + 1] == 'u'
    ensures t[i + 2] == Hex(u / 0x1000) && t[i + 3] == Hex(u / 0x100 % 0x10)
    ensures t[i + 4] == Hex(u / 0x10 % 0x10) && t[i + 5] == Hex(u % 0x10)
  {
    hide Hex;
    var p := Escape4(u);
    forall k | 0 <= k < 6 ensures t[i + k] == p[k] { assert t[i..i + 6][k] == p[k]; }
    assert t[i + 0] == p[0] && t[i + 1] == p[1] && t[i + 2] == p[2] && t[i + 3] == p[3] && t[i + 4] == p[4] && t[i + 5] == p[5];
  }

  lemma Nibbles(u: int)
    requires 0 <= u < 0x1_0000
    ensures ((u / 0x1000 * 16 + u / 0x100 % 0x10) * 16 + u / 0x10 % 0x10) * 16 + u % 0x10 == u
  {
    assert u / 0x10 / 0x10 == u / 0x100 && u / 0x100 / 0x10 == u / 0x1000;
  }

  lemma UnescapeOne(t: string, i: nat, u: int)
    requires i + 6 <= |t| && t[i] == '\\' && t[i + 1] == 'u' && FourHex(t, i + 2) && Hex4(t, i + 2) == u
    requires Scalar(u) && u != 0
    ensures Unescape(t, i) == Ok(Utf8(u), i + 6)
  {
    hide Hex4, FourHex, Utf8, HexValue;
  }

  lemma UnescapePair(t: string, i: nat, u: int, u2: int)
    requires i + 12 <= |t| && t[i] == '\\' && t[i + 1] == 'u' && FourHex(t, i + 2) && Hex4(t, i + 2) == u && High(u)
    requires t[i + 6] == '\\' && t[i + 7] == 'u' && FourHex(t, i + 8) && Hex4(t, i + 8) == u2 && Low(u2)
    ensures Unescape(t, i) == Ok(Utf8(0x1_0000 + (u - 0xD800) * 0x400 + (u2 - 0xDC00)), i + 12)
  {
    hide Hex4, FourHex, Utf8, HexValue;
  }

  lemma Halves(v: int)
    requires 0 <= v < 0x10_0000
    ensures 0 <= v / 0x400 < 0x400 && 0 <= v % 0x400 < 0x400 && v / 0x400 * 0x400 + v % 0x400 == v
  {}

  /** Every scalar value but NUL is read back from its escapes as its UTF-8 bytes. */
  lemma ScalarBack(u: int, t: string, i: nat)
    requires Scalar(u) && u != 0 && StartsWith(t, i, ScalarEscape(u))
    ensures i < |t| && t[i] == '\\' && Unescape(t, i) == Ok(Utf8(u), i + |ScalarEscape(u)|)
  {
    hide Hex4, FourHex, Utf8, Unescape, StartsWith, Escape4, Hex;
    if u < 0x1_0000 {
      HexBack4(u, t, i);
      UnescapeOne(t, i, u);
    } else {
      var v := u - 0x1_0000;
      Halves(v);
      var a, b := 0xD800 + v / 0x400, 0xDC00 + v % 0x400;
      Split(t, i, Escape4(a), Escape4(b));
      HexBack4(a, t, i);
      HexBack4(b, t, i + 6);
      UnescapePair(t, i, a, b);
    }
  }

  /** The code point of a UTF-8 sequence. */
  function FromUtf8(s: string): int {
    if |s| == 1 then s[0] as int
    else if |s| == 2 then (s[0] as int - 0xC0) * 0x40 + (s[1] as int - 0x80)
    else if |s| == 3 then ((s[0] as int - 0xE0) * 0x40 + (s[1] as int - 0x80)) * 0x40 + (s[2] as int - 0x80)
    else if |s| == 4 then
      (((s[0] as int - 0xF0) * 0x40 + (s[1] as int - 0x80)) * 0x40 + (s[2] as int - 0x80)) * 0x40 + (s[3] as int - 0x80)
    else -1
  }

  predicate Continuation(c: char) { 0x80 <= c as int < 0xC0 }

  /** The bytes determine the code point, the first one tells their number, and the others
      are continuation bytes. */
  lemma Utf8Back(u: int)
    requires 0 <= u < 0x11_0000
    ensures var s := Utf8(u);
      (&& FromUtf8(s) == u && (forall k :: 1 <= k < |s| ==> Continuation(s[k]))
       && |s| == var b := s[0] as int; if b < 0x80 then 1 else if b < 0xE0 then 2 else if b < 0xF0 then 3 else 4)
  {
    assert u / 0x40 / 0x40 == u / 0x1000 && u / 0x1000 / 0x40 == u / 0x4_0000;
    assert u == u / 0x40 * 0x40 + u % 0x40;
    assert u / 0x40 == u / 0x1000 * 0x40 + u / 0x40 % 0x40;
    assert u / 0x1000 == u / 0x4_0000 * 0x40 + u / 0x1000 % 0x40;
  }
}
