/** What cJSON_Minify of code/json/cjson/cJSON.c leaves: no white space outside strings, and no
    comment unless taking something out joins a slash to what follows. */
module JsonMinified {
  import opened JsonMinify
  import opened JsonPieces
  import opened JsonText

  /** No white space outside strings; all strings are ended. */
  predicate NoBlanks(s: string) {
    s == ""
    || (if s[0] == '\"' then StringClose(s, 1) != 0 && NoBlanks(s[StringClose(s, 1)..]) else !Blank(s[0]) && NoBlanks(s[1..]))
  }

  /** No comment starts outside strings. */
  predicate NoComments(s: string) {
    s == ""
    || (if s[0] == '\"' then StringClose(s, 1) != 0 && NoComments(s[StringClose(s, 1)..])
        else !(s[0] == '/' && Get(s, 1) in {'/', '*'}) && NoComments(s[1..]))
  }

  /** The next character that is kept. */
  function NextKept(t: string, i: nat): char
    requires i <= |t| && Closed(t, i)
    decreases |t| - i
  {
    if i == |t| then NUL else if Dropped(t, i) then NextKept(t, PieceEnd(t, i)) else t[i]
  }

  /** No slash that is kept is followed, but for what is taken out, by a slash or a star. */
  predicate NoneJoined(t: string, i: nat)
    requires i <= |t| && Closed(t, i)
    decreases |t| - i
  {
    i == |t|
    || (&& NoneJoined(t, PieceEnd(t, i))
        && (t[i] == '/' && !Dropped(t, i) ==> NextKept(t, PieceEnd(t, i)) !in {'/', '*'}))
  }

  /** Closing quotes are found in a copy of the string. */
  lemma {:induction false} CloseCopied(t: string, k: nat, e: nat, s: string, d: int)
    requires StringClose(t, k) == e != 0 && k + d >= 0 && e + d <= |s| && t[k..e] == s[k + d..e + d]
    ensures StringClose(s, k + d) == e + d
    decreases e - k
  {
    assert t[k] == t[k..e][0] == s[k + d];
    if t[k] != '\"' {
      var m := if t[k] == '\\' then k + 2 else k + 1;
      assert t[m..e] == t[k..e][m - k..] && s[m + d..e + d] == s[k + d..e + d][m - k..];
      CloseCopied(t, m, e, s, d);
    }
  }

  lemma {:induction false} FirstKept(t: string, i: nat)
    requires i <= |t| && Closed(t, i)
    ensures Get(Minified(t, i), 0) == NextKept(t, i)
    decreases |t| - i
  {
    if i < |t| {
      FirstKept(t, PieceEnd(t, i));
      if !Dropped(t, i) { assert (t[i..PieceEnd(t, i)] + Minified(t, PieceEnd(t, i)))[0] == t[i]; }
    }
  }

  /** A kept piece is one character or a string. */
  lemma KeptPiece(t: string, i: nat, rest: string)
    requires i < |t| && !Dropped(t, i) && PieceEnd(t, i) != 0
    ensures var s := t[i..PieceEnd(t, i)] + rest;
      s != "" && s[0] == t[i] && !Blank(s[0])
      && (if s[0] == '\"' then StringClose(s, 1) == PieceEnd(t, i) - i && s[StringClose(s, 1)..] == rest
          else PieceEnd(t, i) == i + 1 && s[1..] == rest && Get(s, 1) == Get(rest, 0))
  {
    var e := PieceEnd(t, i);
    var s := t[i..e] + rest;
    assert s[0] == t[i];
    if t[i] == '\"' {
      assert t[i + 1..e] == s[1..e - i];
      CloseCopied(t, i + 1, e, s, -(i as int));
    } else {
      assert s == [t[i]] + rest;
    }
  }

  /** A minified text has no white space outside strings, and no comment if and only if no slash
      that was kept got a slash or a star behind it. */
  lemma {:induction false} MinifiedIsClean(t: string, i: nat)
    requires i <= |t| && Closed(t, i)
    ensures NoBlanks(Minified(t, i)) && (NoComments(Minified(t, i)) <==> NoneJoined(t, i))
    decreases |t| - i
  {
    if i < |t| {
      var e := PieceEnd(t, i);
      MinifiedIsClean(t, e);
      if !Dropped(t, i) {
        FirstKept(t, e);
        KeptPiece(t, i, Minified(t, e));
      } else {
        assert "" + Minified(t, e) == Minified(t, e);
      }
    }
  }

  /** Two lone slashes with a blank between them become a comment. */
  lemma JoinedSlashes()
    ensures Closed("/ /", 0) && !NoneJoined("/ /", 0) && Minified("/ /", 0) == "//" && !NoComments("//")
  {
    var t := "/ /";
    assert Closed(t, 3) && Closed(t, 2) && Closed(t, 1);
    assert NextKept(t, 2) == '/' && NextKept(t, 1) == '/';
    assert Minified(t, 2) == "/" && Minified(t, 1) == "/";
  }

  /** A text without white space and comments is left as it is, so that minifying a second time
      changes nothing. */
  lemma {:induction false} CleanStays(s: string, i: nat)
    requires i <= |s| && NoBlanks(s[i..]) && NoComments(s[i..])
    ensures Closed(s, i) && Minified(s, i) == s[i..]
    decreases |s| - i
  {
    if i < |s| {
      var e := KeptWhole(s, i);
      CleanStays(s, e);
      assert s[i..] == s[i..e] + s[e..];
    }
  }

  lemma KeptWhole(s: string, i: nat) returns (e: nat)
    requires i < |s| && NoBlanks(s[i..]) && NoComments(s[i..])
    ensures i < e <= |s| && e == PieceEnd(s, i) && !Dropped(s, i) && NoBlanks(s[e..]) && NoComments(s[e..])
  {
    var r := s[i..];
    assert Get(r, 1) == Get(s, i + 1) && r[0] == s[i];
    if s[i] == '\"' {
      e := i + StringClose(r, 1);
      assert r[1..e - i] == s[1 + i..e] && r[e - i..] == s[e..];
      CloseCopied(r, 1, e - i, s, i);
    } else {
      e := i + 1;
      assert r[1..] == s[e..];
    }
  }

  /** Minifying twice is minifying once, unless slashes were joined. */
  lemma MinifiedTwice(t: string)
    requires Closed(t, 0) && NoneJoined(t, 0)
    ensures Closed(Minified(t, 0), 0) && Minified(Minified(t, 0), 0) == Minified(t, 0)
  {
    var m := Minified(t, 0);
    MinifiedIsClean(t, 0);
    assert m[0..] == m;
    CleanStays(m, 0);
  }

  // ---- where strings end --------------------------------------------------------------------

  /** The parser and the minifier find the same end of a string: its closing quote. Without one the
      parser takes everything up to the end of the text. */
  lemma SameEnd(t: string, i: nat)
    requires i <= |t| && ParseString(t, i).Ok?
    ensures ParseString(t, i).end == if StringClose(t, i + 1) != 0 then StringClose(t, i + 1) else |t|
  {
    InsideEnd(t, i + 1);
  }

  lemma {:induction false} InsideEnd(t: string, k: nat)
    requires k <= |t| && Inside(t, k).Ok?
    ensures Inside(t, k).end == if StringClose(t, k) != 0 then StringClose(t, k) else |t|
    decreases |t| - k
  {
    hide Unescape;
    if k < |t| && t[k] != '\"' {
      if t[k] == '\\' {
        EscapeEnd(t, k);
        InsideEnd(t, Unescape(t, k).end);
      } else {
        InsideEnd(t, k + 1);
      }
    }
  }

  /** No escape hides a closing quote. */
  lemma EscapeEnd(t: string, k: nat)
    requires k < |t| && t[k] == '\\' && Unescape(t, k).Ok?
    ensures StringClose(t, k) == StringClose(t, Unescape(t, k).end)
  {
    var m := Unescape(t, k).end;
    assert m == k + 2 || (m == k + 6 && FourHex(t, k + 2))
      || (m == k + 12 && FourHex(t, k + 2) && t[k + 6] == '\\' && FourHex(t, k + 8));
    hide Unescape, FourHex;
    assert StringClose(t, k) == StringClose(t, k + 2);
    if m > k + 2 { HexSkipped(t, k + 2); }
    if m == k + 12 {
      HexSkipped(t, k + 8);
      assert StringClose(t, k + 6) == StringClose(t, k + 8);
    }
  }

  lemma HexSkipped(t: string, k: nat)
    requires FourHex(t, k)
    ensures k + 4 <= |t| && StringClose(t, k) == StringClose(t, k + 4)
  {
    Plain4(t, k);
  }

  /** A text that ends inside a string is taken for the string so far. */
  lemma UnendedString()
    ensures Parse("\"a", true) == Ok(String("a"), 2) && StringClose("\"a", 1) == 0
  {
    var t := "\"a";
    assert Inside(t, 2) == Ok("", 2);
    assert ['a'] + "" == "a";
    assert Inside(t, 1) == Cons(['a'], Inside(t, 2)) == Ok("a", 2);
    assert ParseString(t, 0) == Ok("a", 2);
    Dispatch(t, 0);
    assert Skip(t, 0) == 0 && Skip(t, 2) == 2;
  }
}
