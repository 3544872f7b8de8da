/** Parsing a printed tree gives the tree back, formatted or not: the printer writes texts of
    the grammar, and the parser reads them. */
module JsonRoundTrip {
  import opened Decimals
  import opened JsonGrammar
  import opened JsonPieces
  import opened JsonText

  lemma NumberBack(n: int, t: string, i: nat)
    requires INT_MIN <= n <= INT_MAX && StartsWith(t, i, Decimal(n)) && Stops(Get(t, i + |Decimal(n)|))
    ensures i < |t| && (t[i] == '-' || IsDigit(t[i]))
    ensures ParseNumber(t, i) == Ok(Number(n), i + |Decimal(n)|)
  {
    NumberSpelled(n, t, i);
    NumberRead(t, i, i + |Decimal(n)|, n);
  }

  lemma StringBack(s: string, t: string, i: nat)
    requires NUL !in s && StartsWith(t, i, Quoted(s))
    ensures Get(t, i) == '\"' && ParseString(t, i) == Ok(s, i + |Quoted(s)|)
  {
    StringSpelled(s, t, i);
    StringRead(t, i, i + |Quoted(s)|, s);
  }

  /** Formatted or not, parsing the print of a tree gives the tree and uses up the text. */
  lemma RoundTrip(v: Value, fmt: bool, requireEnd: bool)
    requires Plain(v)
    ensures Parse(Print(v, 0, fmt), requireEnd) == Ok(v, |Print(v, 0, fmt)|)
  {
    hide *;
    PrintSpells(v, fmt);
    Whole(Print(v, 0, fmt));
    TextRead(Print(v, 0, fmt), 0, |Print(v, 0, fmt)|, v, requireEnd);
  }

  lemma Whole(t: string)
    ensures Blank(t, 0, 0) && Blank(t, |t|, |t|)
  {}
}
