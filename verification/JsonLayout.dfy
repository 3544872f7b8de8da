/** The lines of the formatted print of code/json/cjson/cJSON.c: how many tabs each starts with. */
module JsonLayout {
  import opened Decimals
  import opened JsonPieces
  import opened JsonText

  /** The number of tabs at the head of a text. */
  function LeadingTabs(s: string): nat { if s != "" && s[0] == '\t' then 1 + LeadingTabs(s[1..]) else 0 }

  /** For each line but the first one, the number of tabs it starts with. */
  function LineTabs(s: string): seq<nat> {
    if s == "" then [] else (if s[0] == '\n' then [LeadingTabs(s[1..])] else []) + LineTabs(s[1..])
  }

  /** The lines of a value at a depth: each member is one deeper than its object, the closing brace
      as deep as the object; the brace of an empty object is one less deep. */
  function Indents(v: Value, depth: nat): seq<nat>
    decreases v, 1, 0
  {
    match v
    case Array(items) => ItemIndents(v, 0, depth + 1)
    case Object(ms) =>
      if ms == [] then [if depth == 0 then 0 else depth - 1] else MemberIndents(v, 0, depth + 1) + [depth]
    case _ => []
  }

  function ItemIndents(v: Value, k: nat, depth: nat): seq<nat>
    requires v.Array? && k <= |v.items|
    decreases v, 0, |v.items| - k
  {
    if k == |v.items| then [] else Indents(v.items[k], depth) + ItemIndents(v, k + 1, depth)
  }

  function MemberIndents(v: Value, k: nat, depth: nat): seq<nat>
    requires v.Object? && k <= |v.members|
    decreases v, 0, |v.members| - k
  {
    if k == |v.members| then [] else [depth] + Indents(v.members[k].value, depth) + MemberIndents(v, k + 1, depth)
  }

  // ---- pieces ---------------------------------------------------------------------------------

  predicate NoTab(s: string) { s == "" || s[0] != '\t' }

  lemma NoTabFirst(a: string, b: string)
    requires NoTab(a) && (a == "" ==> NoTab(b))
    ensures NoTab(a + b)
  {
    if a == "" { assert a + b == b; }
  }

  lemma {:induction false} LinesJoin(a: string, b: string)
    requires NoTab(b)
    ensures LineTabs(a + b) == LineTabs(a) + LineTabs(b)
    decreases |a|
  {
    hide NoTab;
    if a == "" {
      assert a + b == b;
    } else {
      assert (a + b)[1..] == a[1..] + b && (a + b)[0] == a[0];
      LinesJoin(a[1..], b);
      TabsJoin(a[1..], b);
      hide LeadingTabs;
      assert LineTabs(a + b) == (if a[0] == '\n' then [LeadingTabs(a[1..])] else []) + (LineTabs(a[1..]) + LineTabs(b));
    }
  }

  lemma {:induction false} TabsJoin(a: string, b: string)
    requires NoTab(b)
    ensures LeadingTabs(a + b) == LeadingTabs(a)
    decreases |a|
  {
    if a == "" {
      assert a + b == b;
    } else {
      assert (a + b)[1..] == a[1..] + b;
      TabsJoin(a[1..], b);
    }
  }

  lemma {:induction false} OneLine(s: string)
    requires forall k :: 0 <= k < |s| ==> s[k] != '\n'
    ensures LineTabs(s) == []
    decreases |s|
  {
    if s != "" { OneLine(s[1..]); }
  }

  lemma {:induction false} TabsAre(n: nat)
    ensures LeadingTabs(Tabs(n)) == n && LineTabs(Tabs(n)) == []
    decreases n
  {
    if n > 0 {
      assert Tabs(n)[1..] == Tabs(n - 1);
      TabsAre(n - 1);
    }
  }

  /** A new line of `n` tabs. */
  lemma NewLine(n: nat, rest: string)
    requires NoTab(rest)
    ensures LineTabs("\n" + (Tabs(n) + rest)) == [n] + LineTabs(rest)
  {
    var s := "\n" + (Tabs(n) + rest);
    assert s[1..] == Tabs(n) + rest;
    TabsAre(n);
    LinesJoin(Tabs(n), rest);
    TabsJoin(Tabs(n), rest);
  }

  lemma {:induction false} QuotedLine(s: string)
    ensures forall k :: 0 <= k < |Quoted(s)| ==> Quoted(s)[k] != '\n' && Quoted(s)[k] != '\t'
  {
    EscapedLine(s);
  }

  lemma {:induction false} EscapedLine(s: string)
    ensures forall k :: 0 <= k < |Escaped(s)| ==> Escaped(s)[k] != '\n' && Escaped(s)[k] != '\t'
    decreases |s|
  {
    if s != "" {
      EscapeLine(s[0]);
      EscapedLine(s[1..]);
    }
  }

  lemma EscapeLine(c: char)
    ensures forall k :: 0 <= k < |Escape(c)| ==> Escape(c)[k] != '\n' && Escape(c)[k] != '\t'
  {}

  lemma DecimalLine(n: int)
    ensures LineTabs(Decimal(n)) == []
  {
    DigitsAre(if n < 0 then -n else n);
    OneLine(Decimal(n));
  }

  // ---- the print ---------------------------------------------------------------------------------

  /** Every line of the formatted print starts with as many tabs as its depth says. */
  lemma {:induction false} PrintLines(v: Value, depth: nat)
    ensures LineTabs(Print(v, depth, true)) == Indents(v, depth)
    decreases v, 1, 0
  {
    match v
    case Null => OneLine("null");
    case False => OneLine("false");
    case True => OneLine("true");
    case Number(n) => DecimalLine(n);
    case String(s) => QuotedLine(s); OneLine(Quoted(s));
    case Array(items) => ArrayLines(v, depth);
    case Object(ms) => ObjectLines(v, depth);
  }

  lemma ArrayLines(v: Value, depth: nat)
    requires v.Array?
    ensures LineTabs(Print(v, depth, true)) == Indents(v, depth)
    decreases v, 0, |v.items| + 1
  {
    ArrayText(v, depth, true);
    ItemsLines(v, 0, depth + 1);
    ItemsHead(v, 0, depth + 1);
    hide Print, Items, Indents;
    var items := Items(v, 0, depth + 1, true);
    LinesJoin("[", items + "]");
    LinesJoin(items, "]");
    OneLine("[");
    OneLine("]");
    assert LineTabs(items + "]") == ItemIndents(v, 0, depth + 1) + [];
    IndentsOf(v, depth);
  }

  lemma IndentsOf(v: Value, depth: nat)
    ensures v.Array? ==> Indents(v, depth) == ItemIndents(v, 0, depth + 1)
    ensures v.Object? && v.members != [] ==> Indents(v, depth) == MemberIndents(v, 0, depth + 1) + [depth]
  {}

  lemma ItemsHead(v: Value, k: nat, depth: nat)
    requires v.Array? && k <= |v.items|
    ensures var s := Items(v, k, depth, true) + "]"; s[0] != '\t'
    ensures NoTab(Items(v, k, depth, true))
  {
    if k < |v.items| { FirstChar(v.items[k], depth, true); }
  }

  lemma {:induction false} ItemsLines(v: Value, k: nat, depth: nat)
    requires v.Array? && k <= |v.items|
    ensures LineTabs(Items(v, k, depth, true)) == ItemIndents(v, k, depth)
    decreases v, 0, |v.items| - k
  {
    if k < |v.items| {
      var p, c, rest := Print(v.items[k], depth, true), Comma(k + 1 == |v.items|, "," + " "), Items(v, k + 1, depth, true);
      ItemPieces(v, k, depth);
      ItemsHead(v, k + 1, depth);
      hide *;
      PrintLines(v.items[k], depth);
      ItemsLines(v, k + 1, depth);
      OneLine(c);
      NoTabFirst(c, rest);
      LinesJoin(c, rest);
      LinesJoin(p, c + rest);
      assert [] + LineTabs(rest) == LineTabs(rest);
    }
  }

  lemma ItemPieces(v: Value, k: nat, depth: nat)
    requires v.Array? && k < |v.items|
    ensures var p, c, rest := Print(v.items[k], depth, true), Comma(k + 1 == |v.items|, "," + " "), Items(v, k + 1, depth, true);
      Items(v, k, depth, true) == p + (c + rest) && NoTab(c) && forall i :: 0 <= i < |c| ==> c[i] != '\n'
    ensures ItemIndents(v, k, depth) == Indents(v.items[k], depth) + ItemIndents(v, k + 1, depth)
  {
    hide Print, Indents;
    Assoc(Print(v.items[k], depth, true), Comma(k + 1 == |v.items|, "," + " "), Items(v, k + 1, depth, true));
  }

  lemma ObjectLines(v: Value, depth: nat)
    requires v.Object?
    ensures LineTabs(Print(v, depth, true)) == Indents(v, depth)
    decreases v, 0, |v.members| + 1
  {
    if v.members == [] {
      var n := if depth == 0 then 0 else depth - 1;
      assert Print(v, depth, true) == "{" + ("\n" + (Tabs(n) + "}"));
      NewLine(n, "}");
      OneLine("{");
      OneLine("}");
      LinesJoin("{", "\n" + (Tabs(n) + "}"));
    } else {
      ObjectText(v, depth, true);
      MembersLines(v, 0, depth + 1);
      IndentsOf(v, depth);
      hide Print, Members, Indents;
      OneLine("{");
      LinesJoin("{", "\n" + (Members(v, 0, depth + 1, true) + (Tabs(depth) + "}")));
    }
  }

  lemma {:induction false} MembersLines(v: Value, k: nat, depth: nat)
    requires v.Object? && k <= |v.members| && depth > 0
    ensures LineTabs("\n" + (Members(v, k, depth, true) + (Tabs(depth - 1) + "}"))) == MemberIndents(v, k, depth) + [depth - 1]
    decreases v, 0, |v.members| - k
  {
    hide *;
    var tail := Tabs(depth - 1) + "}";
    if k == |v.members| {
      MembersEnd(v, depth);
    } else {
      var m, c, rest := v.members[k], Comma(k + 1 == |v.members|, ","), Members(v, k + 1, depth, true);
      MembersLines(v, k + 1, depth);
      PrintLines(m.value, depth);
      FirstChar(m.value, depth, true);
      LineParts(v, k, depth, true, rest + tail);
      MembersSplit(v, k, depth, tail);
      QuotedLine(m.name);
      QuotedStart(m.name);
      MemberIndentsOf(v, k, depth);
      OneMember(depth, Quoted(m.name), Print(m.value, depth, true), c, rest + tail);
      AssocLines([depth] + Indents(m.value, depth), MemberIndents(v, k + 1, depth), [depth - 1]);
    }
  }

  lemma MembersEnd(v: Value, depth: nat)
    requires v.Object? && depth > 0
    ensures LineTabs("\n" + (Members(v, |v.members|, depth, true) + (Tabs(depth - 1) + "}"))) == MemberIndents(v, |v.members|, depth) + [depth - 1]
  {
    assert Members(v, |v.members|, depth, true) + (Tabs(depth - 1) + "}") == Tabs(depth - 1) + "}";
    NewLine(depth - 1, "}");
    OneLine("}");
  }

  lemma QuotedStart(s: string)
    ensures Quoted(s) != ""
  {}

  lemma MemberIndentsOf(v: Value, k: nat, depth: nat)
    requires v.Object? && k < |v.members|
    ensures MemberIndents(v, k, depth) == [depth] + Indents(v.members[k].value, depth) + MemberIndents(v, k + 1, depth)
    ensures If(true, Tabs(depth)) == Tabs(depth) && If(true, "\t") == "\t" && If(true, "\n") == "\n"
    ensures forall last :: Comma(last, ",") in {"", ","}
  {}

  /** A member on a line of its own. */
  lemma OneMember(depth: nat, q: string, p: string, c: string, rest: string)
    requires q != "" && (forall k :: 0 <= k < |q| ==> q[k] != '\n' && q[k] != '\t') && c in {"", ","} && p != "" && p[0] != '\t'
    ensures LineTabs("\n" + (Tabs(depth) + (q + (":" + ("\t" + (p + (c + ("\n" + rest))))))))
      == [depth] + LineTabs(p) + LineTabs("\n" + rest)
  {
    assert NoTab(p);
    hide *;
    var x := p + (c + ("\n" + rest));
    ValuePart(p, c, "\n" + rest);
    NoTabFirst(p, c + ("\n" + rest));
    NamePart(q, x);
    NewLine(depth, q + (":" + ("\t" + x)));
    AssocLines([depth], LineTabs(p), LineTabs("\n" + rest));
  }

  lemma AssocLines(a: seq<nat>, b: seq<nat>, c: seq<nat>)
    ensures a + (b + c) == a + b + c
  {}

  lemma ValuePart(p: string, c: string, nl: string)
    requires p != "" && p[0] != '\t' && c in {"", ","} && nl != "" && nl[0] == '\n'
    ensures LineTabs(p + (c + nl)) == LineTabs(p) + LineTabs(nl)
  {
    OneLine(c);
    NoTabFirst(c, nl);
    LinesJoin(c, nl);
    LinesJoin(p, c + nl);
  }

  lemma NamePart(q: string, x: string)
    requires q != "" && (forall k :: 0 <= k < |q| ==> q[k] != '\n' && q[k] != '\t') && NoTab(x)
    ensures NoTab(q + (":" + ("\t" + x))) && LineTabs(q + (":" + ("\t" + x))) == LineTabs(x)
  {
    assert NoTab(q);
    hide *;
    var sep := ":" + "\t";
    Regroup(q, x);
    OneLine(q);
    Separator();
    NoTabFirst(q, ":" + ("\t" + x));
    LinesJoin(q, sep);
    LinesJoin(q + sep, x);
    assert LineTabs(q + sep + x) == [] + [] + LineTabs(x);
  }

  lemma Separator()
    ensures NoTab(":" + "\t") && LineTabs(":" + "\t") == []
  {
    OneLine(":" + "\t");
  }

  lemma Regroup(q: string, x: string)
    ensures NoTab(":" + ("\t" + x)) && q + (":" + ("\t" + x)) == (q + (":" + "\t")) + x
  {
    Assoc(q, ":" + "\t", x);
    Assoc(":", "\t", x);
  }

  lemma MembersSplit(v: Value, k: nat, depth: nat, tail: string)
    requires v.Object? && k < |v.members|
    ensures Members(v, k, depth, true) + tail == Line(v, k, depth, true) + (Members(v, k + 1, depth, true) + tail)
  {
    Assoc(Line(v, k, depth, true), Members(v, k + 1, depth, true), tail);
  }
}
