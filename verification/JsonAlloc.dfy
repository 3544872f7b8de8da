/** The allocating printer of code/json/cjson/cJSON.c: cJSON_Print, cJSON_PrintUnformatted
    and the functions below them when there is no print buffer. */
module JsonAlloc {
  import opened JsonBuffer
  import opened JsonItem
  import opened JsonPrint
  import opened JsonPieces
  import opened JsonRoundTrip
  import opened JsonText

  /** cJSON_strdup. */
  method Duplicate(s: string) returns (out: array<char>)
    ensures fresh(out) && Wrote(out, 0, s)
  {
    out := new char[|s| + 1];
    StoreEnded(out, 0, s);
  }

  method PrintNumber(n: int) returns (out: array<char>)
    requires INT_MIN <= n <= INT_MAX
    ensures fresh(out) && Wrote(out, 0, Decimal(n))
  {
    if n == 0 {
      out := new char[2];
      StoreEnded(out, 0, "0");
    } else {
      out := new char[21];
      DecimalShort(n);
      StoreEnded(out, 0, Decimal(n));
    }
  }

  /** print_string_ptr without a buffer. */
  method PrintString(str: string) returns (out: array<char>)
    requires NUL !in str
    ensures fresh(out) && Wrote(out, 0, Quoted(str))
  {
    var flag := NeedsEscape(str);
    if !flag {
      out := new char[|str| + 3];
      StoreEnded(out, 0, "\"" + str + "\"");
    } else {
      var len := EscapedLength(str);
      out := new char[len + 3];
      StoreQuoted(out, 0, str);
    }
  }

  /** strlen. */
  method Length(a: array<char>, ghost s: string) returns (n: nat)
    requires Wrote(a, 0, s) && NUL !in s
    ensures n == |s|
  {
    n := 0;
    assert forall k :: 0 <= k < |s| ==> a[k] == a[0..|s|][k];
    while a[n] != NUL
      invariant n <= |s|
      decreases |s| - n
    {
      n := n + 1;
    }
  }

  /** memcpy of a terminated string behind what was already put together. */
  method CopyEntry(out: array<char>, ptr0: nat, entry: array<char>, ghost s: string, ghost done: string) returns (ptr: nat)
    requires Wrote(entry, 0, s) && NUL !in s && entry != out && ptr0 == |done| && ptr0 + |s| <= out.Length && out[..ptr0] == done
    modifies out
    ensures ptr == ptr0 + |s| && out[..ptr] == done + s
  {
    var len := Length(entry, s);
    assert entry[..len] == s;
    Store(out, ptr0, entry[..len]);
    ptr := ptr0 + len;
    assert out[..ptr] == out[..ptr0] + out[ptr0..ptr];
  }

  /** A constant piece behind what was already put together. */
  method CopyText(out: array<char>, ptr0: nat, s: string, ghost done: string) returns (ptr: nat)
    requires ptr0 == |done| && ptr0 + |s| <= out.Length && out[..ptr0] == done
    modifies out
    ensures ptr == ptr0 + |s| && out[..ptr] == done + s
  {
    Store(out, ptr0, s);
    ptr := ptr0 + |s|;
    assert out[..ptr] == out[..ptr0] + out[ptr0..ptr];
  }

  /** The children that were printed so far. */
  ghost predicate Entries(entries: seq<array<char>>, texts: seq<string>)
    reads entries
  {
    |entries| <= |texts| && forall i :: 0 <= i < |entries| ==> Wrote(entries[i], 0, texts[i])
  }

  /** The texts of the elements of an array. */
  function ItemTexts(v: Value, depth: nat, fmt: bool): (r: seq<string>)
    requires v.Array?
  {
    seq(|v.items|, i requires 0 <= i < |v.items| => Print(v.items[i], depth, fmt))
  }

  /** print_value without a buffer. */
  method PrintValue(item: Item, ghost v: Value, depth: nat, fmt: bool) returns (out: array<char>)
    requires Is(item, v) && Plain(v)
    ensures fresh(out) && Wrote(out, 0, Print(v, depth, fmt))
    decreases v, 1, 0
  {
    match item.kind
    case NULL => out := Duplicate("null");
    case FALSE => out := Duplicate("false");
    case TRUE => out := Duplicate("true");
    case NUMBER => out := PrintNumber(item.valueint);
    case STRING => out := PrintString(item.valuestring);
    case ARRAY => out := PrintArray(item, v, depth, fmt);
    case OBJECT => out := PrintObject(item, v, depth, fmt);
  }

  /** The counting loop of print_array and print_object. */
  method Count(item: Item, ghost v: Value) returns (n: nat)
    requires (v.Array? || v.Object?) && Is(item, v)
    ensures n == |item.kids|
  {
    n := 0;
    var child := item.child;
    assert Chain(item.kids);
    while child != null
      invariant n <= |item.kids| && child == Kid(item, n)
      decreases |item.kids| - n
    {
      NextKid(item, n);
      n := n + 1;
      child := child.next;
    }
  }

  method PrintArray(item: Item, ghost v: Value, depth: nat, fmt: bool) returns (out: array<char>)
    requires v.Array? && Is(item, v) && Plain(v)
    ensures fresh(out) && Wrote(out, 0, Print(v, depth, fmt))
    decreases v, 0, 2
  {
    hide Is, Items, Print, Plain;
    ArrayText(v, depth, fmt);
    KidOfArray(item, v, 0);
    var numentries := Count(item, v);
    if numentries == 0 {
      out := new char[3];
      StoreEnded(out, 0, "[]");
      assert "[" + ("" + "]") == "[]";
      return;
    }
    var entries, len := PrintEntries(item, v, depth + 1, fmt);
    out := new char[len];
    JoinItems(entries, out, v, depth + 1, fmt);
  }

  /** The loop that prints the elements and adds up the room they need. */
  method PrintEntries(item: Item, ghost v: Value, depth: nat, fmt: bool) returns (entries: seq<array<char>>, len: nat)
    requires v.Array? && Is(item, v) && Plain(v)
    ensures Entries(entries, ItemTexts(v, depth, fmt)) && |entries| == |v.items| && fresh(entries)
    ensures len >= |Items(v, 0, depth, fmt)| + 5
    decreases v, 0, 1
  {
    hide Is, Items, Print, Element;
    var child := item.child;
    entries, len := [], 5;
    KidOfArray(item, v, 0);
    NoItems(v, depth, fmt);
    while child != null
      invariant |entries| <= |v.items| == |item.kids| && child == Kid(item, |entries|) && Is(item, v) && fresh(entries)
      invariant Entries(entries, ItemTexts(v, depth, fmt))
      invariant len + |Items(v, |entries|, depth, fmt)| >= |Items(v, 0, depth, fmt)| + 5
      decreases |v.items| - |entries|
    {
      KidOfArray(item, v, |entries|);
      ItemsUnfold(v, |entries|, depth, fmt);
      var ret, n := PrintEntry(child, v, |entries|, depth, fmt);
      entries := entries + [ret];
      len := len + n;
      child := child.next;
    }
  }

  /** One element and the room for it. */
  method PrintEntry(child: Item, ghost v: Value, ghost i: nat, depth: nat, fmt: bool) returns (ret: array<char>, len: nat)
    requires v.Array? && Plain(v) && i < |v.items| && Is(child, v.items[i])
    ensures fresh(ret) && Wrote(ret, 0, Print(v.items[i], depth, fmt)) && len >= |Element(v, i, depth, fmt)|
    decreases v, 0, 0
  {
    ret := PrintValue(child, v.items[i], depth, fmt);
    PrintNoNul(v.items[i], depth, fmt);
    hide Print;
    var n := Length(ret, Print(v.items[i], depth, fmt));
    len := n + 2 + if fmt then 1 else 0;
  }

  /** The loop that puts the elements together. */
  method JoinItems(entries: seq<array<char>>, out: array<char>, ghost v: Value, ghost depth: nat, fmt: bool)
    requires v.Array? && Plain(v) && v.items != [] && Entries(entries, ItemTexts(v, depth, fmt)) && |entries| == |v.items|
    requires forall i :: 0 <= i < |v.items| ==> entries[i] != out
    requires out.Length >= |Items(v, 0, depth, fmt)| + 5
    modifies out
    ensures Wrote(out, 0, "[" + (Items(v, 0, depth, fmt) + "]"))
  {
    out[0] := '[';
    out[1] := NUL;
    var ptr, i, n := 1, 0, |entries|;
    ghost var done, texts := "", ItemTexts(v, depth, fmt);
    assert "[" + "" == "[";
    NoItems(v, depth, fmt);
    while i < n
      invariant i <= n == |v.items| && ptr == |"[" + done| <= out.Length && out[..ptr] == "[" + done
      invariant Entries(entries, texts)
      invariant done + Items(v, i, depth, fmt) == Items(v, 0, depth, fmt)
    {
      done, ptr := JoinItem(entries, i, out, ptr, v, depth, fmt, done);
      i := i + 1;
    }
    out[ptr] := ']';
    out[ptr + 1] := NUL;
    Assoc("[", done, "]");
    assert out[0..ptr + 1] == out[..ptr] + [']'];
  }

  /** One element, the comma behind it and the terminator. */
  method JoinItem(entries: seq<array<char>>, i: nat, out: array<char>, ptr0: nat, ghost v: Value, ghost depth: nat,
                  fmt: bool, ghost done0: string)
    returns (ghost done: string, ptr: nat)
    requires v.Array? && Plain(v) && i < |v.items| && Entries(entries, ItemTexts(v, depth, fmt)) && |entries| == |v.items|
    requires forall i :: 0 <= i < |v.items| ==> entries[i] != out
    requires out.Length >= |Items(v, 0, depth, fmt)| + 5 && ptr0 == |"[" + done0| <= out.Length && out[..ptr0] == "[" + done0
    requires done0 + Items(v, i, depth, fmt) == Items(v, 0, depth, fmt)
    modifies out
    ensures ptr == |"[" + done| <= out.Length && out[..ptr] == "[" + done
    ensures done + Items(v, i + 1, depth, fmt) == Items(v, 0, depth, fmt)
  {
    hide Items, Print;
    ghost var p, c := Print(v.items[i], depth, fmt), Comma(i + 1 == |v.items|, "," + If(fmt, " "));
    ItemsUnfold(v, i, depth, fmt);
    PrintNoNul(v.items[i], depth, fmt);
    ptr := CopyEntry(out, ptr0, entries[i], p, "[" + done0);
    if i != |entries| - 1 {
      ptr := CopyText(out, ptr, "," + If(fmt, " "), "[" + done0 + p);
      out[ptr] := NUL;
    } else {
      assert ("[" + done0 + p) + c == "[" + done0 + p;
    }
    done := done0 + (p + c);
    Assoc("[" + done0, p, c);
    Assoc("[", done0, p + c);
    Assoc(done0, p + c, Items(v, i + 1, depth, fmt));
  }

  // ---- objects -----------------------------------------------------------------------------

  function NameTexts(v: Value): seq<string>
    requires v.Object?
  {
    seq(|v.members|, i requires 0 <= i < |v.members| => Quoted(v.members[i].name))
  }

  function MemberTexts(v: Value, depth: nat, fmt: bool): seq<string>
    requires v.Object?
  {
    seq(|v.members|, i requires 0 <= i < |v.members| => Print(v.members[i].value, depth, fmt))
  }

  method PrintObject(item: Item, ghost v: Value, depth0: nat, fmt: bool) returns (out: array<char>)
    requires v.Object? && Is(item, v) && Plain(v)
    ensures fresh(out) && Wrote(out, 0, Print(v, depth0, fmt))
    decreases v, 0, 2
  {
    hide Is, Members, Print, Plain, Tabs, If;
    KidOfObject(item, v, 0);
    var numentries := Count(item, v);
    if numentries == 0 {
      EmptyText(v, depth0, fmt);
      out := new char[if fmt then depth0 + 4 else 3];
      StoreEnded(out, 0, "{" + If(fmt, "\n" + Tabs(if depth0 == 0 then 0 else depth0 - 1)) + "}");
      return;
    }
    ObjectText(v, depth0, fmt);
    var depth := depth0 + 1;
    var names, entries, len := PrintMembers(item, v, depth, fmt);
    out := new char[len];
    JoinMembers(names, entries, out, v, depth, fmt);
  }

  /** The loop that prints names and values and adds up the room they need. */
  method PrintMembers(item: Item, ghost v: Value, depth: nat, fmt: bool)
    returns (names: seq<array<char>>, entries: seq<array<char>>, len: nat)
    requires v.Object? && Is(item, v) && Plain(v)
    ensures Entries(names, NameTexts(v)) && Entries(entries, MemberTexts(v, depth, fmt)) && |names| == |entries| == |v.members|
    ensures fresh(names) && fresh(entries)
    ensures len >= |Members(v, 0, depth, fmt)| + 7 + if fmt then depth else 0
    decreases v, 0, 1
  {
    hide Is, Members, Print, Line, Quoted, Plain, Wrote;
    var child := item.child;
    names, entries, len := [], [], 7 + if fmt then depth else 0;
    KidOfObject(item, v, 0);
    NoMembers(v, depth, fmt);
    while child != null
      invariant |names| == |entries| <= |v.members| == |item.kids| && child == Kid(item, |names|) && Is(item, v)
      invariant fresh(names) && fresh(entries) && Entries(names, NameTexts(v)) && Entries(entries, MemberTexts(v, depth, fmt))
      invariant len + |Members(v, |names|, depth, fmt)| >= |Members(v, 0, depth, fmt)| + 7 + if fmt then depth else 0
      decreases |v.members| - |names|
    {
      KidOfObject(item, v, |names|);
      MembersUnfold(v, |names|, depth, fmt);
      var str, ret, n := PrintMember(child, v, |names|, depth, fmt);
      names := names + [str];
      entries := entries + [ret];
      len := len + n;
      child := child.next;
    }
  }

  /** The name and the value of one member, and the room for its line. */
  method PrintMember(child: Item, ghost v: Value, ghost i: nat, depth: nat, fmt: bool)
    returns (str: array<char>, ret: array<char>, len: nat)
    requires v.Object? && Plain(v) && i < |v.members| && Is(child, v.members[i].value) && child.name == v.members[i].name
    ensures fresh(str) && fresh(ret) && Wrote(str, 0, Quoted(child.name)) && Wrote(ret, 0, Print(v.members[i].value, depth, fmt))
    ensures len >= |Line(v, i, depth, fmt)|
    decreases v, 0, 0
  {
    EscapedNoNul(child.name);
    PrintNoNul(v.members[i].value, depth, fmt);
    str := PrintString(child.name);
    ret := PrintValue(child, v.members[i].value, depth, fmt);
    LineLong(v, i, depth, fmt);
    hide Print, Line;
    var m := Length(str, Quoted(child.name));
    var n := Length(ret, Print(v.members[i].value, depth, fmt));
    len := n + m + 2 + if fmt then 2 + depth else 0;
  }

  /** The loop that puts the lines together. */
  method JoinMembers(names: seq<array<char>>, entries: seq<array<char>>, out: array<char>, ghost v: Value, depth: nat,
                     fmt: bool)
    requires v.Object? && Plain(v) && v.members != [] && depth > 0
    requires Entries(names, NameTexts(v)) && Entries(entries, MemberTexts(v, depth, fmt)) && |names| == |entries| == |v.members|
    requires forall i :: 0 <= i < |v.members| ==> entries[i] != out && names[i] != out
    requires out.Length >= |Members(v, 0, depth, fmt)| + 7 + if fmt then depth else 0
    modifies out
    ensures Wrote(out, 0, "{" + (If(fmt, "\n") + (Members(v, 0, depth, fmt) + (If(fmt, Tabs(depth - 1)) + "}"))))
  {
    hide Members, Print, Line, Plain, Quoted;
    assert out[..0] == "";
    ghost var open := "{" + If(fmt, "\n");
    var ptr := CopyText(out, 0, "{" + If(fmt, "\n"), "");
    out[ptr] := NUL;
    var i := 0;
    ghost var done := "";
    NoMembers(v, depth, fmt);
    while i < |entries|
      invariant i <= |entries| == |v.members| && ptr == |open + done| <= out.Length && out[..ptr] == open + done
      invariant Entries(names, NameTexts(v)) && Entries(entries, MemberTexts(v, depth, fmt)) && |names| == |entries| == |v.members|
      invariant done + Members(v, i, depth, fmt) == Members(v, 0, depth, fmt)
    {
      ptr := JoinMember(names, entries, i, out, ptr, v, depth, fmt, open, done);
      MembersUnfold(v, i, depth, fmt);
      Assoc(done, Line(v, i, depth, fmt), Members(v, i + 1, depth, fmt));
      done := done + Line(v, i, depth, fmt);
      i := i + 1;
    }
    ghost var tail := If(fmt, Tabs(depth - 1)) + "}";
    ptr := CopyText(out, ptr, If(fmt, Tabs(depth - 1)) + "}", open + done);
    out[ptr] := NUL;
    Assoc(open, done, tail);
    Assoc("{", If(fmt, "\n"), done + tail);
    assert out[0..ptr] == out[..ptr];
  }

  /** One line and the terminator. */
  method JoinMember(names: seq<array<char>>, entries: seq<array<char>>, i: nat, out: array<char>, ptr0: nat,
                    ghost v: Value, depth: nat, fmt: bool, ghost open: string, ghost done: string)
    returns (ptr: nat)
    requires v.Object? && Plain(v) && i < |v.members| && |open| <= 2
    requires Entries(names, NameTexts(v)) && Entries(entries, MemberTexts(v, depth, fmt)) && |names| == |entries| == |v.members|
    requires forall i :: 0 <= i < |v.members| ==> entries[i] != out && names[i] != out
    requires out.Length >= |Members(v, 0, depth, fmt)| + 7 && ptr0 == |open + done| <= out.Length && out[..ptr0] == open + done
    requires done + Members(v, i, depth, fmt) == Members(v, 0, depth, fmt)
    modifies out
    ensures ptr == |open + (done + Line(v, i, depth, fmt))| <= out.Length && out[..ptr] == open + (done + Line(v, i, depth, fmt))
  {
    hide Members, Print, Line, Quoted, Tabs, If;
    ghost var m, c, b := v.members[i], Comma(i + 1 == |v.members|, ","), open + done;
    ghost var w, q, p, nl := If(fmt, Tabs(depth)), Quoted(m.name), Print(m.value, depth, fmt), If(fmt, "\n");
    MembersUnfold(v, i, depth, fmt);
    LineLong(v, i, depth, fmt);
    PrintNoNul(m.value, depth, fmt);
    EscapedNoNul(m.name);
    QuotedNoNul(m.name);
    ptr := CopyText(out, ptr0, If(fmt, Tabs(depth)), b);
    ptr := CopyEntry(out, ptr, names[i], q, b + w);
    ptr := CopyText(out, ptr, ":" + If(fmt, "\t"), b + w + q);
    HeadPieces(b, w, q, ":", If(fmt, "\t"));
    ghost var h := NamePart(m.name, depth, fmt);
    ptr := CopyEntry(out, ptr, entries[i], p, b + h);
    ptr := CopyText(out, ptr, (if i != |entries| - 1 then "," else "") + If(fmt, "\n"), b + h + p);
    LinePieces(b, h, p, c, nl);
    out[ptr] := NUL;
    Assoc(open, done, Line(v, i, depth, fmt));
  }

  /** Both printers give the same text, and parsing it gives the tree back. */
  method PrintBoth(item: Item, ghost v: Value, prebuffer: nat, fmt: bool) returns (text: array<char>, buffered: array<char>)
    requires Is(item, v) && Plain(v) && |Print(v, 0, fmt)| + 64 <= LIMIT
    ensures var n := |Print(v, 0, fmt)|; n < text.Length && n < buffered.Length && text[..n] == buffered[..n]
    ensures Parse(text[..|Print(v, 0, fmt)|], true).Ok? && Parse(text[..|Print(v, 0, fmt)|], true).value == v
  {
    text := PrintValue(item, v, 0, fmt);
    buffered := PrintBuffered(item, v, prebuffer, fmt);
    RoundTrip(v, fmt, true);
    assert text[0..|Print(v, 0, fmt)|] == text[..|Print(v, 0, fmt)|];
    assert buffered[0..|Print(v, 0, fmt)|] == buffered[..|Print(v, 0, fmt)|];
  }
}
