/** The parser of code/json/cjson/cJSON.c, building linked items. */
module JsonParse {
  import opened Decimals
  import opened JsonItem
  import opened JsonPieces
  import opened JsonText

  /** The position a parse function returns, or its null result. */
  datatype End = To(pos: nat) | Stop | Unmodelled

  method SkipBlank(t: string, i: nat) returns (j: nat)
    requires i <= |t| && NUL !in t
    ensures j == Skip(t, i)
  {
    j := i;
    while Get(t, j) != NUL && Get(t, j) <= ' '
      invariant i <= j <= |t| && Skip(t, j) == Skip(t, i)
      decreases |t| - j
    {
      j := j + 1;
    }
  }

  // ---- numbers -------------------------------------------------------------------------

  lemma DigitsFold(s: string, c: char)
    requires (forall i :: 0 <= i < |s| ==> IsDigit(s[i])) && IsDigit(c)
    ensures DigitsValue(s + [c]) == DigitsValue(s) * 10 + (c as int - '0' as int)
  {
    assert (s + [c])[..|s|] == s;
  }

  lemma SliceMore(t: string, i: nat, j: nat)
    requires i <= j < |t|
    ensures t[i..j + 1] == t[i..j] + [t[j]]
  {}

  /** The loop over the digits of a number. */
  method ReadDigits(t: string, i: nat) returns (n: nat, j: nat)
    requires i <= |t| && NUL !in t
    ensures j == DigitsEnd(t, i) && (forall k :: i <= k < j ==> IsDigit(t[k])) && n == DigitsValue(t[i..j])
  {
    n, j := 0, i;
    assert t[i..i] == "";
    while IsDigit(Get(t, j))
      invariant i <= j <= |t| && DigitsEnd(t, j) == DigitsEnd(t, i)
      invariant (forall k :: i <= k < j ==> IsDigit(t[k])) && n == DigitsValue(t[i..j])
      decreases |t| - j
    {
      DigitsFold(t[i..j], t[j]);
      SliceMore(t, i, j);
      n := n * 10 + (t[j] as int - '0' as int);
      j := j + 1;
    }
  }

  /** parse_number. */
  method ParseInt(item: Item, t: string, i: nat) returns (end: End)
    requires i < |t| && NUL !in t && (t[i] == '-' || IsDigit(t[i]))
    modifies item`kind, item`valueint
    ensures var r := ParseNumber(t, i); if r.Ok? then end == To(r.end) && Is(item, r.value) else r.Outside? && end == Unmodelled
  {
    var sign, num := 1, i;
    if Get(t, num) == '-' {
      sign, num := -1, num + 1;
    }
    if Get(t, num) == '0' {
      num := num + 1;
    }
    var n := 0;
    ghost var b := num;
    if '1' <= Get(t, num) <= '9' {
      n, num := ReadDigits(t, num);
    } else {
      assert t[b..b] == "";
    }
    if Fractional(t, num) || !(INT_MIN <= sign * n <= INT_MAX) {
      return Unmodelled;
    }
    item.valueint := sign * n;
    item.kind := NUMBER;
    end := To(num);
  }

  // ---- strings -------------------------------------------------------------------------

  function Plus(n: nat, r: int): int { if r < 0 then -1 else n + r }

  /** How many characters the first pass counts; negative if it runs over the end. */
  function Raw(t: string, i: nat): (r: int)
    decreases |t| - i
  {
    if i >= |t| || t[i] == '\"' then 0
    else if t[i] != '\\' then Plus(1, Raw(t, i + 1))
    else if i + 1 == |t| then -1
    else Plus(1, Raw(t, i + 2))
  }

  lemma RawHex(t: string, i: nat)
    requires FourHex(t, i)
    ensures Raw(t, i) == Plus(4, Raw(t, i + 4))
  {
    assert HexValue(t[i]) >= 0 && HexValue(t[i + 1]) >= 0 && HexValue(t[i + 2]) >= 0 && HexValue(t[i + 3]) >= 0;
    assert Raw(t, i) == Plus(1, Raw(t, i + 1));
    assert Raw(t, i + 1) == Plus(1, Raw(t, i + 2));
    assert Raw(t, i + 2) == Plus(1, Raw(t, i + 3));
  }

  /** An escape is counted with at least as many characters as it stands for. */
  lemma RawEscape(t: string, i: nat)
    requires i < |t| && t[i] == '\\' && Unescape(t, i).Ok?
    ensures var u := Unescape(t, i); exists n: nat :: n >= |u.value| && Raw(t, i) == Plus(n, Raw(t, u.end))
  {
    var u := Unescape(t, i);
    assert Raw(t, i) == Plus(1, Raw(t, i + 2));
    if u.end == i + 2 {
      assert Raw(t, i) == Plus(1, Raw(t, u.end)) && 1 >= |u.value|;
    } else {
      RawHex(t, i + 2);
      if u.end == i + 12 {
        assert Raw(t, i + 6) == Plus(1, Raw(t, i + 8));
        RawHex(t, i + 8);
        assert Raw(t, i) == Plus(10, Raw(t, u.end)) && 10 >= |u.value|;
      } else {
        assert Raw(t, i) == Plus(5, Raw(t, u.end)) && 5 >= |u.value|;
      }
    }
  }

  /** The second pass never needs more room than the first one counted. */
  lemma {:induction false} RawEnough(t: string, i: nat)
    requires i <= |t|
    ensures Raw(t, i) < 0 ==> Inside(t, i).Outside?
    ensures Raw(t, i) >= 0 && Inside(t, i).Ok? ==> |Inside(t, i).value| <= Raw(t, i)
    decreases |t| - i
  {
    if i < |t| && t[i] != '\"' {
      if t[i] != '\\' {
        RawEnough(t, i + 1);
      } else if Unescape(t, i).Ok? {
        RawEscape(t, i);
        RawEnough(t, Unescape(t, i).end);
      }
    }
  }

  /** The first pass: the size of the string, roughly. */
  method CountRaw(t: string, i: nat) returns (len: int)
    requires i <= |t| && NUL !in t
    ensures len == Raw(t, i)
  {
    var ptr := i;
    len := 0;
    while Get(t, ptr) != '\"' && Get(t, ptr) != NUL
      invariant i <= ptr <= |t| && len >= 0 && Raw(t, i) == Plus(len, Raw(t, ptr))
      decreases |t| - ptr
    {
      len := len + 1;
      if t[ptr] == '\\' {
        if ptr + 1 == |t| {
          return -1;
        }
        ptr := ptr + 1;
      }
      ptr := ptr + 1;
    }
  }

  function FirstByteMark(len: nat): int
    requires 1 <= len <= 4
  {
    if len == 1 then 0 else if len == 2 then 0xC0 else if len == 3 then 0xE0 else 0xF0
  }

  lemma Sixes(u: int)
    requires 0 <= u < 0x11_0000
    ensures u / 0x40 / 0x40 == u / 0x1000 && u / 0x1000 / 0x40 == u / 0x4_0000
    ensures 0 <= u / 0x40 <= 0x4400 && 0 <= u / 0x1000 <= 0x110 && 0 <= u / 0x4_0000 <= 4
  {}

  /** The bytes in terms of repeated division. */
  lemma Utf8Bytes(u: int)
    requires 0 <= u < 0x11_0000
    ensures var s, v := Utf8(u), u / 0x40; var w := v / 0x40;
      if u < 0x80 then s == [u as char]
      else if u < 0x800 then s == [(0xC0 + v) as char, (0x80 + u % 0x40) as char]
      else if u < 0x1_0000 then s == [(0xE0 + w) as char, (0x80 + v % 0x40) as char, (0x80 + u % 0x40) as char]
      else s == [(0xF0 + w / 0x40) as char, (0x80 + w % 0x40) as char, (0x80 + v % 0x40) as char, (0x80 + u % 0x40) as char]
  {
    Sixes(u);
  }

  /** Writes the bytes of a code point from the last to the first. */
  method StoreUtf8(out: array<char>, at: nat, u: int) returns (ptr2: nat)
    requires 0 <= u < 0x11_0000 && at + |Utf8(u)| <= out.Length
    modifies out
    ensures ptr2 == at + |Utf8(u)| && out[..at] == old(out[..at]) && out[at..ptr2] == Utf8(u)
  {
    Sixes(u);
    Utf8Bytes(u);
    hide Utf8;
    var uc := u;
    var len := 4;
    if uc < 0x80 { len := 1; } else if uc < 0x800 { len := 2; } else if uc < 0x1_0000 { len := 3; }
    ptr2 := at + len;
    if len >= 4 { ptr2 := ptr2 - 1; out[ptr2] := (0x80 + uc % 0x40) as char; uc := uc / 0x40; }
    if len >= 3 { ptr2 := ptr2 - 1; out[ptr2] := (0x80 + uc % 0x40) as char; uc := uc / 0x40; }
    if len >= 2 { ptr2 := ptr2 - 1; out[ptr2] := (0x80 + uc % 0x40) as char; uc := uc / 0x40; }
    ptr2 := ptr2 - 1;
    out[ptr2] := (FirstByteMark(len) + uc) as char;
    ptr2 := ptr2 + len;
    assert len == |Utf8(u)|;
    assert forall k :: 0 <= k < len ==> out[at + k] == Utf8(u)[k];
  }

  /** parse_hex4 at a position with four hexadecimal digits. */
  method ParseHex4(t: string, i: nat) returns (h: int)
    requires FourHex(t, i)
    ensures h == Hex4(t, i)
  {
    h := 0;
    for k := 0 to 4
      invariant k == 1 ==> h == HexValue(t[i])
      invariant k == 2 ==> h == HexValue(t[i]) * 16 + HexValue(t[i + 1])
      invariant k == 3 ==> h == (HexValue(t[i]) * 16 + HexValue(t[i + 1])) * 16 + HexValue(t[i + 2])
      invariant k == 4 ==> h == Hex4(t, i)
      invariant k == 0 ==> h == 0
    {
      h := h * 16 + HexValue(t[i + k]);
    }
  }

  /** One character. */
  method StoreChar(out: array<char>, at: nat, c: char) returns (p: nat)
    requires at < out.Length
    modifies out
    ensures p == at + 1 && out[..at] == old(out[..at]) && out[at..p] == [c]
  {
    out[at] := c;
    p := at + 1;
  }

  lemma SurrogateBits(u: int, u2: int)
    requires High(u) && Low(u2)
    ensures u % 0x400 == u - 0xD800 && u2 % 0x400 == u2 - 0xDC00
  {}

  /** The case of the second pass for a unicode escape. */
  method StoreUnicode(out: array<char>, at: nat, t: string, i: nat) returns (p: nat, ptr: nat)
    requires i < |t| && t[i] == '\\' && Get(t, i + 1) == 'u' && Unescape(t, i).Ok?
    requires at + |Unescape(t, i).value| <= out.Length
    modifies out
    ensures var u := Unescape(t, i);
      p == at + |u.value| && ptr == u.end && out[..at] == old(out[..at]) && out[at..p] == u.value
  {
    hide Hex4, Utf8, HexValue;
    p, ptr := at, i + 6;
    var uc := ParseHex4(t, i + 2);
    if (0xDC00 <= uc <= 0xDFFF) || uc == 0 {
      return;
    }
    if 0xD800 <= uc <= 0xDBFF {
      if Get(t, ptr) != '\\' || Get(t, ptr + 1) != 'u' {
        return;
      }
      var uc2 := ParseHex4(t, i + 8);
      ptr := ptr + 6;
      if uc2 < 0xDC00 || uc2 > 0xDFFF {
        return;
      }
      SurrogateBits(uc, uc2);
      uc := 0x1_0000 + (uc % 0x400) * 0x400 + uc2 % 0x400;
    }
    p := StoreUtf8(out, at, uc);
  }

  /** The switch of the second pass. */
  method StoreEscaped(out: array<char>, at: nat, t: string, i: nat) returns (p: nat, ptr: nat)
    requires i < |t| && t[i] == '\\' && Unescape(t, i).Ok? && at + |Unescape(t, i).value| <= out.Length
    modifies out
    ensures var u := Unescape(t, i);
      p == at + |u.value| && ptr == u.end && out[..at] == old(out[..at]) && out[at..p] == u.value
  {
    ptr := i + 2;
    if t[i + 1] == 'b' { p := StoreChar(out, at, '\U{08}'); }
    else if t[i + 1] == 'f' { p := StoreChar(out, at, '\U{0c}'); }
    else if t[i + 1] == 'n' { p := StoreChar(out, at, '\n'); }
    else if t[i + 1] == 'r' { p := StoreChar(out, at, '\r'); }
    else if t[i + 1] == 't' { p := StoreChar(out, at, '\t'); }
    else if t[i + 1] == 'u' { p, ptr := StoreUnicode(out, at, t, i); }
    else { p := StoreChar(out, at, t[i + 1]); }
  }

  /** What the second pass stored so far is the front of the string. */
  ghost predicate Unquoted(out: array<char>, t: string, i: nat, p: nat, ptr: nat, len: nat)
    reads out
  {
    && i <= ptr <= |t| && p <= len < out.Length
    && Inside(t, i) == Cons(out[..p], Inside(t, ptr)) && Raw(t, ptr) >= 0 && p + Raw(t, ptr) <= len
  }

  /** One turn of the second pass; not `ok` at an escape outside the model. */
  method UnquoteStep(out: array<char>, t: string, ghost i: nat, p0: nat, ptr0: nat, ghost len: nat)
    returns (ok: bool, p: nat, ptr: nat)
    requires Unquoted(out, t, i, p0, ptr0, len) && ptr0 < |t| && t[ptr0] != '\"'
    modifies out
    ensures if ok then Unquoted(out, t, i, p, ptr, len) && ptr > ptr0 else Inside(t, i).Outside?
  {
    ok, p, ptr := true, p0, ptr0;
    ghost var done := out[..p0];
    if t[ptr] != '\\' {
      p := StoreChar(out, p, t[ptr]);
      ptr := ptr + 1;
      ConsTwice(done, [t[ptr0]], Inside(t, ptr));
      assert out[..p] == done + out[p0..p];
    } else if !Unescape(t, ptr).Ok? {
      ok := false;
    } else {
      RawEscape(t, ptr);
      p, ptr := StoreEscaped(out, p, t, ptr);
      ConsTwice(done, Unescape(t, ptr0).value, Inside(t, ptr));
      assert out[..p] == done + out[p0..p];
    }
  }

  lemma ConsTwice(a: string, b: string, r: Outcome<string>)
    ensures Cons(a, Cons(b, r)) == Cons(a + b, r)
  {
    if r.Ok? { assert a + (b + r.value) == (a + b) + r.value; }
  }

  lemma ConsNothing(r: Outcome<string>)
    ensures Cons("", r) == r
  {
    if r.Ok? { assert "" + r.value == r.value; }
  }

  // ---- items -----------------------------------------------------------------------------

  /** What a parse function returns, and where it left the error position. */
  ghost predicate Agrees<T>(end: End, ep: int, r: Outcome<T>) {
    match r
    case Ok(_, e) => end == To(e)
    case Fail(e) => end == Stop && ep == e
    case Outside => end == Unmodelled
  }

  /** An item that has no children yet. */
  ghost predicate Blank(item: Item)
    reads item`child, item`kids, item`below
  {
    item.child == null && item.kids == [] && item.below == {}
  }

  lemma DistinctKids(kids: seq<Item>, below: set<Item>)
    requires Nested(kids, below)
    ensures forall j, k :: 0 <= j < k < |kids| ==> kids[j] != kids[k]
  {
    forall j, k | 0 <= j < k < |kids| ensures kids[j] != kids[k] {
      assert Span(kids[j]) !! Span(kids[k]) && kids[j] in Span(kids[j]);
    }
  }

  /** A chain grows by an item linked behind its last one. */
  twostate lemma ChainGrows(new kids: seq<Item>, new child: Item)
    requires old(allocated(kids))
    requires old(Chain(kids)) && child !in kids && forall j, k :: 0 <= j < k < |kids| ==> kids[j] != kids[k]
    requires forall k :: 0 <= k < |kids| ==> kids[k].prev == old(kids[k].prev)
    requires forall k :: 0 <= k < |kids| - 1 ==> kids[k].next == old(kids[k].next)
    requires kids != [] ==> kids[|kids| - 1].next == child
    requires child.next == null && child.prev == At(kids, |kids| - 1)
    ensures Chain(kids + [child])
  {
    var all := kids + [child];
    forall k | 0 <= k < |all| ensures all[k].next == At(all, k + 1) && all[k].prev == At(all, k - 1) {
      if k < |kids| { assert all[k] == kids[k]; }
    }
  }

  twostate lemma NestedGrows(new kids: seq<Item>, new below: set<Item>, new child: Item)
    requires old(allocated(kids)) && old(allocated(below))
    requires old(Nested(kids, below)) && forall k :: 0 <= k < |kids| ==> kids[k].below == old(kids[k].below)
    requires child !in below && child.below == {}
    ensures Nested(kids + [child], below + {child})
  {
    var all := kids + [child];
    forall k | 0 <= k < |all|
      ensures all[k] in below + {child} && Span(all[k]) <= below + {child} && all[k] !in all[k].below
    {
      if k < |kids| { assert all[k] == kids[k]; }
    }
    forall j, k | 0 <= j < k < |all| ensures Span(all[j]) !! Span(all[k]) {
      assert all[j] == kids[j] && Span(kids[j]) <= below;
      if k < |kids| { assert all[k] == kids[k]; }
    }
  }

  /** Appends a new, still empty child. */
  method Append(item: Item, last: Item?) returns (child: Item)
    requires Owns(item) && last == At(item.kids, |item.kids| - 1) && item !in item.below
    modifies item`child, item`kids, item`below
    modifies (if last == null then {} else {last})`next
    ensures fresh(child) && Blank(child) && item.kids == old(item.kids) + [child] && item.below == old(item.below) + {child}
    ensures Owns(item) && item !in item.below && child.name == "" && child.valuestring == ""
  {
    hide Nested, Chain;
    child := new Item();
    ghost var kids := item.kids;
    DistinctKids(kids, item.below);
    if last == null {
      item.child := child;
    } else {
      last.next := child;
      child.prev := last;
    }
    ChainGrows(kids, child);
    NestedGrows(kids, item.below, child);
    item.kids := item.kids + [child];
    item.below := item.below + {child};
  }

  /** The children hold the values of `vs`. */
  ghost predicate Holds(item: Item, vs: seq<Value>)
    reads item`child, item`kids, item`below, item.below
  {
    && Owns(item) && item !in item.below && |item.kids| == |vs|
    && forall k :: 0 <= k < |vs| ==> Is(item.kids[k], vs[k])
  }

  /** All children but the last, which is still empty, hold the values of `vs`. */
  ghost predicate HoldsBut(item: Item, child: Item, vs: seq<Value>)
    reads item`child, item`kids, item`below, item.below
  {
    && Owns(item) && item !in item.below && |item.kids| == |vs| + 1 && child == item.kids[|vs|]
    && forall k :: 0 <= k < |vs| ==> Is(item.kids[k], vs[k])
  }

  lemma LastApart(kids: seq<Item>, below: set<Item>)
    requires Nested(kids, below)
    ensures forall k :: 0 <= k < |kids| ==> kids[k] in below && kids[k].below <= below && kids[|kids| - 1] !in kids[k].below
  {
    forall k | 0 <= k < |kids| ensures kids[|kids| - 1] !in kids[k].below {
      if k < |kids| - 1 { assert Span(kids[k]) !! Span(kids[|kids| - 1]); }
    }
  }

  lemma NoLast(kids: seq<Item>)
    ensures At(kids, |kids| - 1) == if kids == [] then null else kids[|kids| - 1]
  {}

  /** Appends an empty child behind children that hold values. */
  method AppendTo(item: Item, last: Item?, ghost vs: seq<Value>) returns (child: Item)
    requires Holds(item, vs) && last == At(item.kids, |item.kids| - 1)
    modifies item`child, item`kids, item`below
    modifies (if last == null then {} else {last})`next
    ensures fresh(child) && Blank(child) && HoldsBut(item, child, vs) && item.below == old(item.below) + {child}
    ensures item.kids == old(item.kids) + [child] && item !in item.below
  {
    hide Nested, Chain, At;
    ghost var kids := item.kids;
    LastApart(kids, item.below);
    NoLast(kids);
    child := Append(item, last);
    forall k | 0 <= k < |vs| ensures Is(item.kids[k], vs[k]) {
      assert item.kids[k] == kids[k];
    }
  }

  twostate lemma NestedWidens(new kids: seq<Item>, new child: Item, new below: set<Item>)
    requires old(allocated(kids)) && old(allocated(below)) && old(allocated(child))
    requires old(Nested(kids, below)) && kids != [] && child == kids[|kids| - 1] && old(child.below) == {}
    requires child !in child.below && child.below !! below
    requires forall o :: o in below && o != child ==> o.below == old(o.below)
    ensures Nested(kids, below + child.below)
  {
    DistinctThen(kids, below);
    forall j, k | 0 <= j < k < |kids| ensures Span(kids[j]) !! Span(kids[k]) {
      assert kids[j] != child && old(Span(kids[j])) !! old(Span(kids[k]));
    }
  }

  twostate lemma DistinctThen(new kids: seq<Item>, new below: set<Item>)
    requires old(allocated(kids)) && old(allocated(below))
    requires old(Nested(kids, below))
    ensures forall j, k :: 0 <= j < k < |kids| ==> kids[j] != kids[k]
  {
    forall j, k | 0 <= j < k < |kids| ensures kids[j] != kids[k] {
      assert old(Span(kids[j])) !! old(Span(kids[k])) && kids[j] in old(Span(kids[j]));
    }
  }

  /** Filling the empty last child completes the list. */
  twostate lemma Filled(new item: Item, new child: Item, new vs: seq<Value>, new v: Value)
    requires old(allocated(vs)) && old(allocated(item)) && old(allocated(child))
    requires old(HoldsBut(item, child, vs)) && old(Blank(child))
    requires Is(child, v) && child !in child.below && child.below !! old(item.below) && item !in child.below
    requires item.child == old(item.child) && item.kids == old(item.kids) && item.below == old(item.below) + child.below
    requires unchanged(old(item.below) - {child}) && child.next == old(child.next) && child.prev == old(child.prev)
    ensures Holds(item, vs + [v])
  {
    hide Chain, At;
    NestedWidens(item.kids, child, old(item.below));
    KidsKept(item.kids, child, old(item.below), vs);
  }

  /** The other children still hold their values. */
  twostate lemma KidsKept(new kids: seq<Item>, new child: Item, new below: set<Item>, new vs: seq<Value>)
    requires old(allocated(kids)) && old(allocated(below)) && old(allocated(vs)) && old(allocated(child))
    requires old(Nested(kids, below)) && |kids| == |vs| + 1 && child == kids[|vs|] && unchanged(below - {child})
    requires forall k :: 0 <= k < |vs| ==> old(Is(kids[k], vs[k]))
    ensures forall k :: 0 <= k < |vs| ==> Is(kids[k], vs[k])
  {
    forall k | 0 <= k < |vs| ensures Is(kids[k], vs[k]) {
      assert old(Span(kids[k])) !! old(Span(child)) && old(Span(kids[k])) <= below;
    }
  }

  /** How parse_array goes on behind an element. */
  function ItemsTail(t: string, j: nat, acc: seq<Value>): Outcome<Value>
    requires j <= |t|
  {
    if Get(t, j) == ',' then ParseItems(t, j + 1, acc)
    else if Get(t, j) == ']' then Ok(Array(acc), j + 1)
    else Fail(j)
  }

  lemma ItemsStep(t: string, i: nat, acc: seq<Value>)
    requires i <= |t|
    ensures ParseItems(t, i, acc) ==
      var r := ParseValue(t, Skip(t, i)); if r.Ok? then ItemsTail(t, Skip(t, r.end), acc + [r.value]) else r
  {}

  /** How parse_object goes on behind a member. */
  function MembersTail(t: string, j: nat, acc: seq<Member>): Outcome<Value>
    requires j <= |t|
  {
    if Get(t, j) == ',' then ParseMembers(t, j + 1, acc)
    else if Get(t, j) == '}' then Ok(Object(acc), j + 1)
    else Fail(j)
  }

  class Parser {
    /** The global error pointer; -1 is null. */
    var ep: int

    constructor ()
    {
      ep := -1;
    }

    /** parse_string: the item's string is the text between the quotes, unescaped. */
    method ParseText(item: Item, t: string, i: nat) returns (end: End)
      requires i <= |t| && NUL !in t
      modifies this`ep, item`kind, item`valuestring
      ensures var r := ParseString(t, i);
        Agrees(end, ep, r) && (r.Ok? ==> item.kind == STRING && item.valuestring == r.value)
    {
      if Get(t, i) != '\"' {
        ep := i;
        return Stop;
      }
      var ptr := i + 1;
      var len := CountRaw(t, ptr);
      RawEnough(t, ptr);
      if len < 0 {
        return Unmodelled;
      }
      var out := new char[len + 1];
      var ptr2: nat := 0;
      ConsNothing(Inside(t, ptr));
      assert out[..0] == "";
      while Get(t, ptr) != '\"' && Get(t, ptr) != NUL
        invariant Unquoted(out, t, i + 1, ptr2, ptr, len)
        decreases |t| - ptr
      {
        var ok;
        ok, ptr2, ptr := UnquoteStep(out, t, i + 1, ptr2, ptr, len);
        if !ok {
          return Unmodelled;
        }
      }
      out[ptr2] := NUL;
      assert out[..ptr2] + "" == out[..ptr2];
      if Get(t, ptr) == '\"' {
        ptr := ptr + 1;
      }
      item.valuestring := out[..ptr2];
      item.kind := STRING;
      end := To(ptr);
    }

    /** parse_value: fills a new item. */
    method ParseInto(item: Item, t: string, i: nat) returns (end: End)
      requires i <= |t| && NUL !in t && Blank(item)
      modifies this`ep, item`kind, item`valuestring, item`valueint, item`child, item`kids, item`below
      ensures Agrees(end, ep, ParseValue(t, i)) && fresh(item.below) && item !in item.below
      ensures ParseValue(t, i).Ok? ==> Is(item, ParseValue(t, i).value)
      decreases |t| - i, 3
    {
      if StartsWith(t, i, "null") {
        item.kind := NULL;
        return To(i + 4);
      }
      if StartsWith(t, i, "false") {
        item.kind := FALSE;
        return To(i + 5);
      }
      if StartsWith(t, i, "true") {
        item.kind, item.valueint := TRUE, 1;
        return To(i + 4);
      }
      if Get(t, i) == '\"' {
        end := ParseText(item, t, i);
        return;
      }
      if Get(t, i) == '-' || IsDigit(Get(t, i)) {
        end := ParseInt(item, t, i);
        return;
      }
      if Get(t, i) == '[' {
        end := ParseArray(item, t, i);
        return;
      }
      if Get(t, i) == '{' {
        end := ParseObject(item, t, i);
        return;
      }
      ep := i;
      end := Stop;
    }

    /** The child of the next element: linked, then filled. */
    method ParseElement(item: Item, last: Item?, t: string, i: nat, ghost acc: seq<Value>) returns (child: Item, end: End)
      requires i <= |t| && NUL !in t && Holds(item, acc) && last == At(item.kids, |item.kids| - 1)
      modifies this`ep, item`child, item`kids, item`below
      modifies (if last == null then {} else {last})`next
      ensures Agrees(end, ep, ParseValue(t, Skip(t, i))) && item !in item.below && fresh(item.below - old(item.below))
      ensures fresh(child)
      ensures var r := ParseValue(t, Skip(t, i));
        r.Ok? ==> Holds(item, acc + [r.value]) && child == At(item.kids, |item.kids| - 1)
      decreases |t| - i, 4
    {
      hide Owns, Holds, Is, ParseValue;
      child := AppendTo(item, last, acc);
      var value := SkipBlank(t, i);
      label before:
      end := ParseInto(child, t, value);
      ghost var r := ParseValue(t, value);
      item.below := item.below + child.below;
      if r.Ok? { Filled@before(item, child, acc, r.value); }
    }

    /** parse_array. */
    method ParseArray(item: Item, t: string, i: nat) returns (end: End)
      requires i < |t| && NUL !in t && t[i] == '[' && Blank(item)
      modifies this`ep, item`kind, item`child, item`kids, item`below
      ensures Agrees(end, ep, ParseValue(t, i)) && fresh(item.below) && item !in item.below
      ensures ParseValue(t, i).Ok? ==> Is(item, ParseValue(t, i).value)
      decreases |t| - i, 2
    {
      hide ParseValue, ParseItems, Holds;
      Dispatch(t, i);
      item.kind := ARRAY;
      var value := SkipBlank(t, i + 1);
      if Get(t, value) == ']' {
        return To(value + 1);
      }
      end := ParseElements(item, t, value);
    }

    /** The elements of a nonempty array. */
    method ParseElements(item: Item, t: string, start: nat) returns (end: End)
      requires start <= |t| && NUL !in t && Blank(item) && item.kind == ARRAY
      modifies this`ep, item`child, item`kids, item`below
      ensures Agrees(end, ep, ParseItems(t, start, [])) && fresh(item.below) && item !in item.below
      ensures ParseItems(t, start, []).Ok? ==> Is(item, ParseItems(t, start, []).value)
      decreases |t| - start, 5
    {
      hide ParseValue, ParseItems, Holds, Is;
      ghost var acc := [];
      BlankHolds(item);
      var child;
      child, end := ParseElement(item, null, t, start, acc);
      ItemsStep(t, start, acc);
      if !end.To? {
        return;
      }
      acc := acc + [ParseValue(t, Skip(t, start)).value];
      var value := SkipBlank(t, end.pos);
      while Get(t, value) == ','
        invariant start < value <= |t| && Holds(item, acc) && child == At(item.kids, |item.kids| - 1)
        invariant fresh(item.below) && fresh(child) && item !in item.below && ParseItems(t, start, []) == ItemsTail(t, value, acc)
        decreases |t| - value
      {
        ItemsStep(t, value + 1, acc);
        ghost var r := ParseValue(t, Skip(t, value + 1));
        child, end := ParseElement(item, child, t, value + 1, acc);
        if !end.To? {
          return;
        }
        acc := acc + [r.value];
        value := SkipBlank(t, end.pos);
      }
      if Get(t, value) == ']' {
        HoldsIs(item, acc);
        return To(value + 1);
      }
      ep := value;
      end := Stop;
    }

    /** The child of the next member: linked, then named, then filled. */
    method ParseMember(item: Item, last: Item?, t: string, i: nat, ghost acc: seq<Member>) returns (child: Item, end: End)
      requires i <= |t| && NUL !in t && HoldsMembers(item, acc) && last == At(item.kids, |item.kids| - 1)
      modifies this`ep, item`child, item`kids, item`below
      modifies (if last == null then {} else {last})`next
      ensures Agrees(end, ep, MemberAt(t, i)) && item !in item.below && fresh(item.below - old(item.below)) && fresh(child)
      ensures var r := MemberAt(t, i);
        r.Ok? ==> HoldsMembers(item, acc + [r.value]) && child == At(item.kids, |item.kids| - 1)
      decreases |t| - i, 4
    {
      hide Owns, Holds, Is, ParseValue, NameAt, Nested, Chain, HoldsBut;
      ghost var kids := item.kids;
      child := AppendTo(item, last, Values(acc));
      SameNames(kids, child, acc);
      label before:
      end := ParseName(child, t, i);
      if !end.To? {
        return;
      }
      var value := SkipBlank(t, end.pos);
      end := ParseInto(child, t, value);
      ghost var r := ParseValue(t, value);
      item.below := item.below + child.below;
      if r.Ok? {
        Filled@before(item, child, Values(acc), r.value);
        ValuesAppend(acc, Member(child.name, r.value));
      }
    }

    /** The name of a member and the colon. */
    method ParseName(child: Item, t: string, i: nat) returns (end: End)
      requires i <= |t| && NUL !in t
      modifies this`ep, child`kind, child`valuestring, child`name
      ensures Agrees(end, ep, NameAt(t, i)) && (NameAt(t, i).Ok? ==> child.name == NameAt(t, i).value)
    {
      hide ParseString;
      var value := SkipBlank(t, i);
      end := ParseText(child, t, value);
      if !end.To? {
        return;
      }
      value := SkipBlank(t, end.pos);
      child.name := child.valuestring;
      child.valuestring := "";
      if Get(t, value) != ':' {
        ep := value;
        return Stop;
      }
      end := To(value + 1);
    }

    /** parse_object. */
    method ParseObject(item: Item, t: string, i: nat) returns (end: End)
      requires i < |t| && NUL !in t && t[i] == '{' && Blank(item)
      modifies this`ep, item`kind, item`child, item`kids, item`below
      ensures Agrees(end, ep, ParseValue(t, i)) && fresh(item.below) && item !in item.below
      ensures ParseValue(t, i).Ok? ==> Is(item, ParseValue(t, i).value)
      decreases |t| - i, 2
    {
      hide ParseValue, ParseMembers, Holds;
      Dispatch(t, i);
      item.kind := OBJECT;
      var value := SkipBlank(t, i + 1);
      if Get(t, value) == '}' {
        return To(value + 1);
      }
      end := ParsePairs(item, t, value);
    }

    /** The members of a nonempty object. */
    method ParsePairs(item: Item, t: string, start: nat) returns (end: End)
      requires start <= |t| && NUL !in t && Blank(item) && item.kind == OBJECT
      modifies this`ep, item`child, item`kids, item`below
      ensures Agrees(end, ep, ParseMembers(t, start, [])) && fresh(item.below) && item !in item.below
      ensures ParseMembers(t, start, []).Ok? ==> Is(item, ParseMembers(t, start, []).value)
      decreases |t| - start, 5
    {
      hide ParseValue, ParseMembers, HoldsMembers, Is, MemberAt;
      ghost var acc := [];
      BlankHoldsMembers(item);
      var child;
      child, end := ParseMember(item, null, t, start, acc);
      MembersStep(t, start, acc);
      if !end.To? {
        return;
      }
      acc := acc + [MemberAt(t, start).value];
      var value := SkipBlank(t, end.pos);
      while Get(t, value) == ','
        invariant start < value <= |t| && HoldsMembers(item, acc) && child == At(item.kids, |item.kids| - 1)
        invariant fresh(item.below) && fresh(child) && item !in item.below
        invariant ParseMembers(t, start, []) == MembersTail(t, value, acc)
        decreases |t| - value
      {
        MembersStep(t, value + 1, acc);
        ghost var r := MemberAt(t, value + 1);
        child, end := ParseMember(item, child, t, value + 1, acc);
        if !end.To? {
          return;
        }
        acc := acc + [r.value];
        value := SkipBlank(t, end.pos);
      }
      if Get(t, value) == '}' {
        HoldsMembersIs(item, acc);
        return To(value + 1);
      }
      ep := value;
      end := Stop;
    }

    /** cJSON_ParseWithOpts: null, or the root of the tree and where parsing ended. */
    method Parse(t: string, requireEnd: bool) returns (root: Item?, end: End)
      requires NUL !in t
      modifies this`ep
      ensures var r := JsonText.Parse(t, requireEnd);
        (&& Agrees(end, ep, r) && (!r.Ok? ==> root == null)
         && (r.Ok? ==> root != null && fresh(root) && fresh(root.below) && Is(root, r.value)))
    {
      root := null;
      ep := -1;
      var item := new Item();
      var value := SkipBlank(t, 0);
      end := ParseInto(item, t, value);
      if !end.To? {
        return;
      }
      if requireEnd {
        var e := SkipBlank(t, end.pos);
        end := To(e);
        if Get(t, e) != NUL {
          ep := e;
          return null, Stop;
        }
      }
      root := item;
    }
  }

  function Values(ms: seq<Member>): seq<Value> { seq(|ms|, i requires 0 <= i < |ms| => ms[i].value) }

  lemma ValuesAppend(ms: seq<Member>, m: Member)
    ensures Values(ms + [m]) == Values(ms) + [m.value]
  {}

  /** The children hold the names and values of `ms`. */
  ghost predicate HoldsMembers(item: Item, ms: seq<Member>)
    reads item`child, item`kids, item`below, item.below
  {
    Holds(item, Values(ms)) && |item.kids| == |ms| && forall k :: 0 <= k < |ms| ==> item.kids[k].name == ms[k].name
  }

  /** A name and the colon behind it. */
  function NameAt(t: string, i: nat): (r: Outcome<string>)
    requires i <= |t|
    ensures r.Ok? ==> i < r.end <= |t|
  {
    var s := ParseString(t, Skip(t, i));
    if !s.Ok? then s
    else
      var c := Skip(t, s.end);
      if Get(t, c) != ':' then Fail(c) else Ok(s.value, c + 1)
  }

  /** A name, a colon and a value. */
  function MemberAt(t: string, i: nat): (r: Outcome<Member>)
    requires i <= |t|
    ensures r.Ok? ==> i < r.end <= |t|
  {
    var s := NameAt(t, i);
    if s.Fail? then Fail(s.ep) else if s.Outside? then Outside
    else
      var r := ParseValue(t, Skip(t, s.end));
      if r.Ok? then Ok(Member(s.value, r.value), r.end) else if r.Fail? then Fail(r.ep) else Outside
  }

  lemma MembersStep(t: string, i: nat, acc: seq<Member>)
    requires i <= |t|
    ensures var r := MemberAt(t, i);
      ParseMembers(t, i, acc) ==
        if r.Ok? then MembersTail(t, Skip(t, r.end), acc + [r.value]) else if r.Fail? then Fail(r.ep) else Outside
  {
    hide ParseValue, ParseString;
  }

  lemma SameNames(kids: seq<Item>, child: Item, ms: seq<Member>)
    requires |kids| == |ms| && forall k :: 0 <= k < |ms| ==> kids[k].name == ms[k].name
    ensures forall k :: 0 <= k < |ms| ==> (kids + [child])[k].name == ms[k].name
  {}

  lemma BlankHoldsMembers(item: Item)
    requires Blank(item)
    ensures HoldsMembers(item, []) && At(item.kids, |item.kids| - 1) == null
  {
    BlankHolds(item);
    assert Values([]) == [];
  }

  lemma HoldsMembersIs(item: Item, ms: seq<Member>)
    requires HoldsMembers(item, ms) && item.kind == OBJECT
    ensures Is(item, Object(ms))
  {}

  lemma BlankHolds(item: Item)
    requires Blank(item)
    ensures Holds(item, []) && At(item.kids, |item.kids| - 1) == null
  {}

  lemma HoldsIs(item: Item, vs: seq<Value>)
    requires Holds(item, vs) && item.kind == ARRAY
    ensures Is(item, Array(vs))
  {}
}
