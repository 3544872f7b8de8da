/** The buffered printer of code/json/cjson/cJSON.c: cJSON_PrintBuffered and the functions
    below it when they are given a print buffer. */
module JsonBuffer {
  import opened JsonBits
  import opened JsonItem
  import opened JsonPrint
  import opened JsonPieces
  import opened JsonText

  class PrintBuffer {
    var buffer: array<char>
    var offset: nat

    constructor (prebuffer: nat)
      ensures Valid() && Text() == "" && fresh(buffer)
    {
      buffer := new char[prebuffer];
      offset := 0;
    }

    ghost predicate Valid()
      reads this
    {
      offset <= buffer.Length
    }

    /** What was written for good. */
    ghost function Text(): string
      requires Valid()
      reads this, buffer
    {
      buffer[..offset]
    }

    /** `s` stands behind `before` with a terminator, and the offset is not yet behind it. */
    ghost predicate Pending(before: string, s: string)
      reads this, buffer
    {
      && |before| <= offset <= |before + s| < buffer.Length
      && buffer[..|before + s|] == before + s && buffer[|before + s|] == NUL
    }

    lemma PendingMore(t: string, before: string, head: string, s: string)
      requires Pending(t, s) && t == before + head
      ensures Pending(before, head + s)
    {
      Assoc(before, head, s);
    }

    /** ensure: room for `needed` more characters; the buffer may move. */
    method Ensure(needed: nat) returns (ptr: nat)
      requires Valid() && 0 < offset + needed <= LIMIT
      modifies this`buffer
      ensures ptr == offset && (buffer == old(buffer) || fresh(buffer))
      ensures offset + needed <= buffer.Length && old(buffer.Length) <= buffer.Length
      ensures buffer == old(buffer) || buffer.Length == PowerAbove(offset + needed)
      ensures buffer[..old(buffer.Length)] == old(buffer[..]) && Text() == old(Text())
    {
      var total := needed + offset;
      if total > buffer.Length {
        var newsize := Pow2Gt(total);
        var newbuffer := new char[newsize];
        for i := 0 to buffer.Length
          invariant newbuffer[..i] == buffer[..i]
          modifies newbuffer
        {
          newbuffer[i] := buffer[i];
        }
        buffer := newbuffer;
      }
      ptr := offset;
    }

    /** update: moves the offset to the terminator. */
    method Update(ghost before: string, ghost s: string)
      requires Pending(before, s) && NUL !in s
      modifies this`offset
      ensures Valid() && Text() == before + s
    {
      var e := offset;
      ghost var z := |before + s|;
      forall k | offset <= k < z ensures buffer[k] != NUL {
        assert buffer[..z][k] == (before + s)[k] == s[k - |before|];
      }
      while buffer[e] != NUL
        invariant offset <= e <= z
        decreases z - e
        modifies {}
      {
        e := e + 1;
      }
      offset := e;
    }

    /** Makes room, writes characters, perhaps a terminator, and moves the offset. */
    method Put(s: string, needed: nat, end: bool)
      requires Valid() && 0 < needed && offset + needed <= LIMIT && |s| + (if end then 1 else 0) <= needed
      modifies this, buffer
      ensures Valid() && Text() == old(Text()) + s && (buffer == old(buffer) || fresh(buffer))
    {
      var ptr := Ensure(needed);
      Store(buffer, ptr, s);
      if end {
        buffer[ptr + |s|] := NUL;
      }
      assert buffer[..ptr + |s|] == buffer[..ptr] + buffer[ptr..ptr + |s|];
      offset := offset + |s|;
    }

    /** Makes room and writes a terminated string; the offset stays. */
    method PutEnded(s: string, needed: nat) returns (out: nat)
      requires Valid() && offset + needed <= LIMIT && |s| < needed
      modifies this`buffer, buffer
      ensures out == old(offset) && Pending(old(Text()), s) && (buffer == old(buffer) || fresh(buffer))
    {
      out := Ensure(needed);
      StoreEnded(buffer, out, s);
      assert buffer[..out + |s|] == buffer[..out] + buffer[out..out + |s|];
    }

    /** print_string_ptr with a buffer. */
    method PrintString(str: string) returns (out: nat)
      requires Valid() && NUL !in str && offset + |Quoted(str)| + 1 <= LIMIT
      modifies this`buffer, buffer
      ensures out == old(offset) && Pending(old(Text()), Quoted(str)) && (buffer == old(buffer) || fresh(buffer))
    {
      hide Escaped, Escape;
      var flag := NeedsEscape(str);
      if !flag {
        out := PutEnded("\"" + str + "\"", |str| + 3);
      } else {
        var len := EscapedLength(str);
        out := Ensure(len + 3);
        StoreQuoted(buffer, out, str);
        assert buffer[..out + |Quoted(str)|] == buffer[..out] + buffer[out..out + |Quoted(str)|];
      }
    }

    method PrintNumber(n: int) returns (out: nat)
      requires Valid() && INT_MIN <= n <= INT_MAX && offset + 64 <= LIMIT
      modifies this`buffer, buffer
      ensures out == old(offset) && Pending(old(Text()), Decimal(n)) && (buffer == old(buffer) || fresh(buffer))
    {
      if n == 0 {
        out := PutEnded("0", 2);
      } else {
        DecimalShort(n);
        out := PutEnded(Decimal(n), 21);
      }
    }

    /** Room for a value, for the largest amount asked for in advance, and below the limit. */
    ghost predicate Room(size: nat, depth: nat)
      reads this
    {
      Valid() && offset + size + depth + 64 <= LIMIT
    }

    /** print_value with a buffer. */
    method PrintValue(item: Item, ghost v: Value, depth: nat, fmt: bool) returns (out: nat)
      requires Is(item, v) && Plain(v) && Room(|Print(v, depth, fmt)|, depth)
      modifies this, buffer
      ensures out == old(offset) && Pending(old(Text()), Print(v, depth, fmt)) && (buffer == old(buffer) || fresh(buffer))
      decreases v, 1, 0
    {
      match item.kind
      case NULL => out := PutEnded("null", 5);
      case FALSE => out := PutEnded("false", 6);
      case TRUE => out := PutEnded("true", 5);
      case NUMBER => out := PrintNumber(item.valueint);
      case STRING => out := PrintString(item.valuestring);
      case ARRAY => out := PrintArray(item, v, depth, fmt);
      case OBJECT => out := PrintObject(item, v, depth, fmt);
    }

    /** print_value followed by update. */
    method PrintChild(item: Item, ghost v: Value, depth: nat, fmt: bool)
      requires Is(item, v) && Plain(v) && Room(|Print(v, depth, fmt)|, depth)
      modifies this, buffer
      ensures Valid() && Text() == old(Text()) + Print(v, depth, fmt) && (buffer == old(buffer) || fresh(buffer))
      decreases v, 2, 0
    {
      ghost var before := Text();
      var out := PrintValue(item, v, depth, fmt);
      PrintNoNul(v, depth, fmt);
      Update(before, Print(v, depth, fmt));
    }

    method PrintArray(item: Item, ghost v: Value, depth: nat, fmt: bool) returns (out: nat)
      requires v.Array? && Is(item, v) && Plain(v) && Room(|Print(v, depth, fmt)|, depth)
      modifies this, buffer
      ensures out == old(offset) && Pending(old(Text()), Print(v, depth, fmt)) && (buffer == old(buffer) || fresh(buffer))
      decreases v, 0, |v.items| + 3
    {
      hide Is, Items, Print, Plain;
      ghost var before, all := Text(), Items(v, 0, depth + 1, fmt);
      ArrayText(v, depth, fmt);
      KidOfArray(item, v, 0);
      if item.child == null {
        assert "[" + ("" + "]") == "[]";
        out := PutEnded("[]", 3);
        return;
      }
      out := offset;
      Put("[", 1, false);
      PrintItems(item, v, depth + 1, fmt);
      ghost var t := Text();
      var ptr := PutEnded("]", 2);
      Assoc(before, "[", all);
      Assoc("[", all, "]");
      PendingMore(t, before, "[" + all, "]");
    }

    /** The loop over the elements. */
    method PrintItems(item: Item, ghost v: Value, depth: nat, fmt: bool)
      requires v.Array? && Is(item, v) && Plain(v) && Room(|Items(v, 0, depth, fmt)|, depth)
      modifies this, buffer
      ensures Valid() && Text() == old(Text()) + Items(v, 0, depth, fmt) && (buffer == old(buffer) || fresh(buffer))
      decreases v, 0, |v.items| + 2
    {
      hide Is, Plain, Print, Items;
      var child := item.child;
      ghost var k, before, done := 0, Text(), "";
      KidOfArray(item, v, 0);
      NoItems(v, depth, fmt);
      while child != null
        invariant k <= |v.items| == |item.kids| && child == Kid(item, k) && (buffer == old(buffer) || fresh(buffer))
        invariant Is(item, v) && Room(|Items(v, k, depth, fmt)|, depth)
        invariant Text() == before + done && done + Items(v, k, depth, fmt) == Items(v, 0, depth, fmt)
        decreases |item.kids| - k
      {
        child := PrintElement(child, item, v, k, depth, fmt);
        ItemsUnfold(v, k, depth, fmt);
        Assoc(done, Element(v, k, depth, fmt), Items(v, k + 1, depth, fmt));
        Assoc(before, done, Element(v, k, depth, fmt));
        done := done + Element(v, k, depth, fmt);
        k := k + 1;
      }
    }

    /** An element and the comma behind it. */
    method PrintElement(child: Item, item: Item, ghost v: Value, ghost k: nat, depth: nat, fmt: bool) returns (next: Item?)
      requires v.Array? && Is(item, v) && Plain(v) && k < |v.items| && child == Kid(item, k)
      requires Room(|Items(v, k, depth, fmt)|, depth)
      modifies this, buffer
      ensures Room(|Items(v, k + 1, depth, fmt)|, depth) && (buffer == old(buffer) || fresh(buffer))
      ensures Text() == old(Text()) + Element(v, k, depth, fmt) && next == Kid(item, k + 1)
      decreases v, 0, |v.items| - k
    {
      hide Is, Print, Items;
      ghost var before := Text();
      KidOfArray(item, v, k);
      ItemsUnfold(v, k, depth, fmt);
      PrintChild(child, v.items[k], depth, fmt);
      if child.next != null {
        var len := if fmt then 2 else 1;
        Put("," + If(fmt, " "), len + 1, true);
      }
      next := child.next;
      Assoc(before, Print(v.items[k], depth, fmt), Comma(k + 1 == |v.items|, "," + If(fmt, " ")));
    }

    method PrintObject(item: Item, ghost v: Value, depth: nat, fmt: bool) returns (out: nat)
      requires v.Object? && Is(item, v) && Plain(v) && Room(|Print(v, depth, fmt)|, depth)
      modifies this, buffer
      ensures out == old(offset) && Pending(old(Text()), Print(v, depth, fmt)) && (buffer == old(buffer) || fresh(buffer))
      decreases v, 0, |v.members| + 3
    {
      hide Is, Members, Print, Plain, Tabs, If;
      KidOfObject(item, v, 0);
      if item.child == null {
        EmptyText(v, depth, fmt);
        var w := If(fmt, "\n" + Tabs(if depth == 0 then 0 else depth - 1));
        out := PutEnded("{" + w + "}", if fmt then depth + 4 else 3);
        return;
      }
      ghost var before, all := Text(), Members(v, 0, depth + 1, fmt);
      ghost var w, tail := If(fmt, "\n"), If(fmt, Tabs(depth));
      ObjectText(v, depth, fmt);
      IfLength(depth, fmt);
      out := offset;
      var len := if fmt then 2 else 1;
      Put("{" + If(fmt, "\n"), len + 1, true);
      PrintMembers(item, v, depth + 1, fmt);
      ghost var t := Text();
      var ptr := PutEnded(If(fmt, Tabs(depth)) + "}", if fmt then depth + 2 else 2);
      Assoc(before, "{" + w, all);
      Assoc("{" + w, all, tail + "}");
      Assoc("{", w, all + (tail + "}"));
      PendingMore(t, before, "{" + w + all, tail + "}");
    }

    /** The loop over the members. */
    method PrintMembers(item: Item, ghost v: Value, depth: nat, fmt: bool)
      requires v.Object? && Is(item, v) && Plain(v) && Room(|Members(v, 0, depth, fmt)|, depth) && depth > 0
      modifies this, buffer
      ensures Valid() && Text() == old(Text()) + Members(v, 0, depth, fmt) && (buffer == old(buffer) || fresh(buffer))
      decreases v, 0, |v.members| + 2
    {
      hide Is, Plain, Print, Members, Line;
      var child := item.child;
      ghost var k, before, done := 0, Text(), "";
      KidOfObject(item, v, 0);
      NoMembers(v, depth, fmt);
      while child != null
        invariant k <= |v.members| == |item.kids| && child == Kid(item, k) && (buffer == old(buffer) || fresh(buffer))
        invariant Is(item, v) && Room(|Members(v, k, depth, fmt)|, depth)
        invariant Text() == before + done && done + Members(v, k, depth, fmt) == Members(v, 0, depth, fmt)
        decreases |item.kids| - k
      {
        child := PrintMember(child, item, v, k, depth, fmt);
        MembersUnfold(v, k, depth, fmt);
        Assoc(done, Line(v, k, depth, fmt), Members(v, k + 1, depth, fmt));
        Assoc(before, done, Line(v, k, depth, fmt));
        done := done + Line(v, k, depth, fmt);
        k := k + 1;
      }
    }

    /** One line of an object. */
    method PrintMember(child: Item, item: Item, ghost v: Value, ghost k: nat, depth: nat, fmt: bool) returns (next: Item?)
      requires v.Object? && Is(item, v) && Plain(v) && k < |v.members| && child == Kid(item, k) && depth > 0
      requires Room(|Members(v, k, depth, fmt)|, depth)
      modifies this, buffer
      ensures Room(|Members(v, k + 1, depth, fmt)|, depth) && (buffer == old(buffer) || fresh(buffer))
      ensures Text() == old(Text()) + Line(v, k, depth, fmt) && next == Kid(item, k + 1)
      decreases v, 0, |v.members| - k
    {
      hide Is, Print, Members, Line, Quoted, Tabs, If, Comma;
      KidOfObject(item, v, k);
      MembersUnfold(v, k, depth, fmt);
      LineLong(v, k, depth, fmt);
      ghost var before, head, p := Text(), NamePart(child.name, depth, fmt), Print(v.members[k].value, depth, fmt);
      ghost var tail := Comma(k + 1 == |v.members|, ",") + If(fmt, "\n");
      LinePieces(before, head, p, Comma(k + 1 == |v.members|, ","), If(fmt, "\n"));
      PrintName(child.name, depth, fmt);
      PrintChild(child, v.members[k].value, depth, fmt);
      PrintLineEnd(child.next != null, fmt);
      next := child.next;
    }

    /** The indentation, the name and the colon. */
    method PrintName(name: string, depth: nat, fmt: bool)
      requires NUL !in name && depth > 0 && Room(|NamePart(name, depth, fmt)|, depth)
      modifies this, buffer
      ensures Valid() && Text() == old(Text()) + NamePart(name, depth, fmt) && (buffer == old(buffer) || fresh(buffer))
    {
      hide Quoted;
      ghost var before := Text();
      if fmt {
        Put(Tabs(depth), depth, false);
      }
      assert Text() == before + If(fmt, Tabs(depth));
      var out := PrintString(name);
      EscapedNoNul(name);
      QuotedNoNul(name);
      Update(before + If(fmt, Tabs(depth)), Quoted(name));
      var len := if fmt then 2 else 1;
      Put(":" + If(fmt, "\t"), len, false);
      HeadPieces(before, If(fmt, Tabs(depth)), Quoted(name), ":", If(fmt, "\t"));
    }

    /** The comma and the line break behind a member. */
    method PrintLineEnd(more: bool, fmt: bool)
      requires Valid() && offset + 4 <= LIMIT
      modifies this, buffer
      ensures Valid() && Text() == old(Text()) + (Comma(!more, ",") + If(fmt, "\n")) && (buffer == old(buffer) || fresh(buffer))
    {
      var len := (if fmt then 1 else 0) + if more then 1 else 0;
      Put((if more then "," else "") + If(fmt, "\n"), len + 1, true);
    }
  }

  function NamePart(name: string, depth: nat, fmt: bool): string {
    If(fmt, Tabs(depth)) + Quoted(name) + ":" + If(fmt, "\t")
  }

  lemma HeadPieces(b: string, w: string, q: string, c: string, s: string)
    ensures ((b + w) + q) + (c + s) == b + (w + q + c + s)
  {
    Assoc(b + w, q, c + s);
    Assoc(b, w, q + (c + s));
    Assoc(w, q, c + s);
    Assoc(w + q, c, s);
  }

  lemma LinePieces(b: string, h: string, p: string, c: string, nl: string)
    ensures ((b + h) + p) + (c + nl) == b + (h + p + c + nl)
  {
    HeadPieces(b, h, p, c, nl);
  }

  lemma EmptyText(v: Value, depth: nat, fmt: bool)
    requires v == Object([])
    ensures var w := If(fmt, "\n" + Tabs(if depth == 0 then 0 else depth - 1));
      Print(v, depth, fmt) == "{" + w + "}" && |w| <= if fmt then depth + 1 else 0
  {}

  lemma IfLength(depth: nat, fmt: bool)
    ensures |If(fmt, "\n")| == (if fmt then 1 else 0) && |If(fmt, Tabs(depth))| == if fmt then depth else 0
  {}

  /** cJSON_PrintBuffered: whatever the first size, the buffer ends up with the whole text. */
  method PrintBuffered(item: Item, ghost v: Value, prebuffer: nat, fmt: bool) returns (text: array<char>)
    requires Is(item, v) && Plain(v) && |Print(v, 0, fmt)| + 64 <= LIMIT
    ensures fresh(text) && Wrote(text, 0, Print(v, 0, fmt))
  {
    var p := new PrintBuffer(prebuffer);
    var out := p.PrintValue(item, v, 0, fmt);
    text := p.buffer;
    assert "" + Print(v, 0, fmt) == Print(v, 0, fmt);
  }

  lemma QuotedNoNul(s: string)
    requires NUL !in Escaped(s)
    ensures NUL !in Quoted(s)
  {}

  function Element(v: Value, k: nat, depth: nat, fmt: bool): string
    requires v.Array? && k < |v.items|
  {
    Print(v.items[k], depth, fmt) + Comma(k + 1 == |v.items|, "," + If(fmt, " "))
  }

  lemma ItemsUnfold(v: Value, k: nat, depth: nat, fmt: bool)
    requires v.Array? && k < |v.items|
    ensures Items(v, k, depth, fmt) == Element(v, k, depth, fmt) + Items(v, k + 1, depth, fmt)
  {}

  lemma NoItems(v: Value, depth: nat, fmt: bool)
    requires v.Array?
    ensures Items(v, |v.items|, depth, fmt) == "" && forall s: string :: s + "" == s && "" + s == s
  {}

  lemma MembersUnfold(v: Value, k: nat, depth: nat, fmt: bool)
    requires v.Object? && k < |v.members|
    ensures Members(v, k, depth, fmt) == Line(v, k, depth, fmt) + Members(v, k + 1, depth, fmt)
  {}

  lemma NoMembers(v: Value, depth: nat, fmt: bool)
    requires v.Object?
    ensures Members(v, |v.members|, depth, fmt) == "" && forall s: string :: s + "" == s && "" + s == s
  {}

  lemma LineLong(v: Value, k: nat, depth: nat, fmt: bool)
    requires v.Object? && k < |v.members|
    ensures var m := v.members[k];
      Line(v, k, depth, fmt) == NamePart(m.name, depth, fmt) + Print(m.value, depth, fmt)
        + Comma(k + 1 == |v.members|, ",") + If(fmt, "\n")
  {}
}
