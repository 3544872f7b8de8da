/** The linked items of code/json/cjson/cJSON.h and the trees they stand for. */
module JsonItem {
  import opened JsonText

  datatype Kind = FALSE | TRUE | NULL | NUMBER | STRING | ARRAY | OBJECT

  class Item {
    var next: Item?
    var prev: Item?
    var child: Item?
    var kind: Kind
    var valuestring: string
    var valueint: int
    /** The field `string` of the source. */
    var name: string

    /** The children in order, and all items below this one. */
    ghost var kids: seq<Item>
    ghost var below: set<Item>

    /** cJSON_New_Item: all bytes zero. */
    constructor ()
      ensures next == prev == child == null && kind == FALSE && valuestring == name == "" && valueint == 0
      ensures kids == [] && below == {}
    {
      next, prev, child, kind, valuestring, valueint, name := null, null, null, FALSE, "", 0, "";
      kids, below := [], {};
    }
  }

  /** The item at a position of a list, null outside. */
  ghost function At(kids: seq<Item>, k: int): Item? { if 0 <= k < |kids| then kids[k] else null }

  /** The items of `kids` are doubly linked in this order. */
  ghost predicate Chain(kids: seq<Item>)
    reads kids`next, kids`prev
  {
    forall k :: 0 <= k < |kids| ==> kids[k].next == At(kids, k + 1) && kids[k].prev == At(kids, k - 1)
  }

  /** The item and all below it. */
  ghost function Span(item: Item): set<Item>
    reads item`below
  {
    {item} + item.below
  }

  /** The items of `kids` are among `below`, and no item is below two of them. */
  ghost predicate Nested(kids: seq<Item>, below: set<Item>)
    reads below`below
  {
    && (forall k :: 0 <= k < |kids| ==> kids[k] in below && Span(kids[k]) <= below && kids[k] !in kids[k].below)
    && (forall j, k :: 0 <= j < k < |kids| ==> Span(kids[j]) !! Span(kids[k]))
  }

  /** The children are linked in order and lie below `item`. */
  ghost predicate Owns(item: Item)
    reads item`child, item`kids, item`below, item.below`below, item.below`next, item.below`prev
  {
    item.child == At(item.kids, 0) && Nested(item.kids, item.below) && Chain(item.kids)
  }

  /** The item stands for the tree `v`; its own sibling links and name are its parent's. */
  ghost predicate Is(item: Item, v: Value)
    reads item`kind, item`valuestring, item`valueint, item`child, item`kids, item`below, item.below
    decreases v
  {
    match v
    case Null => item.kind == NULL
    case False => item.kind == FALSE
    case True => item.kind == TRUE
    case Number(n) => item.kind == NUMBER && item.valueint == n
    case String(s) => item.kind == STRING && item.valuestring == s
    case Array(items) =>
      && item.kind == ARRAY && Owns(item) && |item.kids| == |items|
      && forall k :: 0 <= k < |items| ==> Is(item.kids[k], items[k])
    case Object(ms) =>
      && item.kind == OBJECT && Owns(item) && |item.kids| == |ms|
      && forall k :: 0 <= k < |ms| ==> item.kids[k].name == ms[k].name && Is(item.kids[k], ms[k].value)
  }

  /** The `k`-th child, if there is one. */
  ghost function Kid(item: Item, k: nat): Item?
    reads item`kids
  {
    At(item.kids, k)
  }

  lemma NextKid(item: Item, k: nat)
    requires Owns(item) && k < |item.kids|
    ensures item.kids[k].next == Kid(item, k + 1)
  {
    assert Chain(item.kids);
  }

  lemma KidOfArray(item: Item, v: Value, k: nat)
    requires v.Array? && Is(item, v) && k <= |v.items|
    ensures |item.kids| == |v.items| && item.child == Kid(item, 0)
    ensures k < |v.items| ==> Kid(item, k) != null && Is(item.kids[k], v.items[k]) && item.kids[k].next == Kid(item, k + 1)
  {
    if k < |v.items| { NextKid(item, k); }
  }

  lemma KidOfObject(item: Item, v: Value, k: nat)
    requires v.Object? && Is(item, v) && k <= |v.members|
    ensures |item.kids| == |v.members| && item.child == Kid(item, 0)
    ensures k < |v.members| ==>
      && Kid(item, k) != null && Is(item.kids[k], v.members[k].value) && item.kids[k].name == v.members[k].name
      && item.kids[k].next == Kid(item, k + 1)
  {
    if k < |v.members| { NextKid(item, k); }
  }
}
