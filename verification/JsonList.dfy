/** The doubly linked list of a container's children, edited in place. */
module JsonList {

  class Item {
    var next: Item?
    var prev: Item?
    var child: Item?

    constructor ()
      ensures next == null && prev == null && child == null
    {
      next, prev, child := null, null, null;
    }
  }

  ghost predicate Distinct(kids: seq<Item>) {
    forall i, j :: 0 <= i < j < |kids| ==> kids[i] != kids[j]
  }

  /** Neighbours in the sequence, null beyond its ends. */
  ghost function Nth(kids: seq<Item>, i: int): Item? {
    if 0 <= i < |kids| then kids[i] else null
  }

  /** `kids` are the children of `parent`: reached from `child` by `next`, and back by `prev`. No item occurs
      twice, so the chain ends. */
  ghost predicate Chain(parent: Item, kids: seq<Item>)
    reads parent, kids
  {
    && parent !in kids && Distinct(kids)
    && parent.child == Nth(kids, 0)
    && (forall i {:trigger kids[i].next} :: 0 <= i < |kids| ==> kids[i].next == Nth(kids, i + 1))
    && (forall i {:trigger kids[i].prev} :: 0 <= i < |kids| ==> kids[i].prev == Nth(kids, i - 1))
  }

  function InsertAt<T>(s: seq<T>, k: nat, x: T): seq<T> {
    if k < |s| then s[..k] + [x] + s[k..] else s + [x]
  }

  function RemoveAt<T>(s: seq<T>, k: nat): seq<T> {
    if k < |s| then s[..k] + s[k + 1..] else s
  }

  function ReplaceAt<T>(s: seq<T>, k: nat, x: T): seq<T> {
    if k < |s| then s[k := x] else s
  }

  /** A negative position counts as the first. */
  function Position(which: int): nat { if which > 0 then which else 0 }

  /** `cJSON_GetArrayItem`, and the walk each of the other operations starts with. */
  method Walk(parent: Item, which: int, ghost kids: seq<Item>) returns (c: Item?)
    requires Chain(parent, kids)
    ensures c == Nth(kids, Position(which))
  {
    c := parent.child;
    var left := which;
    ghost var i := 0;
    while c != null && left > 0
      invariant 0 <= i <= |kids| && c == Nth(kids, i)
      invariant left > 0 ==> i + left == which
      invariant left <= 0 ==> i == Position(which)
      decreases |kids| - i
    {
      c := c.next;
      left := left - 1;
      i := i + 1;
    }
  }

  method ArraySize(parent: Item, ghost kids: seq<Item>) returns (n: nat)
    requires Chain(parent, kids)
    ensures n == |kids|
  {
    var c := parent.child;
    n := 0;
    while c != null
      invariant n <= |kids| && c == Nth(kids, n)
      decreases |kids| - n
    {
      n := n + 1;
      c := c.next;
    }
  }

  /** `cJSON_AddItemToArray`: a loose item goes to the end. */
  method AddItem(parent: Item, item: Item?, ghost kids: seq<Item>) returns (ghost kids': seq<Item>)
    requires Chain(parent, kids)
    requires item != null ==> item != parent && item !in kids && item.next == null && item.prev == null
    modifies parent`child, kids`next, (if item == null then {} else {item})`prev
    ensures kids' == (if item == null then kids else kids + [item]) && Chain(parent, kids')
  {
    kids' := kids;
    if item == null {
      return;
    }
    kids' := kids + [item];
    var c := parent.child;
    if c == null {
      parent.child := item;
    } else {
      ghost var i := 0;
      while c.next != null
        invariant 0 <= i < |kids| && c == kids[i]
        decreases |kids| - i
      {
        c := c.next;
        i := i + 1;
      }
      c.next := item;
      item.prev := c;
    }
  }

  /** An item that left the chain loses its links. */
  method Unlink(c: Item, ghost parent: Item, ghost kids: seq<Item>)
    requires Chain(parent, kids) && c !in kids && c != parent
    modifies c`next, c`prev
    ensures Chain(parent, kids)
    ensures c.next == null && c.prev == null
  {
    c.next, c.prev := null, null;
  }

  lemma RemoveShape(kids: seq<Item>, k: nat)
    requires k < |kids| && Distinct(kids)
    ensures var r := RemoveAt(kids, k);
            && |r| == |kids| - 1 && Distinct(r) && kids[k] !in r
            && forall i :: 0 <= i < |r| ==> r[i] == kids[if i < k then i else i + 1]
  {}

  /** Every item but `k` is linked as in the chain, item `k` being stepped over. */
  ghost predicate Over(parent: Item, kids: seq<Item>, k: nat)
    reads parent, kids
  {
    && parent !in kids && Distinct(kids) && k < |kids|
    && parent.child == Nth(kids, if k == 0 then 1 else 0)
    && (forall i {:trigger kids[i].next} :: 0 <= i < |kids| && i != k ==> kids[i].next == Nth(kids, if i == k - 1 then k + 1 else i + 1))
    && (forall i {:trigger kids[i].prev} :: 0 <= i < |kids| && i != k ==> kids[i].prev == Nth(kids, if i == k + 1 then k - 1 else i - 1))
  }

  lemma OverIsChain(parent: Item, kids: seq<Item>, k: nat, r: seq<Item>)
    requires Over(parent, kids, k)
    requires |r| == |kids| - 1 && Distinct(r)
    requires forall i :: 0 <= i < |r| ==> r[i] == kids[if i < k then i else i + 1]
    ensures Chain(parent, r)
  {
    forall i | 0 <= i < |r|
      ensures r[i].prev == Nth(r, i - 1) && r[i].next == Nth(r, i + 1)
    {
      var j := if i < k then i else i + 1;
      assert r[i] == kids[j];
    }
  }

  /** The relinking of `cJSON_DetachItemFromArray` around item `k`. */
  method LinkOver(parent: Item, c: Item, ghost kids: seq<Item>, ghost k: nat)
    requires Chain(parent, kids) && k < |kids| && c == kids[k]
    modifies parent`child, kids`next, kids`prev
    ensures Over(parent, kids, k) && c.next == null && c.prev == null
  {
    if c.prev != null {
      c.prev.next := c.next;
    }
    if c.next != null {
      c.next.prev := c.prev;
    }
    if c == parent.child {
      parent.child := c.next;
    }
    c.prev, c.next := null, null;
  }

  /** `cJSON_DetachItemFromArray`: the item leaves the chain and loses its links. */
  method DetachItem(parent: Item, which: int, ghost kids: seq<Item>) returns (c: Item?, ghost kids': seq<Item>)
    requires Chain(parent, kids)
    modifies parent`child, kids`next, kids`prev
    ensures c == Nth(kids, Position(which))
    ensures kids' == RemoveAt(kids, Position(which)) && Chain(parent, kids')
    ensures c != null ==> c.next == null && c.prev == null && c !in kids'
  {
    ghost var k := Position(which);
    kids' := RemoveAt(kids, k);
    c := Walk(parent, which, kids);
    if c != null {
      RemoveShape(kids, k);
      LinkOver(parent, c, kids, k);
      OverIsChain(parent, kids, k, kids');
    }
  }

  lemma InsertShape(kids: seq<Item>, k: nat, item: Item)
    requires k < |kids| && item !in kids && Distinct(kids)
    ensures var r := InsertAt(kids, k, item);
            && |r| == |kids| + 1 && Distinct(r)
            && forall i :: 0 <= i < |r| ==> r[i] == if i < k then kids[i] else if i == k then item else kids[i - 1]
  {}

  /** The relinking of `cJSON_InsertItemInArray` in front of item `k`. */
  method LinkBefore(parent: Item, c: Item, item: Item, ghost kids: seq<Item>, ghost k: nat)
    requires Chain(parent, kids) && k < |kids| && c == kids[k] && item != parent && item !in kids
    modifies parent`child, kids`next, kids`prev, item`next, item`prev
    ensures Chain(parent, InsertAt(kids, k, item))
  {
    InsertShape(kids, k, item);
    ghost var r := InsertAt(kids, k, item);
    item.next := c;
    item.prev := c.prev;
    c.prev := item;
    if c == parent.child {
      parent.child := item;
    } else {
      item.prev.next := item;
    }
    forall i | 0 <= i < |r| ensures r[i].prev == Nth(r, i - 1) {}
    forall i | 0 <= i < |r| ensures r[i].next == Nth(r, i + 1) {}
  }

  /** `cJSON_InsertItemInArray`: in front of the item at the position, or at the end. */
  method InsertItem(parent: Item, which: int, item: Item, ghost kids: seq<Item>) returns (ghost kids': seq<Item>)
    requires Chain(parent, kids)
    requires item != parent && item !in kids && item.next == null && item.prev == null
    modifies parent`child, kids`next, kids`prev, item`next, item`prev
    ensures kids' == InsertAt(kids, Position(which), item) && Chain(parent, kids')
  {
    ghost var k := Position(which);
    var c := Walk(parent, which, kids);
    if c == null {
      kids' := AddItem(parent, item, kids);
      return;
    }
    kids' := InsertAt(kids, k, item);
    LinkBefore(parent, c, item, kids, k);
  }

  /** `cJSON_ReplaceItemInArray`: the new item takes the place of the old one, which is freed. */
  method ReplaceItem(parent: Item, which: int, item: Item, ghost kids: seq<Item>) returns (ghost kids': seq<Item>)
    requires Chain(parent, kids)
    requires item != parent && item !in kids
    modifies parent`child, kids`next, kids`prev, item`next, item`prev
    ensures kids' == ReplaceAt(kids, Position(which), item) && Chain(parent, kids')
    ensures Position(which) < |kids| ==> kids[Position(which)].next == null && kids[Position(which)].prev == null
    ensures Position(which) >= |kids| ==> item.next == old(item.next) && item.prev == old(item.prev)
  {
    ghost var k := Position(which);
    kids' := ReplaceAt(kids, k, item);
    var c := Walk(parent, which, kids);
    if c != null {
      LinkInstead(parent, c, item, kids, k);
    }
  }

  lemma ReplaceShape(kids: seq<Item>, k: nat, item: Item)
    requires k < |kids| && item !in kids && Distinct(kids)
    ensures var r := kids[k := item];
            && |r| == |kids| && Distinct(r) && kids[k] !in r
            && forall i :: 0 <= i < |r| ==> r[i] == if i == k then item else kids[i]
  {}

  /** The relinking of `cJSON_ReplaceItemInArray` around item `k`. */
  method LinkInstead(parent: Item, c: Item, item: Item, ghost kids: seq<Item>, ghost k: nat)
    requires Chain(parent, kids) && k < |kids| && c == kids[k] && item != parent && item !in kids
    modifies parent`child, kids`next, kids`prev, item`next, item`prev
    ensures Chain(parent, kids[k := item]) && c.next == null && c.prev == null
  {
    ReplaceShape(kids, k, item);
    ghost var r := kids[k := item];
    item.next := c.next;
    item.prev := c.prev;
    if item.next != null {
      item.next.prev := item;
    }
    if c == parent.child {
      parent.child := item;
    } else {
      item.prev.next := item;
    }
    forall i | 0 <= i < |r| ensures r[i].prev == Nth(r, i - 1) {}
    forall i | 0 <= i < |r| ensures r[i].next == Nth(r, i + 1) {}
    assert Chain(parent, r);
    Unlink(c, parent, r);
  }

  /** Detaching at a position undoes inserting there, also past either end of the list. */
  lemma RemoveUndoesInsert<T>(s: seq<T>, which: int, x: T)
    ensures var k := Position(which);
            RemoveAt(InsertAt(s, k, x), if k < |s| then k else |s|) == s
  {}

  lemma InsertedAt(kids: seq<Item>, which: int, item: Item)
    ensures var k := Position(which);
            var r := InsertAt(kids, k, item);
            && Nth(r, if k < |kids| then k else |kids|) == item
            && forall x <- r :: x in kids || x == item
  {}

  /** An item inserted anywhere and detached from where it then is leaves the chain as it was. */
  method InsertThenDetach(parent: Item, which: int, item: Item, ghost kids: seq<Item>) returns (c: Item?)
    requires Chain(parent, kids)
    requires item != parent && item !in kids && item.next == null && item.prev == null
    modifies parent`child, kids`next, kids`prev, item`next, item`prev
    ensures c == item && Chain(parent, kids)
  {
    var n := ArraySize(parent, kids);
    var at := if Position(which) < n then Position(which) else n;
    InsertedAt(kids, which, item);
    RemoveUndoesInsert(kids, which, item);
    ghost var longer := InsertItem(parent, which, item, kids);
    ghost var kids';
    c, kids' := DetachItem(parent, at, longer);
  }
}
