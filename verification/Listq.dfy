/**
 The listq container: a tail queue of heap items with back-links, owner pointers and a cached size.

 The links are those of the TAILQ macros: every item holds a pointer to the next item and a pointer to
 the forward link that points at it, and the head holds a pointer to the last forward link.
 */
module Listq {

  /** The caller's data pointer; 0 is the null pointer. */
  type Pointer = nat

  /** The address of a forward link: of a head's tqh_first or of an item's tqe_next. */
  datatype Link = NoLink | FirstOf(list: Container) | NextOf(item: Item)

  ghost predicate Distinct<T>(s: seq<T>) {
    forall i, j :: 0 <= i < j < |s| ==> s[i] != s[j]
  }

  class Item {
    var tqeNext: Item?
    var tqePrev: Link
    var data: Pointer
    var container: Container?

    /** calloc. */
    constructor ()
      ensures Zeroed()
    {
      tqeNext, tqePrev, data, container := null, NoLink, 0, null;
    }

    /** memset. */
    method Memset()
      modifies this
      ensures Zeroed()
    {
      tqeNext, tqePrev, data, container := null, NoLink, 0, null;
    }

    predicate Zeroed()
      reads this
    {
      tqeNext == null && tqePrev == NoLink && data == 0 && container == null
    }
  }

  class Container {
    var tqhFirst: Item?
    var tqhLast: Link
    var size: int
    ghost var items: seq<Item>

    ghost function ItemAt(i: nat): Item?
      reads this
    {
      if i < |items| then items[i] else null
    }

    /** The forward link that points at item i. */
    ghost function LinkTo(i: nat): Link
      requires i <= |items|
      reads this
    {
      if i == 0 then FirstOf(this) else NextOf(items[i - 1])
    }

    ghost predicate Linked(i: nat)
      requires i < |items|
      reads this, items
    {
      && items[i].tqeNext == ItemAt(i + 1)
      && items[i].tqePrev == LinkTo(i)
      && items[i].container == this
      && items[i].data != 0
    }

    ghost predicate Valid()
      reads this, items
    {
      && Distinct(items)
      && tqhFirst == ItemAt(0)
      && tqhLast == LinkTo(|items|)
      && size == |items|
      && forall i :: 0 <= i < |items| ==> Linked(i)
    }

    /** listq_create. */
    constructor ()
      ensures Valid() && items == []
    {
      tqhFirst := null;
      tqhLast := FirstOf(this);
      size := 0;
      items := [];
    }

    /** TAILQ_INSERT_TAIL and the size count. */
    method InsertTail(item: Item)
      requires Valid() && item !in items
      requires item.container == this && item.data != 0
      modifies this, items, item
      ensures Valid() && items == old(items) + [item]
      ensures item.data == old(item.data) && item.container == this
      ensures forall x :: x in old(items) ==> x.data == old(x.data) && x.container == old(x.container)
    {
      item.tqeNext := null;
      item.tqePrev := tqhLast;
      match tqhLast {
        case FirstOf(list) => list.tqhFirst := item;
        case NextOf(last) => last.tqeNext := item;
      }
      tqhLast := NextOf(item);
      size := size + 1;
      items := items + [item];
      forall i | 0 <= i < |items|
        ensures Linked(i)
      {
        assert i < |old(items)| ==> old(Linked(i)) && items[i] == old(items)[i];
      }
    }

    /** The links of item i when those around position k pass that position by. */
    ghost predicate LinkedPast(i: nat, k: nat)
      requires i < |items|
      reads this, items
    {
      && items[i].tqeNext == ItemAt(if i + 1 == k then k + 1 else i + 1)
      && items[i].tqePrev == LinkTo(if i == k + 1 then k else i)
      && items[i].container == this
      && items[i].data != 0
    }

    /** The queue between the two halves of a removal: the item at position k is still counted, but no
        link leads to it. */
    ghost predicate Bypassed(k: nat)
      requires k < |items|
      reads this, items
    {
      && Distinct(items)
      && tqhFirst == ItemAt(if k == 0 then 1 else 0)
      && tqhLast == LinkTo(if k + 1 == |items| then k else |items|)
      && size == |items|
      && forall i :: 0 <= i < |items| && i != k ==> LinkedPast(i, k)
    }

    /** TAILQ_REMOVE at position k. */
    method Relink(item: Item, ghost k: nat)
      requires Valid() && k < |items| && items[k] == item
      modifies this`tqhFirst, this`tqhLast, items
      ensures Bypassed(k)
      ensures forall x :: x in items ==> x.data == old(x.data) && x.container == old(x.container)
    {
      assert Linked(k);
      if item.tqeNext != null {
        item.tqeNext.tqePrev := item.tqePrev;
      } else {
        tqhLast := item.tqePrev;
      }
      match item.tqePrev {
        case FirstOf(list) => list.tqhFirst := item.tqeNext;
        case NextOf(prev) => prev.tqeNext := item.tqeNext;
      }
      forall i | 0 <= i < |items| && i != k
        ensures LinkedPast(i, k)
      {
        assert old(Linked(i));
      }
    }

    /** The memset of the item and the size count. */
    method TakeOut(item: Item, ghost k: nat)
      requires k < |items| && items[k] == item && Bypassed(k)
      modifies this`size, this`items, item
      ensures Valid() && items == old(items)[..k] + old(items)[k + 1..]
      ensures item.Zeroed()
    {
      item.Memset();
      size := size - 1;
      items := items[..k] + items[k + 1..];
      forall i | 0 <= i < |items|
        ensures Linked(i)
      {
        ghost var j := if i < k then i else i + 1;
        assert items[i] == old(items)[j] != item && old(LinkedPast(j, k));
      }
    }

    /** A removal at any position. */
    method Unlink(item: Item, ghost k: nat)
      requires Valid() && k < |items| && items[k] == item
      modifies this, items
      ensures Valid() && items == old(items)[..k] + old(items)[k + 1..]
      ensures item.Zeroed()
      ensures forall x :: x in items ==> x.data == old(x.data) && x.container == old(x.container)
    {
      hide Linked, LinkedPast, Item.Zeroed;
      Relink(item, k);
      TakeOut(item, k);
      assert forall i :: 0 <= i < |items| ==> items[i] == old(items)[if i < k then i else i + 1] && items[i] != item;
    }
  }

  // ---------------------------------------------------------------------------------------------
  // The calls. A null list or item is a null handle.

  method ListqCreate() returns (list: Container)
    ensures fresh(list) && list.Valid() && list.items == []
  {
    list := new Container();
  }

  method ListqSize(list: Container?) returns (r: int)
    requires list != null ==> list.Valid()
    ensures r == if list == null then -1 else |list.items|
  {
    r := if list != null then list.size else -1;
  }

  method ListqHead(list: Container) returns (item: Item?)
    requires list.Valid()
    ensures item == list.ItemAt(0)
  {
    item := list.tqhFirst;
  }

  method ListqNext(item: Item?) returns (next: Item?)
    ensures next == if item == null then null else item.tqeNext
  {
    next := if item != null then item.tqeNext else null;
  }

  method ListqGetData(item: Item?) returns (data: Pointer)
    ensures data == if item == null then 0 else item.data
  {
    data := if item != null then item.data else 0;
  }

  /** Walking from the head by the next links visits the data of the items in order. */
  method Walk(list: Container) returns (data: seq<Pointer>)
    requires list.Valid()
    ensures |data| == |list.items|
    ensures forall i :: 0 <= i < |data| ==> data[i] == list.items[i].data
  {
    data := [];
    var item := ListqHead(list);
    while item != null
      invariant |data| <= |list.items| && item == list.ItemAt(|data|)
      invariant forall i :: 0 <= i < |data| ==> data[i] == list.items[i].data
      decreases |list.items| - |data|
    {
      assert list.Linked(|data|);
      var d := ListqGetData(item);
      data := data + [d];
      item := ListqNext(item);
    }
  }

  /** A null list or null data adds nothing; otherwise a new item goes to the end. */
  method ListqAddTail(list: Container?, data: Pointer) returns (item: Item?)
    requires list != null ==> list.Valid()
    modifies list, if list == null then [] else list.items
    ensures list == null || data == 0 ==> item == null
    ensures list != null ==> list.Valid()
    ensures list != null && data == 0 ==> unchanged(list) && forall x :: x in list.items ==> unchanged(x)
    ensures list != null && data != 0 ==>
              && item != null && fresh(item) && item.data == data && item.container == list
              && list.items == old(list.items) + [item]
    ensures list != null ==>
              forall x :: x in old(list.items) ==> x.data == old(x.data) && x.container == old(x.container)
  {
    if list == null || data == 0 {
      return null;
    }
    var added := new Item();
    added.data := data;
    added.container := list;
    list.InsertTail(added);
    item := added;
  }

  // ---------------------------------------------------------------------------------------------
  // listq_FindItem, as written: the cursor never goes past the second item

  /** Where the cursor is after n steps of the search loop, which stops on the item or on null. */
  ghost function Cursor(list: Container, item: Item, n: nat): Item?
    requires list.Valid()
    reads list, list.items
  {
    if n == 0 then list.tqhFirst
    else
      var c := Cursor(list, item, n - 1);
      if c == null || c == item || list.tqhFirst == null then c else list.tqhFirst.tqeNext
  }

  ghost predicate Halts(list: Container, item: Item)
    requires list.Valid()
    reads list, list.items
  {
    exists n: nat :: var c := Cursor(list, item, n); c == null || c == item
  }

  /** What the caller has to know for the search to end. */
  ghost predicate SearchEnds(list: Container, item: Item)
    reads list
  {
    |list.items| < 2 || item == list.items[0] || item == list.items[1]
  }

  /** The search loop ends exactly when the list has fewer than two items or the item is one of the
      first two; for any other item it goes around for ever. */
  lemma SearchEndsExactly(list: Container, item: Item)
    requires list.Valid()
    ensures Halts(list, item) <==> SearchEnds(list, item)
  {
    if |list.items| > 0 {
      assert list.Linked(0);
    }
    if SearchEnds(list, item) {
      var c := Cursor(list, item, if |list.items| == 0 || item == list.items[0] then 0 else 1);
      assert c == null || c == item;
    } else {
      forall n: nat
        ensures Cursor(list, item, n) == list.items[if n == 0 then 0 else 1]
      {
        CursorStaysOnSecond(list, item, n);
      }
    }
  }

  lemma {:induction false} CursorStaysOnSecond(list: Container, item: Item, n: nat)
    requires list.Valid() && !SearchEnds(list, item)
    ensures Cursor(list, item, n) == list.items[if n == 0 then 0 else 1]
  {
    assert list.Linked(0);
    if n > 0 {
      CursorStaysOnSecond(list, item, n - 1);
    }
  }

  /** By position: the search for an item of the list ends exactly for the first two. */
  lemma SearchEndsForFirstTwo(list: Container, k: nat)
    requires list.Valid() && k < |list.items|
    ensures Halts(list, list.items[k]) <==> k < 2
  {
    hide Halts;
    SearchEndsExactly(list, list.items[k]);
  }

  /** A handle the call rejects before it searches. */
  predicate Rejected(list: Container?, item: Item?)
    reads item
  {
    list == null || item == null || item.container != list
  }

  method ListqFindItem(list: Container?, item: Item?) returns (r: int)
    requires list != null ==> list.Valid()
    requires !Rejected(list, item) ==> SearchEnds(list, item)
    ensures r == if Rejected(list, item) then -1 else if item in list.items then 1 else 0
  {
    if Rejected(list, item) {
      return -1;
    }
    r := 0;
    var cursor := list.tqhFirst;
    while cursor != null
      invariant cursor == list.tqhFirst || (list.tqhFirst != item && cursor == list.ItemAt(1))
      invariant cursor == null ==> item !in list.items
      decreases if cursor == null then 0 else if cursor == list.tqhFirst then 2 else 1
    {
      if cursor == item {
        r := 1;
        break;
      }
      assert list.Linked(0);
      if cursor != list.tqhFirst {
        assert false;
      }
      cursor := list.tqhFirst.tqeNext;
    }
  }

  /** Deletes the item and zeroes it, with the order of the others kept; a handle that is null, stale
      or of another list is rejected and nothing changes. */
  method ListqRemoveItem(list: Container?, item: Item?) returns (r: int)
    requires list != null ==> list.Valid()
    requires !Rejected(list, item) ==> SearchEnds(list, item)
    modifies if Rejected(list, item) then {} else {list}, if Rejected(list, item) then [] else list.items
    ensures list != null ==> list.Valid()
    ensures r == if old(Rejected(list, item)) then -1 else if item in old(list.items) then 1 else -2
    ensures r < 0 && list != null ==> unchanged(list) && forall x :: x in list.items ==> unchanged(x)
    ensures r == 1 ==> item.Zeroed() && Deleted(old(list.items), list.items, item)
    ensures r == 1 ==> forall x :: x in list.items ==> x.data == old(x.data) && x.container == old(x.container)
  {
    if Rejected(list, item) {
      return -1;
    }
    r := ListqFindItem(list, item);
    if r != 0 {
      ghost var k :| 0 <= k < |list.items| && list.items[k] == item;
      list.Unlink(item, k);
    } else {
      r := -2;
    }
  }

  /** The items without the one at its position, in the same order. */
  ghost predicate Deleted(before: seq<Item>, after: seq<Item>, item: Item) {
    exists k :: 0 <= k < |before| && before[k] == item && after == before[..k] + before[k + 1..]
  }

  lemma ItemsDistinct(list: Container)
    requires list.Valid()
    ensures Distinct(list.items)
  {
  }

  /** In a list without repetition there is only one such position. */
  lemma DeletedAt(before: seq<Item>, after: seq<Item>, item: Item, k: nat)
    requires Distinct(before)
    requires Deleted(before, after, item) && k < |before| && before[k] == item
    ensures after == before[..k] + before[k + 1..]
  {
  }

  method RemoveFirst(list: Container)
    requires list.Valid() && list.items != []
    modifies list, list.items
    ensures list.Valid() && list.items == old(list.items)[1..]
    ensures old(list.items)[0].Zeroed()
  {
    assert list.Linked(0);
    var r := ListqRemoveItem(list, list.tqhFirst);
    assert r == 1;
  }

  /** The loop of listq_clean: it takes the items head first, each search succeeds at the head, and the
      count is down to zero before anything resets it. */
  method RemoveAll(list: Container) returns (ghost removed: seq<Item>)
    requires list.Valid()
    modifies list, list.items
    ensures list.Valid() && list.items == [] && list.size == 0
    ensures removed == old(list.items)
    ensures forall x :: x in removed ==> x.Zeroed()
  {
    removed := [];
    var item := list.tqhFirst;
    while item != null
      invariant list.Valid() && item == list.tqhFirst
      invariant |removed| <= |old(list.items)| && removed == old(list.items)[..|removed|]
      invariant list.items == old(list.items)[|removed|..]
      invariant forall x :: x in removed ==> x.Zeroed()
      decreases |list.items|
    {
      RemoveFirst(list);
      removed := removed + [item];
      item := list.tqhFirst;
    }
  }

  method ListqClean(list: Container?) returns (r: int)
    requires list != null ==> list.Valid()
    modifies list, if list == null then [] else list.items
    ensures r == if list == null then -1 else 0
    ensures list != null ==> list.Valid() && list.items == []
    ensures list != null ==> forall x :: x in old(list.items) ==> x.Zeroed()
  {
    if list == null {
      return -1;
    }
    ghost var _ := RemoveAll(list);
    list.size := 0;
    r := 0;
  }

  /** listq_destroy: cleaning, then giving the container back. */
  method ListqDestroy(list: Container?) returns (r: int)
    requires list != null ==> list.Valid()
    modifies list, if list == null then [] else list.items
    ensures r == if list == null then -1 else 0
    ensures list != null ==> forall x :: x in old(list.items) ==> x.Zeroed()
  {
    r := -1;
    if list != null {
      r := ListqClean(list);
    }
  }

  /** A list whose container and items are as they were is as valid as it was. */
  twostate lemma StillValid(list: Container)
    requires old(list.Valid())
    requires unchanged(list) && forall k :: 0 <= k < |list.items| ==> unchanged(list.items[k])
    ensures list.Valid()
  {
    forall i | 0 <= i < |list.items|
      ensures list.Linked(i)
    {
      assert old(list.Linked(i));
    }
  }

  lemma Owner(list: Container, item: Item)
    requires list.Valid() && item in list.items
    ensures item.container == list && item.data != 0
  {
    var i :| 0 <= i < |list.items| && list.items[i] == item;
    assert list.Linked(i);
  }

  /** Items have one owner: two different lists share no item. */
  lemma ListsDisjoint(a: Container, b: Container)
    requires a.Valid() && b.Valid() && a != b
    ensures forall x :: x in a.items ==> x !in b.items
  {
    forall x | x in a.items
      ensures x !in b.items
    {
      Owner(a, x);
      if x in b.items {
        Owner(b, x);
      }
    }
  }

}
