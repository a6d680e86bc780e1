/**
 Whole runs of listq calls on real containers and items: the heap gives the answers of the machine.
 */
module ListqRuns {
  import opened Options
  import opened Listq
  import opened ListqMachine
  import opened ListqHistory

  // ---------------------------------------------------------------------------------------------
  // The heap represents a state

  /** The items of a list are the handles that the machine lists, with their data. */
  ghost predicate Holds(c: Container, ids: seq<nat>, handles: seq<Item>, data: seq<Pointer>)
    requires |handles| == |data|
    reads c, handles
  {
    && |c.items| == |ids|
    && forall k :: 0 <= k < |ids| ==>
         ids[k] < |handles| && c.items[k] == handles[ids[k]] && handles[ids[k]].data == data[ids[k]]
  }

  /** A handle that still has an owner is in that owner's list. */
  ghost predicate Placed(item: Item, h: nat, lists: seq<Container>, ids: seq<seq<nat>>)
    requires |lists| == |ids|
    reads item
  {
    item.container == null || exists l :: 0 <= l < |lists| && item.container == lists[l] && h in ids[l]
  }

  /** What the links say about an item's position. */
  lemma BehindFirstTwo(list: Container, k: nat)
    requires list.Valid() && k < |list.items|
    ensures list.tqhFirst != null
    ensures k >= 2 <==> list.items[k] != list.tqhFirst && list.items[k] != list.tqhFirst.tqeNext
  {
    assert list.Linked(0);
  }

  /** The run so far: the lists and handles the caller holds, and the machine's state. */
  class Session {
    var lists: seq<Container>
    var handles: seq<Item>
    ghost var state: State

    ghost predicate Shape()
      reads this
    {
      && WellFormed(state)
      && |lists| == |state.lists| && |handles| == |state.data|
      && Distinct(lists) && Distinct(handles)
    }

    ghost predicate Valid()
      reads *
    {
      && Shape()
      && (forall l :: 0 <= l < |lists| ==> lists[l].Valid())
      && (forall l :: 0 <= l < |lists| ==> Holds(lists[l], state.lists[l], handles, state.data))
      && (forall h :: 0 <= h < |handles| ==> Placed(handles[h], h, lists, state.lists))
    }

    constructor ()
      ensures Valid() && state == EMPTY && WellFormed(state) && Footprint() == {this}
    {
      lists, handles, state := [], [], EMPTY;
    }

    function ListAt(l: nat): (c: Container?)
      reads this
    {
      if l < |lists| then lists[l] else null
    }

    function HandleAt(i: nat): (x: Item?)
      reads this
    {
      if i < |handles| then handles[i] else null
    }

    ghost function ListSet(): set<Container>
      reads this
    {
      set c | c in lists
    }

    ghost function HandleSet(): set<Item>
      reads this
    {
      set x | x in handles
    }

    ghost function Footprint(): set<object>
      reads this
    {
      {this} + ListSet() + HandleSet()
    }

    /** No other list shares an item with list l. */
    lemma OthersDisjoint(l: nat)
      requires Valid() && l < |lists|
      ensures forall m, x :: 0 <= m < |lists| && m != l && x in lists[m].items ==> x !in lists[l].items
    {
      forall m | 0 <= m < |lists| && m != l
        ensures forall x :: x in lists[m].items ==> x !in lists[l].items
      {
        ListsDisjoint(lists[m], lists[l]);
      }
    }

    /** A list that a call has not touched is still valid and still holds what the machine lists there. */
    twostate lemma ListKept(m: nat)
      requires m < |lists| == |state.lists| && |handles| == |state.data| && unchanged(this)
      requires old(lists[m].Valid()) && old(Holds(lists[m], state.lists[m], handles, state.data))
      requires unchanged(lists[m]) && forall x :: x in lists[m].items ==> unchanged(x)
      ensures lists[m].Valid() && Holds(lists[m], state.lists[m], handles, state.data)
    {
      var c := lists[m];
      assert forall k :: 0 <= k < |c.items| ==> c.items[k] in c.items;
      StillValid(c);
      forall j | 0 <= j < |state.lists[m]|
        ensures handles[state.lists[m][j]].data == state.data[state.lists[m][j]]
      {
        assert c.items[j] in c.items && c.items[j] == handles[state.lists[m][j]];
      }
    }

    method DoCreate() returns (reply: Reply)
      requires Valid()
      modifies this
      ensures Valid() && (state, reply) == Step(old(state), Create)
      ensures handles == old(handles) && forall c :: c in lists ==> c in old(lists) || fresh(c)
    {
      hide Container.Valid;
      var c := ListqCreate();
      reply := NewList(|lists|);
      state := Step(state, Create).0;
      lists := lists + [c];
      forall h | 0 <= h < |handles|
        ensures Placed(handles[h], h, lists, state.lists)
      {
        assert old(Placed(handles[h], h, lists, state.lists));
        if l :| 0 <= l < |old(lists)| && handles[h].container == old(lists)[l] && h in old(state).lists[l] {
          assert lists[l] == old(lists)[l] && state.lists[l] == old(state).lists[l];
        }
      }
    }

    /** The call on a list the caller holds, before the new handle is written down. */
    method AddTo(l: nat, data: Pointer) returns (item: Item)
      requires Valid() && l < |lists| && data != 0
      modifies lists[l], lists[l].items
      ensures forall m :: 0 <= m < |lists| ==> lists[m].Valid()
      ensures forall m :: 0 <= m < |lists| && m != l ==> Holds(lists[m], state.lists[m], handles, state.data)
      ensures Holds(lists[l], state.lists[l] + [|handles|], handles + [item], state.data + [data])
      ensures forall h :: 0 <= h < |handles| ==> Placed(handles[h], h, lists, state.lists)
      ensures fresh(item) && item.container == lists[l]
    {
      hide Container.Valid, Container.Linked, Container.ItemAt, Container.LinkTo, Step;
      OthersDisjoint(l);
      item := ListqAddTail(lists[l], data);
      forall m | 0 <= m < |lists| && m != l
        ensures lists[m].Valid() && Holds(lists[m], state.lists[m], handles, state.data)
      {
        assert lists[m] != lists[l] && lists[m].items == old(lists[m].items);
        assert forall x :: x in lists[m].items ==> x !in old(lists[l].items);
        ListKept(m);
      }
      assert forall h :: 0 <= h < |handles| ==>
        handles[h].data == old(handles[h].data) && handles[h].container == old(handles[h].container);
    }

    /** Writing down the new handle. */
    method Note(l: nat, data: Pointer, item: Item)
      requires Shape() && l < |lists| && data != 0
      requires forall m :: 0 <= m < |lists| ==> lists[m].Valid()
      requires forall m :: 0 <= m < |lists| && m != l ==> Holds(lists[m], state.lists[m], handles, state.data)
      requires Holds(lists[l], state.lists[l] + [|handles|], handles + [item], state.data + [data])
      requires forall h :: 0 <= h < |handles| ==> Placed(handles[h], h, lists, state.lists)
      requires item !in handles && item.container == lists[l]
      modifies this
      ensures Valid() && state == Step(old(state), AddTail(l, data)).0
      ensures lists == old(lists) && handles == old(handles) + [item]
    {
      hide Container.Valid, Container.Linked, IndexOf;
      ghost var before := state.lists;
      handles := handles + [item];
      state := Step(state, AddTail(l, data)).0;
      forall h | 0 <= h < |handles|
        ensures Placed(handles[h], h, lists, state.lists)
      {
        assert h < |old(handles)| ==> old(Placed(handles[h], h, lists, state.lists));
        assert forall m :: 0 <= m < |lists| && h in before[m] ==> h in state.lists[m];
      }
    }

    method DoAddTail(l: nat, data: Pointer) returns (reply: Reply)
      requires Valid()
      modifies this, lists, handles
      ensures Valid() && (state, reply) == Step(old(state), AddTail(l, data))
      ensures lists == old(lists) && forall x :: x in handles ==> x in old(handles) || fresh(x)
    {
      hide Container.Valid, Placed, WellFormed;
      if l < |lists| {
        OthersDisjoint(l);
        assert forall x :: x in lists[l].items ==> x in handles;
      }
      if l >= |lists| || data == 0 {
        var none := ListqAddTail(ListAt(l), data);
        return NewItem(None);
      }
      reply := NewItem(Some(|handles|));
      var item := AddTo(l, data);
      Note(l, data, item);
    }

    /** A handle is rejected by a list exactly when the machine does not have it there; so an owner that
        matches means membership. */
    lemma RejectedIffNotListed(l: nat, i: nat)
      requires Valid() && l < |lists| && i < |handles|
      ensures Rejected(lists[l], handles[i]) <==> i !in state.lists[l]
      ensures |lists[l].items| == |state.lists[l]|
      ensures i in state.lists[l] ==> lists[l].items[IndexOf(state.lists[l], i)] == handles[i]
    {
      assert Placed(handles[i], i, lists, state.lists);
      if i in state.lists[l] {
        Owner(lists[l], lists[l].items[IndexOf(state.lists[l], i)]);
      }
    }

    /** Cutting position k out of the items and out of the machine's list keeps them together. */
    lemma HeldAfterCut(l: nat, k: nat, was: seq<Item>)
      requires l < |lists| == |state.lists| && |handles| == |state.data| && k < |state.lists[l]| == |was|
      requires lists[l].items == was[..k] + was[k + 1..]
      requires forall j :: 0 <= j < |was| ==> state.lists[l][j] < |handles| && was[j] == handles[state.lists[l][j]]
      requires forall j :: 0 <= j < |was| && j != k ==>
                 handles[state.lists[l][j]].data == state.data[state.lists[l][j]]
      ensures Holds(lists[l], state.lists[l][..k] + state.lists[l][k + 1..], handles, state.data)
    {
      var ids := state.lists[l];
      forall n | 0 <= n < |ids| - 1
        ensures var id := (ids[..k] + ids[k + 1..])[n];
                id < |handles| && lists[l].items[n] == handles[id] && handles[id].data == state.data[id]
      {
        assert (ids[..k] + ids[k + 1..])[n] == ids[if n < k then n else n + 1];
      }
    }

    /** Removing the item at position k of list l, before the machine's state follows. */
    method RemoveFrom(l: nat, i: nat, ghost k: nat) returns (r: int)
      requires Valid() && l < |lists| && i in state.lists[l] && k == IndexOf(state.lists[l], i) && k < 2
      modifies lists[l], lists[l].items
      ensures r == 1
      ensures forall m :: 0 <= m < |lists| ==> lists[m].Valid()
      ensures forall m :: 0 <= m < |lists| && m != l ==> Holds(lists[m], state.lists[m], handles, state.data)
      ensures Holds(lists[l], state.lists[l][..k] + state.lists[l][k + 1..], handles, state.data)
      ensures forall h :: 0 <= h < |handles| && h != i ==> Placed(handles[h], h, lists, state.lists)
      ensures handles[i].container == null
    {
      hide Container.Valid, Container.Linked, Container.ItemAt, Container.LinkTo, Step, Deleted;
      OthersDisjoint(l);
      RejectedIffNotListed(l, i);
      ItemsDistinct(lists[l]);
      r := ListqRemoveItem(lists[l], handles[i]);
      ghost var was := old(lists[l].items);
      forall m | 0 <= m < |lists| && m != l
        ensures lists[m].Valid() && Holds(lists[m], state.lists[m], handles, state.data)
      {
        assert lists[m] != lists[l] && lists[m].items == old(lists[m].items);
        assert forall x :: x in lists[m].items ==> x !in old(lists[l].items);
        ListKept(m);
      }
      DeletedAt(was, lists[l].items, handles[i], k);
      assert forall h :: 0 <= h < |handles| && h != i ==>
        handles[h].data == old(handles[h].data) && handles[h].container == old(handles[h].container);
      HeldAfterCut(l, k, was);
    }

    method DoRemove(l: nat, i: nat) returns (reply: Reply)
      requires Valid() && Step(state, RemoveItem(l, i)).1 != Hang
      modifies this, lists, handles
      ensures Valid() && (state, reply) == Step(old(state), RemoveItem(l, i))
      ensures lists == old(lists) && handles == old(handles)
    {
      hide Container.Valid, Container.Linked, WellFormed, Placed, IndexOf, Distinct;
      if l < |lists| && i < |handles| {
        RejectedIffNotListed(l, i);
      }
      if l < |lists| && i < |handles| && handles[i].container == lists[l] {
        assert forall x :: x in lists[l].items ==> x in handles;
        ghost var ids := state.lists;
        ghost var k := IndexOf(ids[l], i);
        var r := RemoveFrom(l, i, k);
        reply := Code(r);
        state := Step(state, RemoveItem(l, i)).0;
        RestStillPlaced(l, i, k, ids);
      } else {
        var r := ListqRemoveItem(ListAt(l), HandleAt(i));
        reply := Code(r);
      }
    }

    /** After position k of list l is gone, only the item that was there has lost its place. */
    lemma RestStillPlaced(l: nat, i: nat, k: nat, ids: seq<seq<nat>>)
      requires |lists| == |ids| == |state.lists| && l < |lists| && k < |ids[l]| && ids[l][k] == i
      requires state.lists == ids[l := ids[l][..k] + ids[l][k + 1..]]
      requires forall h :: 0 <= h < |handles| && h != i ==> Placed(handles[h], h, lists, ids)
      requires i < |handles| && handles[i].container == null
      ensures forall h :: 0 <= h < |handles| ==> Placed(handles[h], h, lists, state.lists)
    {
      forall h, m | 0 <= h < |handles| && h != i && 0 <= m < |lists| && h in ids[m]
        ensures h in state.lists[m]
      {
        var j :| 0 <= j < |ids[m]| && ids[m][j] == h;
        assert m == l ==> h == state.lists[l][if j < k then j else j - 1];
      }
    }

    /** Cleaning list l, before the machine's state follows. */
    method CleanList(l: nat) returns (r: int)
      requires Valid() && l < |lists|
      modifies lists[l], lists[l].items
      ensures r == 0
      ensures forall m :: 0 <= m < |lists| ==> lists[m].Valid()
      ensures forall m :: 0 <= m < |lists| && m != l ==> Holds(lists[m], state.lists[m], handles, state.data)
      ensures lists[l].items == []
      ensures forall h :: 0 <= h < |handles| ==>
                handles[h].container == null || (h !in state.lists[l] && Placed(handles[h], h, lists, state.lists))
    {
      hide Container.Valid, Container.Linked, Container.ItemAt, Container.LinkTo, Step;
      OthersDisjoint(l);
      r := ListqClean(lists[l]);
      forall m | 0 <= m < |lists| && m != l
        ensures lists[m].Valid() && Holds(lists[m], state.lists[m], handles, state.data)
      {
        assert lists[m] != lists[l] && lists[m].items == old(lists[m].items);
        assert forall x :: x in lists[m].items ==> x !in old(lists[l].items);
        ListKept(m);
      }
      forall h | 0 <= h < |handles| && handles[h].container != null
        ensures h !in state.lists[l] && Placed(handles[h], h, lists, state.lists)
      {
        assert handles[h] !in old(lists[l].items);
        assert old(Placed(handles[h], h, lists, state.lists));
      }
    }

    method DoClean(l: nat) returns (reply: Reply)
      requires Valid()
      modifies this, lists, handles
      ensures Valid() && (state, reply) == Step(old(state), Op.Clean(l))
      ensures lists == old(lists) && handles == old(handles)
    {
      hide Container.Valid, WellFormed;
      if l >= |lists| {
        var r := ListqClean(null);
        return Code(r);
      }
      assert forall x :: x in lists[l].items ==> x in handles;
      var r := CleanList(l);
      reply := Code(r);
      ghost var ids := state.lists;
      state := Step(state, Op.Clean(l)).0;
      forall h | 0 <= h < |handles|
        ensures Placed(handles[h], h, lists, state.lists)
      {
        assert forall m :: 0 <= m < |lists| && m != l ==> state.lists[m] == ids[m];
      }
    }

    method DoSize(l: nat) returns (reply: Reply)
      requires Valid()
      ensures (state, reply) == Step(state, Size(l))
    {
      var r := ListqSize(ListAt(l));
      reply := Code(r);
    }

    method DoVisit(l: nat) returns (reply: Reply)
      requires Valid()
      ensures (state, reply) == Step(state, Visit(l))
    {
      if l < |lists| {
        var data := Walk(lists[l]);
        assert data == DataOf(state.lists[l], state.data);
        reply := Seen(data);
      } else {
        reply := Seen([]);
      }
    }

    /** The call gets past the owner check and into a search loop that has no end. */
    ghost predicate NeverEnds(op: Op)
      requires Valid()
      reads *
    {
      && op.RemoveItem? && op.list < |lists| && op.item < |handles|
      && !Rejected(lists[op.list], handles[op.item]) && !Halts(lists[op.list], handles[op.item])
    }

    /** Hang in the machine is exactly the search loop of the real list going round for ever. */
    lemma HangIsNoEnd(op: Op)
      requires Valid()
      ensures Step(state, op).1 == Hang <==> NeverEnds(op)
    {
      hide Halts, Container.Valid, Rejected, Holds, Placed;
      if op.RemoveItem? && op.list < |lists| && op.item < |handles| {
        RejectedIffNotListed(op.list, op.item);
        if op.item in state.lists[op.list] {
          SearchEndsForFirstTwo(lists[op.list], IndexOf(state.lists[op.list], op.item));
        }
      }
    }

    /** The check a caller can make before a call: a removal of an item behind the first two of its list. */
    method WouldHang(op: Op) returns (b: bool)
      requires Valid()
      ensures b <==> Step(state, op).1 == Hang
      ensures b <==> NeverEnds(op)
    {
      HangIsNoEnd(op);
      hide Container.Valid, Holds, Placed, NeverEnds;
      b := false;
      if op.RemoveItem? {
        var list, item := ListAt(op.list), HandleAt(op.item);
        if list != null && item != null {
          RejectedIffNotListed(op.list, op.item);
          if item.container == list {
            BehindFirstTwo(list, IndexOf(state.lists[op.list], op.item));
            b := item != list.tqhFirst && item != list.tqhFirst.tqeNext;
          }
        }
      }
    }

    /** A call that returns. */
    method Do(op: Op) returns (reply: Reply)
      requires Valid() && Step(state, op).1 != Hang
      modifies this, ListSet(), HandleSet()
      ensures Valid() && fresh(ListSet() - old(ListSet())) && fresh(HandleSet() - old(HandleSet()))
      ensures WellFormed(state) && (state, reply) == Step(old(state), op)
    {
      hide WellFormed, Container.Valid, Holds, Placed, Step;
      match op
      case Create => reply := DoCreate();
      case AddTail(l, data) => reply := DoAddTail(l, data);
      case RemoveItem(l, i) => reply := DoRemove(l, i);
      case Clean(l) => reply := DoClean(l);
      case Size(l) => reply := DoSize(l);
      case Visit(l) => reply := DoVisit(l);
    }

    /** Any call on the heap: it answers what the machine answers, and where the machine says Hang, the
        real search has no end. */
    method Call(op: Op) returns (reply: Reply)
      requires Valid()
      modifies Footprint()
      ensures Valid() && fresh(Footprint() - old(Footprint()))
      ensures WellFormed(state) && (state, reply) == Step(old(state), op)
      ensures reply == Hang <==> old(NeverEnds(op))
      ensures reply == Hang ==> NeverEnds(op)
    {
      hide Valid, NeverEnds, WellFormed;
      StateWellFormed();
      var hangs := WouldHang(op);
      if hangs {
        reply := Hang;
      } else {
        reply := Do(op);
      }
    }

    lemma StateWellFormed()
      requires Valid()
      ensures WellFormed(state)
    {
    }

    /** The calls one after the other, up to the first that would not return. */
    method Serve(ops: seq<Op>) returns (replies: seq<Reply>)
      requires Valid()
      modifies Footprint()
      ensures Valid() && fresh(Footprint() - old(Footprint()))
      ensures WellFormed(old(state)) && Served(old(state), ops, replies, state)
      ensures Hang in replies ==> 1 <= |replies| <= |ops| && NeverEnds(ops[|replies| - 1])
      decreases |ops|
    {
      hide Valid, NeverEnds, WellFormed, Step, Served;
      StateWellFormed();
      ghost var s := state;
      if ops == [] {
        NothingServed(s);
        return [];
      }
      var reply := Call(ops[0]);
      if reply == Hang {
        ServedHang(s, ops);
        return [Hang];
      }
      var rest := Serve(ops[1..]);
      ServedNext(s, ops, rest, state);
      replies := [reply] + rest;
      assert Hang in replies ==> Hang in rest && ops[|replies| - 1] == ops[1..][|rest| - 1];
    }
  }

  /** The replies are those of the machine, and the state after them is the machine's state after the
      calls that returned. */
  ghost predicate Served(s: State, ops: seq<Op>, replies: seq<Reply>, t: State)
    requires WellFormed(s)
  {
    && replies == Replies(s, ops)
    && (Hang !in replies ==> |replies| == |ops| && t == Final(s, ops))
    && (Hang in replies ==> 1 <= |replies| <= |ops| && t == Final(s, ops[..|replies| - 1]))
  }

  lemma NothingServed(s: State)
    requires WellFormed(s)
    ensures Served(s, [], [], s)
  {
  }

  lemma ServedHang(s: State, ops: seq<Op>)
    requires WellFormed(s) && ops != [] && Step(s, ops[0]).1 == Hang
    ensures Served(s, ops, [Hang], s) && Step(s, ops[0]).0 == s
  {
    HangKeepsState(s, ops[0]);
    hide Step;
    assert Final(s, ops[..0]) == s;
  }

  lemma HangKeepsState(s: State, op: Op)
    requires WellFormed(s) && Step(s, op).1 == Hang
    ensures Step(s, op).0 == s
  {
  }

  lemma ServedNext(s: State, ops: seq<Op>, rest: seq<Reply>, t: State)
    requires WellFormed(s) && ops != [] && Step(s, ops[0]).1 != Hang
    requires Served(Step(s, ops[0]).0, ops[1..], rest, t)
    ensures Served(s, ops, [Step(s, ops[0]).1] + rest, t)
  {
    hide Step;
    if Hang in rest {
      assert ops[..|rest|][1..] == ops[1..][..|rest| - 1] && ops[..|rest|][0] == ops[0];
    }
  }

  /** Runs a sequence of calls on real containers and items, up to the first call that would not return.
      On every run the callers see what the machine says, which is what follows from the calls made. A run
      that ends in Hang has come to a call whose search loop, on the real list, has no end. */
  method Run(ops: seq<Op>) returns (replies: seq<Reply>, session: Session)
    ensures replies == Replies(EMPTY, ops) && Answered(ops, replies)
    ensures Code(-2) !in replies
    ensures session.Valid()
    ensures Hang !in replies ==> |replies| == |ops| && session.state == Final(EMPTY, ops)
    ensures Hang in replies ==>
              && 1 <= |replies| <= |ops| && session.state == Final(EMPTY, ops[..|replies| - 1])
              && session.NeverEnds(ops[|replies| - 1])
  {
    NeverMinusTwo(EMPTY, ops);
    RepliesByHistory(ops);
    hide Session.Valid, Session.NeverEnds, Replies, Final, Answered;
    session := new Session();
    replies := session.Serve(ops);
  }
}
