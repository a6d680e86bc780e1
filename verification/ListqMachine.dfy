/**
 What the listq calls answer on any number of lists, as a small machine on plain sequences, and what
 every run of calls keeps.
 */
module ListqMachine {
  import opened Options
  import opened Listq

  /** Lists and items are named by the order in which they were created; a number that names nothing
      yet is a null handle. */
  datatype Op =
    | Create
    | AddTail(list: nat, data: Pointer)
    | RemoveItem(list: nat, item: nat)
    | Clean(list: nat)
    | Size(list: nat)
    | Visit(list: nat)

  /** What the caller sees. Hang: the call does not return. */
  datatype Reply = NewList(list: nat) | NewItem(item: Option<nat>) | Code(code: int) | Seen(data: seq<Pointer>) | Hang

  /** The item numbers in each list, and the data of every item ever added. */
  datatype State = State(lists: seq<seq<nat>>, data: seq<Pointer>)

  const EMPTY := State([], [])

  ghost predicate WellFormed(s: State) {
    forall l, k :: 0 <= l < |s.lists| && 0 <= k < |s.lists[l]| ==> s.lists[l][k] < |s.data|
  }

  function IndexOf(ids: seq<nat>, id: nat): (k: nat)
    requires id in ids
    ensures k < |ids| && ids[k] == id && id !in ids[..k]
  {
    if ids[0] == id then 0 else 1 + IndexOf(ids[1..], id)
  }

  function DataOf(ids: seq<nat>, data: seq<Pointer>): (ds: seq<Pointer>)
    requires forall k :: 0 <= k < |ids| ==> ids[k] < |data|
  {
    seq(|ids|, k requires 0 <= k < |ids| => data[ids[k]])
  }

  function Step(s: State, op: Op): (r: (State, Reply))
    requires WellFormed(s)
    ensures WellFormed(r.0)
  {
    match op
    case Create => (s.(lists := s.lists + [[]]), NewList(|s.lists|))
    case AddTail(l, d) =>
      if l >= |s.lists| || d == 0 then (s, NewItem(None))
      else (State(s.lists[l := s.lists[l] + [|s.data|]], s.data + [d]), NewItem(Some(|s.data|)))
    case RemoveItem(l, i) =>
      if l >= |s.lists| || i !in s.lists[l] then (s, Code(-1))
      else
        var k := IndexOf(s.lists[l], i);
        if k >= 2 then (s, Hang)
        else (s.(lists := s.lists[l := s.lists[l][..k] + s.lists[l][k + 1..]]), Code(1))
    case Clean(l) =>
      if l >= |s.lists| then (s, Code(-1)) else (s.(lists := s.lists[l := []]), Code(0))
    case Size(l) =>
      (s, Code(if l >= |s.lists| then -1 else |s.lists[l]|))
    case Visit(l) =>
      (s, Seen(if l >= |s.lists| then [] else DataOf(s.lists[l], s.data)))
  }

  /** The replies of a run, which ends at the first call that does not return. */
  function Replies(s: State, ops: seq<Op>): seq<Reply>
    requires WellFormed(s)
    decreases |ops|
  {
    if ops == [] then []
    else
      var (t, reply) := Step(s, ops[0]);
      if reply == Hang then [Hang] else [reply] + Replies(t, ops[1..])
  }

  /** The state after a run that returns. */
  function Final(s: State, ops: seq<Op>): (t: State)
    requires WellFormed(s)
    ensures WellFormed(t)
    decreases |ops|
  {
    if ops == [] then s else Final(Step(s, ops[0]).0, ops[1..])
  }

  // ---------------------------------------------------------------------------------------------
  // What every run keeps

  /** Items are numbered as they are added; every list is in insertion order, and no item is twice in
      a list or in two lists. */
  ghost predicate InOrder(s: State) {
    && WellFormed(s)
    && (forall l :: 0 <= l < |s.lists| ==> Increasing(s.lists[l]))
    && (forall l, m, i :: 0 <= l < m < |s.lists| && i in s.lists[l] ==> i !in s.lists[m])
  }

  ghost predicate Increasing(ids: seq<nat>) {
    forall j, k :: 0 <= j < k < |ids| ==> ids[j] < ids[k]
  }

  lemma StepMembers(s: State, op: Op)
    requires WellFormed(s)
    ensures var t := Step(s, op).0;
            forall l, i :: 0 <= l < |t.lists| && i in t.lists[l] ==>
              if l < |s.lists| && i in s.lists[l] then true
              else i == |s.data| && op.AddTail? && op.list == l < |s.lists|
  {
  }

  lemma StepIncreasing(s: State, op: Op, l: nat)
    requires WellFormed(s) && l < |Step(s, op).0.lists|
    requires l < |s.lists| ==> Increasing(s.lists[l])
    ensures Increasing(Step(s, op).0.lists[l])
  {
  }

  lemma StepKeepsOrder(s: State, op: Op)
    requires InOrder(s)
    ensures InOrder(Step(s, op).0)
  {
    StepMembers(s, op);
    var t := Step(s, op).0;
    forall l | 0 <= l < |t.lists|
      ensures Increasing(t.lists[l])
    {
      StepIncreasing(s, op, l);
    }
    hide Step, Increasing;
    forall l, m, i | 0 <= l < m < |t.lists| && i in t.lists[l]
      ensures i !in t.lists[m]
    {
      assert i < |s.data| || l == op.list;
    }
  }

  /** Whatever calls are made, in whatever order, on however many lists. */
  lemma {:induction false} RunsKeepOrder(s: State, ops: seq<Op>)
    requires InOrder(s)
    ensures InOrder(Final(s, ops))
    decreases |ops|
  {
    if ops != [] {
      StepKeepsOrder(s, ops[0]);
      RunsKeepOrder(Step(s, ops[0]).0, ops[1..]);
    }
  }

  /** An owner that matches always means membership, so no removal answers -2. */
  lemma {:induction false} NeverMinusTwo(s: State, ops: seq<Op>)
    requires WellFormed(s)
    ensures Code(-2) !in Replies(s, ops)
    decreases |ops|
  {
    if ops != [] {
      NeverMinusTwo(Step(s, ops[0]).0, ops[1..]);
    }
  }

  ghost predicate Gone(s: State, i: nat) {
    i < |s.data| && forall l :: 0 <= l < |s.lists| ==> i !in s.lists[l]
  }

  /** A successful removal deletes the item and nothing else, and leaves it in no list. */
  lemma RemovalDeletes(s: State, l: nat, i: nat)
    requires InOrder(s) && Step(s, RemoveItem(l, i)).1 == Code(1)
    ensures l < |s.lists| && i in s.lists[l]
    ensures var t := Step(s, RemoveItem(l, i)).0;
            Gone(t, i) && forall j :: j in t.lists[l] <==> j in s.lists[l] && j != i
  {
  }

  /** A stale handle stays stale: after any further calls it is in no list, and removing it from any
      list answers -1 and changes nothing. */
  lemma {:induction false} StaleForEver(s: State, ops: seq<Op>, i: nat, l: nat)
    requires WellFormed(s) && Gone(s, i)
    ensures Gone(Final(s, ops), i)
    ensures Step(Final(s, ops), RemoveItem(l, i)) == (Final(s, ops), Code(-1))
    decreases |ops|
  {
    if ops != [] {
      var t := Step(s, ops[0]).0;
      forall m, j | 0 <= m < |t.lists| && j in t.lists[m]
        ensures j != i
      {
        assert m < |s.lists| && (j in s.lists[m] || j == |s.data|);
      }
      StaleForEver(t, ops[1..], i, l);
    }
  }

  lemma FirstReply(s: State, op: Op, rest: seq<Op>)
    requires WellFormed(s)
    ensures var (t, reply) := Step(s, op);
            Replies(s, [op] + rest) == if reply == Hang then [Hang] else [reply] + Replies(t, rest)
  {
    assert ([op] + rest)[1..] == rest;
  }

  lemma AddToOnlyList(ids: seq<nat>, data: seq<Pointer>, d: Pointer, rest: seq<Op>)
    requires d != 0 && WellFormed(State([ids], data))
    ensures WellFormed(State([ids + [|data|]], data + [d]))
    ensures Replies(State([ids], data), [AddTail(0, d)] + rest)
         == [NewItem(Some(|data|))] + Replies(State([ids + [|data|]], data + [d]), rest)
  {
    FirstReply(State([ids], data), AddTail(0, d), rest);
    assert [ids][0 := ids + [|data|]] == [ids + [|data|]];
  }

  lemma CreateFirst(rest: seq<Op>)
    ensures WellFormed(State([[]], []))
    ensures Replies(EMPTY, [Create] + rest) == [NewList(0)] + Replies(State([[]], []), rest)
  {
    FirstReply(EMPTY, Create, rest);
    assert EMPTY.lists + [[]] == [[]];
  }

  lemma ThirdHangs(s: State)
    requires s == State([[0, 1, 2]], [1, 1, 1])
    ensures WellFormed(s) && Replies(s, [RemoveItem(0, 2)]) == [Hang]
  {
    assert IndexOf([0, 1, 2], 2) == 2;
  }

  /** Three items are enough: removing the third one does not return. */
  lemma RemovingTheThirdHangs(ops: seq<Op>)
    requires ops == [Create, AddTail(0, 1), AddTail(0, 1), AddTail(0, 1), RemoveItem(0, 2)]
    ensures Replies(EMPTY, ops) == [NewList(0), NewItem(Some(0)), NewItem(Some(1)), NewItem(Some(2)), Hang]
  {
    hide Step, Replies, WellFormed;
    assert ops == [ops[0]] + ops[1..] && ops[1..] == [ops[1]] + ops[2..] && ops[2..] == [ops[2]] + ops[3..];
    assert ops[3..] == [ops[3]] + ops[4..] && ops[4..] == [ops[4]];
    CreateFirst(ops[1..]);
    AddToOnlyList([], [], 1, ops[2..]);
    assert [] + [0] == [0] && [0] + [1] == [0, 1] && [0, 1] + [2] == [0, 1, 2];
    assert [] + [1] == [1] && [1] + [1] == [1, 1] && [1, 1] + [1] == [1, 1, 1];
    AddToOnlyList([0], [1], 1, ops[3..]);
    AddToOnlyList([0, 1], [1, 1], 1, ops[4..]);
    ThirdHangs(State([[0, 1, 2]], [1, 1, 1]));
  }

  // ---------------------------------------------------------------------------------------------
  // What is in a list, said without the machine: what was added to it and not taken out since

  function Creates(ops: seq<Op>): nat {
    if ops == [] then 0 else Creates(ops[..|ops| - 1]) + if ops[|ops| - 1].Create? then 1 else 0
  }

  /** The call adds an item: it names a list that exists by then and has data. */
  predicate Adding(ops: seq<Op>, p: nat)
    requires p < |ops|
  {
    ops[p].AddTail? && ops[p].data != 0 && ops[p].list < Creates(ops[..p])
  }

  function Additions(ops: seq<Op>): nat {
    if ops == [] then 0 else Additions(ops[..|ops| - 1]) + if Adding(ops, |ops| - 1) then 1 else 0
  }

  predicate TakesOut(op: Op, l: nat, i: nat) {
    op == Clean(l) || op == RemoveItem(l, i)
  }

  /** Item i was added to list l at call p. */
  predicate AddedAt(ops: seq<Op>, p: nat, l: nat, i: nat)
    requires p < |ops|
  {
    Adding(ops, p) && ops[p].list == l && Additions(ops[..p]) == i
  }

  ghost predicate Kept(ops: seq<Op>, l: nat, i: nat) {
    exists p :: 0 <= p < |ops| && AddedAt(ops, p, l, i)
                && forall q :: p < q < |ops| ==> !TakesOut(ops[q], l, i)
  }

  lemma {:induction false} FinalSnoc(s: State, ops: seq<Op>, op: Op)
    requires WellFormed(s)
    ensures Final(s, ops + [op]) == Step(Final(s, ops), op).0
    ensures Hang !in Replies(s, ops + [op]) <==> Hang !in Replies(s, ops) && Step(Final(s, ops), op).1 != Hang
    decreases |ops|
  {
    hide Step;
    if ops == [] {
      assert [op][1..] == [] && ops + [op] == [op];
    } else {
      assert (ops + [op])[1..] == ops[1..] + [op];
      FinalSnoc(Step(s, ops[0]).0, ops[1..], op);
    }
  }

  lemma StepMembership(s: State, op: Op, l: nat, i: nat)
    requires InOrder(s) && Step(s, op).1 != Hang
    requires l < |Step(s, op).0.lists|
    ensures i in Step(s, op).0.lists[l]
       <==> (l < |s.lists| && i in s.lists[l] && !TakesOut(op, l, i))
            || (op.AddTail? && op.data != 0 && op.list == l < |s.lists| && i == |s.data|)
  {
  }

  lemma KeptSnoc(ops: seq<Op>, op: Op, l: nat, i: nat)
    ensures var all := ops + [op];
            Kept(all, l, i) <==> (Kept(ops, l, i) && !TakesOut(op, l, i)) || AddedAt(all, |ops|, l, i)
  {
    hide Creates, Additions, TakesOut, AddedAt;
    var all := ops + [op];
    forall p | 0 <= p < |ops|
      ensures AddedAt(all, p, l, i) <==> AddedAt(ops, p, l, i)
    {
      AddedBefore(ops, op, p, l, i);
    }
    if Kept(all, l, i) && !AddedAt(all, |ops|, l, i) {
      var p :| 0 <= p < |all| && AddedAt(all, p, l, i) && forall q :: p < q < |all| ==> !TakesOut(all[q], l, i);
      assert !TakesOut(all[|ops|], l, i);
      assert forall q :: p < q < |ops| ==> all[q] == ops[q];
      assert AddedAt(ops, p, l, i) && forall q :: p < q < |ops| ==> !TakesOut(ops[q], l, i);
    }
    if Kept(ops, l, i) && !TakesOut(op, l, i) {
      var p :| 0 <= p < |ops| && AddedAt(ops, p, l, i) && forall q :: p < q < |ops| ==> !TakesOut(ops[q], l, i);
      assert AddedAt(all, p, l, i) && forall q :: p < q < |all| ==> !TakesOut(all[q], l, i);
    }
  }

  lemma AddedBefore(ops: seq<Op>, op: Op, p: nat, l: nat, i: nat)
    requires p < |ops|
    ensures AddedAt(ops + [op], p, l, i) <==> AddedAt(ops, p, l, i)
  {
    assert (ops + [op])[..p] == ops[..p];
  }

  /** On every run whose calls return, list l holds exactly the items that were added to it and neither
      removed from it nor cleaned out since. Together with the order that every run keeps, that is the
      whole list. */
  lemma {:induction false} ListsHoldWhatWasKept(ops: seq<Op>)
    requires Hang !in Replies(EMPTY, ops)
    ensures var t := Final(EMPTY, ops);
            && InOrder(t) && |t.lists| == Creates(ops) && |t.data| == Additions(ops)
            && forall l, i :: 0 <= l < |t.lists| && 0 <= i ==> (i in t.lists[l] <==> Kept(ops, l, i))
    decreases |ops|
  {
    RunsKeepOrder(EMPTY, ops);
    if ops != [] {
      var n := |ops| - 1;
      var init, op := ops[..n], ops[n];
      assert ops == init + [op];
      FinalSnoc(EMPTY, init, op);
      ListsHoldWhatWasKept(init);
      var s, t := Final(EMPTY, init), Final(EMPTY, ops);
      SizesStep(s, op, ops);
      forall l, i | 0 <= l < |t.lists| && 0 <= i
        ensures i in t.lists[l] <==> Kept(ops, l, i)
      {
        hide InOrder, Step, Kept, Final, TakesOut;
        StepMembership(s, op, l, i);
        KeptSnoc(init, op, l, i);
        if l >= |s.lists| {
          NotYetCreated(init, l, i);
        }
      }
    }
  }

  lemma SizesStep(s: State, op: Op, ops: seq<Op>)
    requires ops != [] && op == ops[|ops| - 1]
    requires var init := ops[..|ops| - 1]; InOrder(s) && |s.lists| == Creates(init) && |s.data| == Additions(init)
    ensures |Step(s, op).0.lists| == Creates(ops) && |Step(s, op).0.data| == Additions(ops)
  {
  }

  /** Nothing was added to a list that has not been created. */
  lemma NotYetCreated(ops: seq<Op>, l: nat, i: nat)
    requires l >= Creates(ops)
    ensures !Kept(ops, l, i)
  {
    forall p | 0 <= p < |ops|
      ensures !AddedAt(ops, p, l, i)
    {
      CreatesGrow(ops, p);
    }
  }

  lemma {:induction false} CreatesGrow(ops: seq<Op>, p: nat)
    requires p <= |ops|
    ensures Creates(ops[..p]) <= Creates(ops)
  {
    if p < |ops| {
      assert ops[..|ops| - 1][..p] == ops[..p];
      CreatesGrow(ops[..|ops| - 1], p);
    } else {
      assert ops[..p] == ops;
    }
  }
}
