/**
 What every listq call answers, said from the calls before it alone: which items were added to a list,
 in which order and with which data, and which of them no later call took out.
 */
module ListqHistory {
  import opened Options
  import opened Listq
  import opened ListqMachine

  /** Call p added an item to list l that no later call took out. */
  ghost predicate StaysAt(ops: seq<Op>, p: nat, l: nat)
    requires p < |ops|
  {
    && Adding(ops, p) && ops[p].list == l
    && forall q :: p < q < |ops| ==> !TakesOut(ops[q], l, Additions(ops[..p]))
  }

  /** The data of the items that stay in list l, among the first n calls, in the order of the calls. */
  ghost function KeptData(ops: seq<Op>, l: nat, n: nat): seq<Pointer>
    requires n <= |ops|
  {
    if n == 0 then [] else KeptData(ops, l, n - 1) + if StaysAt(ops, n - 1, l) then [ops[n - 1].data] else []
  }

  /** The item was added behind two others that are still in the list. */
  ghost predicate BehindTwo(ops: seq<Op>, l: nat, i: nat) {
    exists p :: 0 <= p < |ops| && StaysAt(ops, p, l) && Additions(ops[..p]) == i && |KeptData(ops, l, p)| >= 2
  }

  /** The answer to a call after earlier calls that all returned. */
  ghost function Answer(prior: seq<Op>, op: Op): Reply {
    match op
    case Create => NewList(Creates(prior))
    case AddTail(l, d) => NewItem(if d != 0 && l < Creates(prior) then Some(Additions(prior)) else None)
    case RemoveItem(l, i) =>
      if !Kept(prior, l, i) then Code(-1) else if BehindTwo(prior, l, i) then Hang else Code(1)
    case Clean(l) => Code(if l < Creates(prior) then 0 else -1)
    case Size(l) => Code(if l < Creates(prior) then |KeptData(prior, l, |prior|)| else -1)
    case Visit(l) => Seen(KeptData(prior, l, |prior|))
  }

  /** Every reply of a run is the answer to its call, and the run stops at the first that is Hang. */
  ghost predicate Answered(ops: seq<Op>, replies: seq<Reply>) {
    && |replies| <= |ops|
    && (forall p :: 0 <= p < |replies| ==> replies[p] == Answer(ops[..p], ops[p]))
    && (forall p :: 0 <= p < |replies| - 1 ==> replies[p] != Hang)
    && (|replies| < |ops| ==> replies != [] && replies[|replies| - 1] == Hang)
  }

  // ---------------------------------------------------------------------------------------------
  // The numbers of the items that stay

  ghost function KeptIds(ops: seq<Op>, l: nat, n: nat): (ids: seq<nat>)
    requires n <= |ops|
    ensures |ids| == |KeptData(ops, l, n)|
  {
    if n == 0 then []
    else KeptIds(ops, l, n - 1) + if StaysAt(ops, n - 1, l) then [Additions(ops[..n - 1])] else []
  }

  lemma AddingInPrefix(ops: seq<Op>, p: nat, n: nat)
    requires p < n <= |ops|
    ensures Adding(ops[..n], p) <==> Adding(ops, p)
  {
    assert ops[..n][..p] == ops[..p];
  }

  lemma AdditionsStep(ops: seq<Op>, n: nat)
    requires n < |ops|
    ensures Additions(ops[..n + 1]) == Additions(ops[..n]) + if Adding(ops, n) then 1 else 0
  {
    assert ops[..n + 1][..n] == ops[..n];
    AddingInPrefix(ops, n, n + 1);
  }

  lemma {:induction false} AdditionsGrow(ops: seq<Op>, p: nat, n: nat)
    requires p <= n <= |ops|
    ensures Additions(ops[..p]) <= Additions(ops[..n])
    ensures p < n && Adding(ops, p) ==> Additions(ops[..p]) < Additions(ops[..n])
  {
    hide Additions, Adding;
    if p < n {
      AdditionsGrow(ops, p, n - 1);
      AdditionsStep(ops, n - 1);
    }
  }

  lemma {:induction false} KeptIdsIncrease(ops: seq<Op>, l: nat, n: nat)
    requires n <= |ops|
    ensures Increasing(KeptIds(ops, l, n))
    ensures forall k :: 0 <= k < |KeptIds(ops, l, n)| ==> KeptIds(ops, l, n)[k] < Additions(ops[..n])
  {
    hide Additions, Adding, TakesOut;
    if n > 0 {
      KeptIdsIncrease(ops, l, n - 1);
      AdditionsGrow(ops, n - 1, n);
    }
  }

  lemma {:induction false} KeptIdsMembers(ops: seq<Op>, l: nat, n: nat, i: nat)
    requires n <= |ops|
    ensures i in KeptIds(ops, l, n) <==> exists p :: 0 <= p < n && StaysAt(ops, p, l) && Additions(ops[..p]) == i
  {
    hide Additions, StaysAt;
    if n > 0 {
      KeptIdsMembers(ops, l, n - 1, i);
    }
  }

  lemma StaysIsKept(ops: seq<Op>, l: nat, i: nat)
    ensures Kept(ops, l, i) <==> exists p :: 0 <= p < |ops| && StaysAt(ops, p, l) && Additions(ops[..p]) == i
  {
    hide Additions, Adding, TakesOut;
    if Kept(ops, l, i) {
      var p :| 0 <= p < |ops| && AddedAt(ops, p, l, i) && forall q :: p < q < |ops| ==> !TakesOut(ops[q], l, i);
      assert StaysAt(ops, p, l);
    }
    if p :| 0 <= p < |ops| && StaysAt(ops, p, l) && Additions(ops[..p]) == i {
      assert AddedAt(ops, p, l, i);
    }
  }

  lemma FirstIsMember(s: seq<nat>)
    ensures s != [] ==> s[0] in s
  {
  }

  /** Increasing sequences with the same members are the same. */
  lemma {:induction false} SameMembers(a: seq<nat>, b: seq<nat>)
    requires Increasing(a) && Increasing(b) && forall i: nat :: i in a <==> i in b
    ensures a == b
  {
    FirstIsMember(a);
    FirstIsMember(b);
    if a != [] && b != [] {
      var m, n := |a| - 1, |b| - 1;
      assert a[m] in b && b[n] in a;
      assert a[m] == b[n];
      forall i: nat
        ensures i in a[..m] <==> i in b[..n]
      {
        assert i in a[..m] <==> i in a && i != a[m];
        assert i in b[..n] <==> i in b && i != b[n];
      }
      SameMembers(a[..m], b[..n]);
    }
  }

  // ---------------------------------------------------------------------------------------------
  // The machine's lists and data

  /** Every added item has the data of the call that added it. */
  lemma {:induction false} DataOfCalls(ops: seq<Op>, p: nat)
    requires Hang !in Replies(EMPTY, ops) && p < |ops| && Adding(ops, p)
    ensures var t := Final(EMPTY, ops);
            Additions(ops[..p]) < |t.data| && t.data[Additions(ops[..p])] == ops[p].data
    decreases |ops|
  {
    hide Replies, Final, Additions;
    var n := |ops| - 1;
    var init, op := ops[..n], ops[n];
    assert ops == init + [op];
    FinalSnoc(EMPTY, init, op);
    ListsHoldWhatWasKept(init);
    assert init[..p] == ops[..p];
    if p < n {
      AddingInPrefix(ops, p, n);
      DataOfCalls(init, p);
      StepKeepsData(Final(EMPTY, init), op, Additions(ops[..p]));
    } else {
      StepAdds(Final(EMPTY, init), op);
    }
  }

  lemma StepKeepsData(s: State, op: Op, i: nat)
    requires WellFormed(s) && i < |s.data|
    ensures i < |Step(s, op).0.data| && Step(s, op).0.data[i] == s.data[i]
  {
  }

  lemma StepAdds(s: State, op: Op)
    requires WellFormed(s) && op.AddTail? && op.data != 0 && op.list < |s.lists|
    ensures var t := Step(s, op).0; |s.data| < |t.data| && t.data[|s.data|] == op.data
  {
  }

  /** After calls that returned, list l is the items that stay in it, in the order of the calls. */
  lemma ListIsKeptIds(ops: seq<Op>, l: nat)
    requires Hang !in Replies(EMPTY, ops)
    ensures var t := Final(EMPTY, ops);
            && |t.lists| == Creates(ops) && |t.data| == Additions(ops)
            && (l < |t.lists| ==> t.lists[l] == KeptIds(ops, l, |ops|))
            && (l >= |t.lists| ==> KeptIds(ops, l, |ops|) == [])
  {
    hide Replies, Final, Additions, Creates, KeptIds, Kept;
    var t, ids := Final(EMPTY, ops), KeptIds(ops, l, |ops|);
    ListsHoldWhatWasKept(ops);
    KeptIdsIncrease(ops, l, |ops|);
    forall i: nat
      ensures i in ids <==> Kept(ops, l, i)
    {
      KeptIdsMembers(ops, l, |ops|, i);
      StaysIsKept(ops, l, i);
    }
    if l < |t.lists| {
      SameMembers(t.lists[l], ids);
    } else {
      FirstIsMember(ids);
      if ids != [] {
        NotYetCreated(ops, l, ids[0]);
      }
    }
  }

  lemma {:induction false} KeptDataIsData(ops: seq<Op>, l: nat, n: nat, data: seq<Pointer>)
    requires n <= |ops|
    requires forall p :: 0 <= p < |ops| && Adding(ops, p) ==>
               Additions(ops[..p]) < |data| && data[Additions(ops[..p])] == ops[p].data
    ensures forall k :: 0 <= k < |KeptIds(ops, l, n)| ==> KeptIds(ops, l, n)[k] < |data|
    ensures DataOf(KeptIds(ops, l, n), data) == KeptData(ops, l, n)
  {
    hide Additions, Adding;
    if n > 0 {
      KeptDataIsData(ops, l, n - 1, data);
    }
  }

  lemma {:induction false} KeptIdsPrefix(ops: seq<Op>, l: nat, p: nat, n: nat)
    requires p <= n <= |ops|
    ensures KeptIds(ops, l, p) <= KeptIds(ops, l, n)
  {
    hide StaysAt, Additions;
    if p < n {
      KeptIdsPrefix(ops, l, p, n - 1);
    }
  }

  /** An item stands behind those that stay and were added before it. */
  lemma PositionOfKept(ops: seq<Op>, l: nat, p: nat)
    requires p < |ops| && StaysAt(ops, p, l)
    ensures var ids, i := KeptIds(ops, l, |ops|), Additions(ops[..p]);
            i in ids && IndexOf(ids, i) == |KeptData(ops, l, p)|
  {
    hide Additions, StaysAt, IndexOf;
    var ids, i, k := KeptIds(ops, l, |ops|), Additions(ops[..p]), |KeptIds(ops, l, p)|;
    KeptIdsPrefix(ops, l, p + 1, |ops|);
    KeptIdsIncrease(ops, l, |ops|);
    assert KeptIds(ops, l, p + 1)[k] == i;
    assert ids[k] == i;
    var j := IndexOf(ids, i);
    assert j == k;
  }

  // ---------------------------------------------------------------------------------------------
  // The answers

  lemma AnswerOfStep(prior: seq<Op>, op: Op)
    requires Hang !in Replies(EMPTY, prior)
    ensures Step(Final(EMPTY, prior), op).1 == Answer(prior, op)
  {
    hide Replies, Final, Additions, Creates, Kept, KeptIds, KeptData, BehindTwo;
    match op
    case Create => ListIsKeptIds(prior, 0);
    case AddTail(l, _) => ListIsKeptIds(prior, l);
    case RemoveItem(l, i) => AnswerOfRemove(prior, l, i);
    case Clean(l) => ListIsKeptIds(prior, l);
    case Size(l) => ListIsKeptIds(prior, l);
    case Visit(l) => AnswerOfVisit(prior, l);
  }

  lemma AnswerOfVisit(prior: seq<Op>, l: nat)
    requires Hang !in Replies(EMPTY, prior)
    ensures Step(Final(EMPTY, prior), Visit(l)).1 == Seen(KeptData(prior, l, |prior|))
  {
    hide Replies, Final, Additions, Creates, KeptIds;
    ListIsKeptIds(prior, l);
    var t := Final(EMPTY, prior);
    forall p | 0 <= p < |prior| && Adding(prior, p)
      ensures Additions(prior[..p]) < |t.data| && t.data[Additions(prior[..p])] == prior[p].data
    {
      DataOfCalls(prior, p);
    }
    KeptDataIsData(prior, l, |prior|, t.data);
    if l >= |t.lists| {
      assert KeptData(prior, l, |prior|) == [];
    }
  }

  lemma AnswerOfRemove(prior: seq<Op>, l: nat, i: nat)
    requires Hang !in Replies(EMPTY, prior)
    ensures Step(Final(EMPTY, prior), RemoveItem(l, i)).1 == Answer(prior, RemoveItem(l, i))
  {
    hide Replies, Final, Additions, Creates, KeptIds, KeptData, StaysAt, IndexOf, Kept;
    var t, ids := Final(EMPTY, prior), KeptIds(prior, l, |prior|);
    ListIsKeptIds(prior, l);
    KeptIdsMembers(prior, l, |prior|, i);
    StaysIsKept(prior, l, i);
    forall p | 0 <= p < |prior| && StaysAt(prior, p, l) && Additions(prior[..p]) == i
      ensures i in ids && IndexOf(ids, i) == |KeptData(prior, l, p)|
    {
      PositionOfKept(prior, l, p);
    }
  }

  /** What one more call of a run answers. */
  lemma {:induction false} ReplyAt(s: State, ops: seq<Op>, p: nat)
    requires WellFormed(s) && p < |Replies(s, ops)|
    ensures p < |ops| && Hang !in Replies(s, ops[..p])
    ensures Replies(s, ops)[p] == Step(Final(s, ops[..p]), ops[p]).1
    ensures p < |Replies(s, ops)| - 1 ==> Replies(s, ops)[p] != Hang
    decreases p
  {
    hide Step;
    RepliesEnd(s, ops);
    if p == 0 {
      assert ops[..0] == [];
    } else {
      assert ops[..p][0] == ops[0] && ops[..p][1..] == ops[1..][..p - 1];
      ReplyAt(Step(s, ops[0]).0, ops[1..], p - 1);
    }
  }

  lemma {:induction false} RepliesEnd(s: State, ops: seq<Op>)
    requires WellFormed(s)
    ensures var rs := Replies(s, ops);
            |rs| <= |ops| && (|rs| < |ops| ==> rs != [] && rs[|rs| - 1] == Hang)
    decreases |ops|
  {
    hide Step;
    if ops != [] {
      RepliesEnd(Step(s, ops[0]).0, ops[1..]);
    }
  }

  /** Every reply of every run follows from the calls before it. */
  lemma RepliesByHistory(ops: seq<Op>)
    ensures Answered(ops, Replies(EMPTY, ops))
  {
    hide Step, Answer, Replies;
    var rs := Replies(EMPTY, ops);
    RepliesEnd(EMPTY, ops);
    forall p | 0 <= p < |rs|
      ensures rs[p] == Answer(ops[..p], ops[p]) && (p < |rs| - 1 ==> rs[p] != Hang)
    {
      ReplyAt(EMPTY, ops, p);
      AnswerOfStep(ops[..p], ops[p]);
    }
  }

  /** What was added is what a visit sees. */
  lemma VisitSeesTheData(ops: seq<Op>)
    requires ops == [Create, AddTail(0, 7), Visit(0)]
    ensures Replies(EMPTY, ops) == [NewList(0), NewItem(Some(0)), Seen([7])]
  {
    hide Step, Replies, WellFormed;
    assert ops == [ops[0]] + ops[1..] && ops[1..] == [ops[1]] + ops[2..] && ops[2..] == [ops[2]] + [];
    CreateFirst(ops[1..]);
    AddToOnlyList([], [], 7, ops[2..]);
    assert [] + [0] == [0] && [] + [7] == [7];
    OneVisit(State([[0]], [7]));
  }

  lemma OneVisit(s: State)
    requires s == State([[0]], [7])
    ensures WellFormed(s) && Replies(s, [Visit(0)] + []) == [Seen([7])]
  {
    FirstReply(s, Visit(0), []);
    assert DataOf([0], [7]) == [7];
  }
}
