/**
 link_info_receive: looking for the link message of one interface in the datagrams of a dump.
 */
module LinkInfo {
  import opened Numbers
  import opened Words
  import opened Netlink

  /** What one recvmsg call gives: an error, or the bytes received, of which the buffer holds 4096. */
  datatype Receive = Failed | Received(bytes: seq<Byte>)

  function Bytes(r: Receive): (bs: seq<Byte>)
    ensures |bs| <= 4096
    ensures r.Failed? ==> bs == []
    ensures r.Received? ==> bs <= r.bytes && |bs| == Min(|r.bytes|, 4096)
  {
    match r
    case Failed => []
    case Received(bytes) => if |bytes| <= 4096 then bytes else bytes[..4096]
  }

  // ---------------------------------------------------------------------------------------------
  // What the search is for

  /** What one message means for the search. PastEnd: the index or the ifinfomsg to copy is read behind
      the received bytes. A message too short for them that has others behind it is read on into those. */
  datatype Look = Nothing | Hit(info: seq<Byte>) | PastEnd

  function LookAt(o: ByteOrder, a: Arrival, index: nat): Look {
    if a.message.nlmsgType != RTM_NEWLINK then Nothing
    else if |a.bytes| < 8 then PastEnd
    else if Get(o, a.bytes, 4, 4) != index then Nothing
    else if |a.bytes| < IFINFOMSG_LEN then PastEnd
    else Hit(a.bytes[..IFINFOMSG_LEN])
  }

  /** The first message that means something. */
  function Find(o: ByteOrder, ms: seq<Arrival>, index: nat): Look {
    if ms == [] then Nothing
    else if LookAt(o, ms[0], index) != Nothing then LookAt(o, ms[0], index)
    else Find(o, ms[1..], index)
  }

  /** A message passed on the way, with the attributes that are walked for printing. */
  datatype Visit = Visit(nlmsgType: nat, printed: seq<Attr>)

  function VisitOf(o: ByteOrder, m: Message): Visit {
    Visit(m.nlmsgType,
          if m.nlmsgType == RTM_NEWLINK || m.nlmsgType == RTM_GETLINK then AttrsAfter(o, m.payload, IFINFOMSG_LEN)
          else [])
  }

  /** The messages before the first that means something. */
  function Visited(o: ByteOrder, ms: seq<Arrival>, index: nat): seq<Visit> {
    if ms == [] || LookAt(o, ms[0], index) != Nothing then []
    else [VisitOf(o, ms[0].message)] + Visited(o, ms[1..], index)
  }

  predicate HasDone(ms: seq<Arrival>) {
    exists i :: 0 <= i < |ms| && ms[i].message.nlmsgType == NLMSG_DONE
  }

  /** The messages of the datagrams up to and including the first that holds a DONE. */
  function Flattened(o: ByteOrder, run: seq<Receive>): seq<Arrival> {
    if run == [] then []
    else
      var ms := Arrivals(o, Bytes(run[0]));
      if HasDone(ms) then ms else ms + Flattened(o, run[1..])
  }

  predicate Ends(o: ByteOrder, run: seq<Receive>) {
    exists i :: 0 <= i < |run| && HasDone(Arrivals(o, Bytes(run[i])))
  }

  /** Found: return 0 with the copied ifinfomsg. NotFound: return -1. ReadPast: a short link message was
      read behind the received bytes. Waiting: the run is used up and the loop is in recvmsg again. */
  datatype Outcome = Found(info: seq<Byte>) | NotFound | ReadPast | Waiting

  function Expected(o: ByteOrder, run: seq<Receive>, index: nat): Outcome {
    match Find(o, Flattened(o, run), index)
    case Hit(info) => Found(info)
    case PastEnd => ReadPast
    case Nothing => if Ends(o, run) then NotFound else Waiting
  }

  lemma {:induction false} FindAppend(o: ByteOrder, a: seq<Arrival>, b: seq<Arrival>, index: nat)
    ensures Find(o, a + b, index) == if Find(o, a, index) != Nothing then Find(o, a, index) else Find(o, b, index)
    ensures Visited(o, a + b, index)
         == Visited(o, a, index) + if Find(o, a, index) != Nothing then [] else Visited(o, b, index)
  {
    hide LookAt, VisitOf;
    if a == [] {
      assert a + b == b;
    } else {
      assert (a + b)[1..] == a[1..] + b;
      FindAppend(o, a[1..], b, index);
    }
  }

  /** Find and Visited, by position: the first message that means something, and everything before it. */
  lemma {:induction false} FirstThatMeans(o: ByteOrder, ms: seq<Arrival>, index: nat)
    ensures var n := |Visited(o, ms, index)|;
            && n <= |ms|
            && (forall i :: 0 <= i < n ==>
                  LookAt(o, ms[i], index) == Nothing && Visited(o, ms, index)[i] == VisitOf(o, ms[i].message))
            && Find(o, ms, index) == (if n == |ms| then Nothing else LookAt(o, ms[n], index))
            && (n < |ms| ==> LookAt(o, ms[n], index) != Nothing)
  {
    hide LookAt, VisitOf;
    if ms != [] && LookAt(o, ms[0], index) == Nothing {
      FirstThatMeans(o, ms[1..], index);
    }
  }

  // ---------------------------------------------------------------------------------------------
  // The loops

  /** The inner loop over one buffer. A DONE is noted but does not stop it; a wanted link does. The link
      messages that are not wanted are walked for printing. */
  method ScanDatagram(o: ByteOrder, buf: seq<Byte>, received: int, index: nat)
    returns (end: bool, found: Look, visits: seq<Visit>)
    requires received <= |buf| <= 4096
    ensures found == Find(o, Arrivals(o, Covered(buf, 0, received)), index)
    ensures visits == Visited(o, Arrivals(o, Covered(buf, 0, received)), index)
    ensures found == Nothing ==> end == HasDone(Arrivals(o, Covered(buf, 0, received)))
  {
    hide Get, Align, Arrivals, Covered, HasDone, DecodeAttrs, Find, Visited, LookAt, VisitOf;
    NothingYet(o, index);
    ghost var all := Arrivals(o, Covered(buf, 0, received));
    ghost var before: seq<Arrival> := [];
    end, found, visits := false, Nothing, [];
    var msg: nat, len: int := 0, received;
    while len >= NLMSG_HDRLEN && Get(o, buf, msg, 4) >= NLMSG_HDRLEN && Get(o, buf, msg, 4) <= len
      invariant len > 0 ==> msg + len == received
      invariant all == before + Arrivals(o, Covered(buf, msg, len))
      invariant end == HasDone(before)
      invariant found == Nothing == Find(o, before, index) && visits == Visited(o, before, index)
      decreases len
    {
      var n := Get(o, buf, msg, 4);
      ghost var m, after := ArrivalHere(o, buf, msg, len);
      assert all == before + ([m] + after);
      VisitMessage(o, before, m, after, index);
      var visit;
      found, visit := ReadMessage(o, buf, msg, n, len, index, m);
      if found != Nothing {
        return;
      }
      if Get(o, buf, msg + 4, 2) == NLMSG_DONE {
        end := true;
      }
      visits := visits + [visit];
      before := before + [m];
      msg, len := msg + Align(n), len - Align(n);
    }
    ArrivalsEnd(o, buf, msg, len);
    assert all == before;
  }

  /** The switch on one message, with len bytes received from its header on. */
  method ReadMessage(o: ByteOrder, buf: seq<Byte>, msg: nat, nlmsgLen: nat, len: nat, index: nat, ghost a: Arrival)
    returns (found: Look, visit: Visit)
    requires NLMSG_HDRLEN <= nlmsgLen <= len && msg + len <= |buf|
    requires a.message.nlmsgType == Get(o, buf, msg + 4, 2)
    requires a.message.payload == buf[msg + NLMSG_HDRLEN..msg + nlmsgLen]
    requires a.bytes == buf[msg + NLMSG_HDRLEN..msg + len]
    ensures found == LookAt(o, a, index)
    ensures found == Nothing ==> visit == VisitOf(o, a.message)
  {
    hide Get, AttrsAfter;
    var nlmsgType := Get(o, buf, msg + 4, 2);
    found, visit := Nothing, Visit(nlmsgType, []);
    if nlmsgType == RTM_NEWLINK {
      var iface := msg + NLMSG_HDRLEN;
      if len < NLMSG_HDRLEN + 8 {
        return PastEnd, visit;
      }
      IndexAt(o, buf, iface, len - NLMSG_HDRLEN);
      if Get(o, buf, iface + 4, 4) == index {
        if len < NLMSG_HDRLEN + IFINFOMSG_LEN {
          return PastEnd, visit;
        }
        SliceOfSlice(buf, iface, len - NLMSG_HDRLEN, 0, IFINFOMSG_LEN);
        return Hit(buf[iface..iface + IFINFOMSG_LEN]), visit;
      }
    }
    if nlmsgType == RTM_NEWLINK || nlmsgType == RTM_GETLINK {
      var printed := PrintLink(o, buf, msg, nlmsgLen);
      visit := Visit(nlmsgType, printed);
    }
  }

  lemma IndexAt(o: ByteOrder, buf: seq<Byte>, iface: nat, n: nat)
    requires 8 <= n && iface + n <= |buf|
    ensures Get(o, buf[iface..iface + n], 4, 4) == Get(o, buf, iface + 4, 4)
  {
    SliceOfSlice(buf, iface, n, 4, 8);
  }

  lemma NothingYet(o: ByteOrder, index: nat)
    ensures !HasDone([]) && Find(o, [], index) == Nothing && Visited(o, [], index) == []
  {
  }

  /** What one more message means for the search, when none before it meant anything. */
  lemma VisitMessage(o: ByteOrder, before: seq<Arrival>, m: Arrival, after: seq<Arrival>, index: nat)
    requires Find(o, before, index) == Nothing
    ensures HasDone(before + [m]) <==> HasDone(before) || m.message.nlmsgType == NLMSG_DONE
    ensures Find(o, before + [m], index) == LookAt(o, m, index)
    ensures if LookAt(o, m, index) != Nothing then
              && Find(o, before + ([m] + after), index) == LookAt(o, m, index)
              && Visited(o, before + ([m] + after), index) == Visited(o, before, index)
            else
              Visited(o, before + [m], index) == Visited(o, before, index) + [VisitOf(o, m.message)]
  {
    hide LookAt, VisitOf, HasDone;
    FindAppend(o, before, [m] + after, index);
    FindAppend(o, before, [m], index);
    FindAppend(o, [m], after, index);
    LookAtOne(o, m, index);
    DoneAppend(before, m);
  }

  lemma LookAtOne(o: ByteOrder, m: Arrival, index: nat)
    ensures Find(o, [m], index) == LookAt(o, m, index)
    ensures Visited(o, [m], index) == if LookAt(o, m, index) != Nothing then [] else [VisitOf(o, m.message)]
  {
    hide LookAt, VisitOf;
    assert [m][1..] == [];
  }

  lemma DoneAppend(ms: seq<Arrival>, m: Arrival)
    ensures HasDone(ms + [m]) <==> HasDone(ms) || m.message.nlmsgType == NLMSG_DONE
  {
    if HasDone(ms) {
      var i :| 0 <= i < |ms| && ms[i].message.nlmsgType == NLMSG_DONE;
      assert (ms + [m])[i].message.nlmsgType == NLMSG_DONE;
    }
    if m.message.nlmsgType == NLMSG_DONE {
      assert (ms + [m])[|ms|].message.nlmsgType == NLMSG_DONE;
    }
  }

  /** rtnl_print_link: the attributes behind the ifinfomsg, by a length that a short message makes
      negative. */
  method PrintLink(o: ByteOrder, buf: seq<Byte>, msg: nat, nlmsgLen: nat) returns (seen: seq<Attr>)
    requires NLMSG_HDRLEN <= nlmsgLen && msg + nlmsgLen <= |buf|
    ensures seen == AttrsAfter(o, buf[msg + NLMSG_HDRLEN..msg + nlmsgLen], IFINFOMSG_LEN)
  {
    AttrsOfMessage(o, buf, msg, nlmsgLen, IFINFOMSG_LEN);
    seen := WalkAttrs(o, buf, msg + NLMSG_HDRLEN + IFINFOMSG_LEN, nlmsgLen - NLMSG_HDRLEN - IFINFOMSG_LEN);
  }

  /** The receive loop, on any run of receives: its outcome, and every message passed on the way. */
  method LinkInfoReceive(o: ByteOrder, run: seq<Receive>, index: nat) returns (outcome: Outcome, visits: seq<Visit>)
    ensures outcome == Expected(o, run, index)
    ensures visits == Visited(o, Flattened(o, run), index)
  {
    hide Expected, Flattened, Visited, Find, Arrivals, HasDone;
    NoMoreReceives(o, index);
    assert run[0..] == run && run[|run|..] == [];
    visits := [];
    var end := false;
    var k := 0;
    while !end && k < |run|
      invariant 0 <= k <= |run|
      invariant !end ==> Expected(o, run, index) == Expected(o, run[k..], index)
      invariant !end ==> Visited(o, Flattened(o, run), index) == visits + Visited(o, Flattened(o, run[k..]), index)
      invariant end ==> Expected(o, run, index) == NotFound && Visited(o, Flattened(o, run), index) == visits
      decreases |run| - k
    {
      var len := if run[k].Failed? then -1 else |Bytes(run[k])|;
      ghost var rest := run[k..];
      assert rest[0] == run[k] && rest[1..] == run[k + 1..];
      ExpectedStep(o, rest, index);
      if len != 0 {
        assert Covered(Bytes(run[k]), 0, len) == Bytes(run[k]);
        var found, seen;
        end, found, seen := ScanDatagram(o, Bytes(run[k]), len, index);
        visits := visits + seen;
        if found.Hit? {
          return Found(found.info), visits;
        } else if found.PastEnd? {
          return ReadPast, visits;
        }
      }
      k := k + 1;
    }
    outcome := if end then NotFound else Waiting;
  }

  lemma NoMoreReceives(o: ByteOrder, index: nat)
    ensures Expected(o, [], index) == Waiting && Visited(o, Flattened(o, []), index) == []
    ensures Arrivals(o, []) == [] && Find(o, [], index) == Nothing && !HasDone([])
    ensures Visited(o, [], index) == []
  {
  }

  lemma ExpectedStep(o: ByteOrder, run: seq<Receive>, index: nat)
    requires run != []
    ensures var ms := Arrivals(o, Bytes(run[0]));
            && Expected(o, run, index)
               == (match Find(o, ms, index)
                   case Hit(info) => Found(info)
                   case PastEnd => ReadPast
                   case Nothing => if HasDone(ms) then NotFound else Expected(o, run[1..], index))
            && Visited(o, Flattened(o, run), index)
               == Visited(o, ms, index) + if Find(o, ms, index) != Nothing || HasDone(ms) then []
                                          else Visited(o, Flattened(o, run[1..]), index)
  {
    hide Find, Visited, Arrivals, HasDone, Bytes;
    var ms := Arrivals(o, Bytes(run[0]));
    FindAppend(o, ms, Flattened(o, run[1..]), index);
  }

  /** The search ends exactly when some datagram of the run holds a DONE or a message that means
      something; otherwise it waits for more. */
  lemma {:induction false} EndsExactly(o: ByteOrder, run: seq<Receive>, index: nat)
    ensures Expected(o, run, index) != Waiting
       <==> exists i :: 0 <= i < |run| && Decides(o, run[i], index)
  {
    hide Expected, Find, Arrivals, HasDone, Bytes;
    if run == [] {
      NoMoreReceives(o, index);
    } else {
      ExpectedStep(o, run, index);
      EndsExactly(o, run[1..], index);
      if i :| 0 <= i < |run| - 1 && Decides(o, run[1..][i], index) {
        assert Decides(o, run[i + 1], index);
      }
      if i :| 0 <= i < |run| && Decides(o, run[i], index) {
        assert i > 0 ==> run[i] == run[1..][i - 1];
      }
    }
  }

  predicate Decides(o: ByteOrder, r: Receive, index: nat) {
    var ms := Arrivals(o, Bytes(r));
    HasDone(ms) || Find(o, ms, index) != Nothing
  }

  /** Something is read behind the received bytes exactly when a link message with too few bytes behind
      its header comes before any that is wanted. */
  lemma ReadPastExactly(o: ByteOrder, run: seq<Receive>, index: nat)
    ensures var ms := Flattened(o, run);
            (Expected(o, run, index) == ReadPast
             <==> exists n :: 0 <= n < |ms| && LookAt(o, ms[n], index) == PastEnd
                              && forall i :: 0 <= i < n ==> LookAt(o, ms[i], index) == Nothing)
  {
    hide LookAt, Find, Flattened, Visited, VisitOf, HasDone, Ends;
    FirstLook(o, Flattened(o, run), index, PastEnd);
  }

  /** The search result is what the first message that means something means. */
  lemma FirstLook(o: ByteOrder, ms: seq<Arrival>, index: nat, look: Look)
    requires look != Nothing
    ensures Find(o, ms, index) == look
       <==> exists n :: 0 <= n < |ms| && LookAt(o, ms[n], index) == look
                        && forall i :: 0 <= i < n ==> LookAt(o, ms[i], index) == Nothing
  {
    hide LookAt, Find, Visited, VisitOf;
    FirstThatMeans(o, ms, index);
    var first := |Visited(o, ms, index)|;
    if n :| 0 <= n < |ms| && LookAt(o, ms[n], index) == look
            && forall i :: 0 <= i < n ==> LookAt(o, ms[i], index) == Nothing {
      assert first == n;
    }
    if Find(o, ms, index) == look {
      assert first < |ms| && LookAt(o, ms[first], index) == look;
    }
  }

  /** A link message that is only a header, at the end of its datagram. */
  lemma ShortLinkCounterexample(o: ByteOrder, index: nat)
    ensures Expected(o, [Received(MessageBytes(o, Message(RTM_NEWLINK, 0, 0, 0, [])))], index) == ReadPast
  {
    hide Find, Arrivals, MessageBytes, Expected;
    var m := Message(RTM_NEWLINK, 0, 0, 0, []);
    var run := [Received(MessageBytes(o, m))];
    OneArrival(o, m);
    LookAtOne(o, Arrival(m, []), index);
    ExpectedStep(o, run, index);
  }

  /** The kernel's promise that the code relies on: a link message holds an ifinfomsg. */
  predicate LinksHoldInfo(o: ByteOrder, r: Receive) {
    var ms := DecodeMessages(o, Bytes(r));
    forall i :: 0 <= i < |ms| && ms[i].nlmsgType == RTM_NEWLINK ==> |ms[i].payload| >= IFINFOMSG_LEN
  }

  /** Under that promise nothing is read behind a message: what is looked at is its payload. */
  lemma PromiseKeepsInside(o: ByteOrder, r: Receive, index: nat)
    requires LinksHoldInfo(o, r)
    ensures var ms := Arrivals(o, Bytes(r));
            forall i :: 0 <= i < |ms| ==>
              LookAt(o, ms[i], index) == LookAt(o, Arrival(ms[i].message, ms[i].message.payload), index) != PastEnd
  {
    hide DecodeMessages, Arrivals, Get;
    var ms := Arrivals(o, Bytes(r));
    ArrivalsAreDecoded(o, Bytes(r));
    forall i | 0 <= i < |ms|
      ensures LookAt(o, ms[i], index) == LookAt(o, Arrival(ms[i].message, ms[i].message.payload), index) != PastEnd
    {
      var a := ms[i];
      if a.message.nlmsgType == RTM_NEWLINK {
        FieldOfPrefix(o, a.message.payload, a.bytes);
      }
    }
  }

  lemma FieldOfPrefix(o: ByteOrder, p: seq<Byte>, bs: seq<Byte>)
    requires IFINFOMSG_LEN <= |p| && p <= bs
    ensures Get(o, p, 4, 4) == Get(o, bs, 4, 4) && p[..IFINFOMSG_LEN] == bs[..IFINFOMSG_LEN]
  {
    assert p[4..8] == bs[4..8];
  }

  /** So a run that keeps the promise never reads behind the received bytes. */
  lemma {:induction false} PromisedRunStaysInside(o: ByteOrder, run: seq<Receive>, index: nat)
    requires forall i :: 0 <= i < |run| ==> LinksHoldInfo(o, run[i])
    ensures Expected(o, run, index) != ReadPast
  {
    hide Expected, Find, Arrivals, HasDone, Bytes, LinksHoldInfo, LookAt;
    if run == [] {
      NoMoreReceives(o, index);
    } else {
      ExpectedStep(o, run, index);
      FirstThatMeans(o, Arrivals(o, Bytes(run[0])), index);
      PromiseKeepsInside(o, run[0], index);
      assert forall i :: 0 <= i < |run| - 1 ==> run[1..][i] == run[i + 1];
      PromisedRunStaysInside(o, run[1..], index);
    }
  }

  // ---------------------------------------------------------------------------------------------
  // The outcome, over the messages that were sent

  // Message types are written as the numbers of the kernel's headers: 16 is RTM_NEWLINK, 18 RTM_GETLINK
  // and 3 NLMSG_DONE.

  /** A datagram of messages as the kernel sends them: they fit the buffer, and a link message holds an
      ifinfomsg. */
  predicate Sendable(o: ByteOrder, ms: seq<Message>) {
    && |EncodeMessages(o, ms)| <= 4096
    && forall i :: 0 <= i < |ms| ==>
         EncodableMessage(ms[i]) && (ms[i].nlmsgType == 16 ==> |ms[i].payload| >= 16)
  }

  predicate Wanted(o: ByteOrder, m: Message, index: nat) {
    m.nlmsgType == 16 && |m.payload| >= 16 && Load(o, m.payload[4..8]) == index
  }

  predicate Done(ms: seq<Message>) {
    exists i :: 0 <= i < |ms| && ms[i].nlmsgType == 3
  }

  /** The first wanted message of a run, in a datagram with no DONE before it. */
  predicate FirstWanted(o: ByteOrder, sent: seq<seq<Message>>, index: nat, k: nat, i: nat) {
    && k < |sent| && i < |sent[k]| && Wanted(o, sent[k][i], index)
    && (forall h :: 0 <= h < i ==> !Wanted(o, sent[k][h], index))
    && forall j :: 0 <= j < k ==>
         !Done(sent[j]) && forall h :: 0 <= h < |sent[j]| ==> !Wanted(o, sent[j][h], index)
  }

  function Datagrams(o: ByteOrder, sent: seq<seq<Message>>): (run: seq<Receive>)
    ensures |run| == |sent|
  {
    seq(|sent|, k requires 0 <= k < |sent| => Received(EncodeMessages(o, sent[k])))
  }

  /** One datagram: what it means for the search. */
  lemma FindInSent(o: ByteOrder, ms: seq<Message>, index: nat)
    requires Sendable(o, ms)
    ensures var arrived := Arrivals(o, Bytes(Received(EncodeMessages(o, ms))));
            && (HasDone(arrived) <==> Done(ms))
            && (forall i :: 0 <= i < |ms| && Wanted(o, ms[i], index)
                            && (forall h :: 0 <= h < i ==> !Wanted(o, ms[h], index)) ==>
                  Find(o, arrived, index) == Hit(ms[i].payload[..16]))
            && ((forall i :: 0 <= i < |ms| ==> !Wanted(o, ms[i], index)) ==> Find(o, arrived, index) == Nothing)
  {
    hide EncodeMessages, DecodeMessages, Arrivals, Find, Visited, VisitOf, Load;
    var bs := EncodeMessages(o, ms);
    assert Bytes(Received(bs)) == bs;
    var arrived := Arrivals(o, bs);
    MessagesRoundTrip(o, ms);
    ArrivalsAreDecoded(o, bs);
    PromiseKeepsInside(o, Received(bs), index);
    forall i | 0 <= i < |ms|
      ensures LookAt(o, arrived[i], index)
           == if Wanted(o, ms[i], index) then Hit(ms[i].payload[..16]) else Nothing
    {
      assert arrived[i].message == ms[i];
    }
    DoneInSent(ms, arrived);
    hide LookAt, Wanted, HasDone;
    FirstThatMeans(o, arrived, index);
  }

  lemma DoneInSent(ms: seq<Message>, arrived: seq<Arrival>)
    requires |ms| == |arrived| && forall i :: 0 <= i < |ms| ==> arrived[i].message == ms[i]
    ensures HasDone(arrived) <==> Done(ms)
  {
    if i :| 0 <= i < |ms| && ms[i].nlmsgType == 3 {
      assert arrived[i].message.nlmsgType == NLMSG_DONE;
    }
  }

  /** What the call is to give: the ifinfomsg of the first wanted message that no earlier datagram with a
      DONE hides; without one, not found when some datagram holds a DONE, and waiting otherwise. */
  ghost predicate IsOutcome(o: ByteOrder, sent: seq<seq<Message>>, index: nat, outcome: Outcome)
    requires forall k :: 0 <= k < |sent| ==> Sendable(o, sent[k])
  {
    && (forall k: nat, i: nat | FirstWanted(o, sent, index, k, i) ::
          outcome == Found(sent[k][i].payload[..16]))
    && ((forall k: nat, i: nat :: !FirstWanted(o, sent, index, k, i)) ==>
          outcome == if exists k :: 0 <= k < |sent| && Done(sent[k]) then NotFound else Waiting)
  }

  /** That is the outcome on any run of datagrams that the kernel sends. */
  lemma {:induction false} OutcomeOfSent(o: ByteOrder, sent: seq<seq<Message>>, index: nat)
    requires forall k :: 0 <= k < |sent| ==> Sendable(o, sent[k])
    ensures IsOutcome(o, sent, index, Expected(o, Datagrams(o, sent), index))
    decreases |sent|
  {
    hide Expected, Find, Arrivals, HasDone, Bytes, Sendable, EncodeMessages, Wanted, Done;
    var run := Datagrams(o, sent);
    if sent == [] {
      NoMoreReceives(o, index);
      assert run == [];
    } else {
      hide IsOutcome, FirstWanted;
      assert run[1..] == Datagrams(o, sent[1..]);
      ExpectedStep(o, run, index);
      FindInSent(o, sent[0], index);
      OutcomeOfSent(o, sent[1..], index);
      if i :| 0 <= i < |sent[0]| && Wanted(o, sent[0][i], index) {
        var first := FirstWantedAt(o, sent[0], index, i);
        FoundAtOnce(o, sent, index, first);
      } else if Done(sent[0]) {
        EndedAtOnce(o, sent, index);
      } else {
        FoundLater(o, sent, index, Expected(o, run[1..], index));
      }
    }
  }

  lemma FoundAtOnce(o: ByteOrder, sent: seq<seq<Message>>, index: nat, i: nat)
    requires forall k :: 0 <= k < |sent| ==> Sendable(o, sent[k])
    requires sent != [] && i < |sent[0]| && Wanted(o, sent[0][i], index)
    requires forall h :: 0 <= h < i ==> !Wanted(o, sent[0][h], index)
    ensures |sent[0][i].payload| >= 16
    ensures IsOutcome(o, sent, index, Found(sent[0][i].payload[..16]))
  {
    hide Sendable, Done;
    assert FirstWanted(o, sent, index, 0, i);
    hide FirstWanted;
    forall k: nat, h: nat | FirstWanted(o, sent, index, k, h)
      ensures k == 0 && h == i
    {
      WantedOnce(o, sent, index, 0, i, k, h);
    }
  }

  lemma EndedAtOnce(o: ByteOrder, sent: seq<seq<Message>>, index: nat)
    requires forall k :: 0 <= k < |sent| ==> Sendable(o, sent[k])
    requires sent != [] && Done(sent[0]) && forall h :: 0 <= h < |sent[0]| ==> !Wanted(o, sent[0][h], index)
    ensures IsOutcome(o, sent, index, NotFound)
  {
    hide Sendable, Done, Wanted;
    forall k: nat, i: nat
      ensures !FirstWanted(o, sent, index, k, i)
    {
    }
  }

  lemma FoundLater(o: ByteOrder, sent: seq<seq<Message>>, index: nat, outcome: Outcome)
    requires forall k :: 0 <= k < |sent| ==> Sendable(o, sent[k])
    requires sent != [] && !Done(sent[0]) && forall h :: 0 <= h < |sent[0]| ==> !Wanted(o, sent[0][h], index)
    requires IsOutcome(o, sent[1..], index, outcome)
    ensures IsOutcome(o, sent, index, outcome)
  {
    hide Sendable, Done, Wanted, FirstWanted;
    LaterWanted(o, sent, index);
    forall k: nat, i: nat | FirstWanted(o, sent, index, k, i)
      ensures FirstWanted(o, sent[1..], index, k - 1, i) && k > 0
    {
    }
    assert (forall k: nat, i: nat :: !FirstWanted(o, sent, index, k, i)) ==>
        forall k: nat, i: nat :: !FirstWanted(o, sent[1..], index, k, i) by {
      forall k: nat, i: nat | FirstWanted(o, sent[1..], index, k, i)
        ensures FirstWanted(o, sent, index, k + 1, i)
      {
        assert FirstWanted(o, sent[1..], index, (k + 1) - 1, i);
      }
    }
    FirstWantedInside(o, sent, index);
  }

  lemma FirstWantedInside(o: ByteOrder, sent: seq<seq<Message>>, index: nat)
    ensures forall k: nat, i: nat | FirstWanted(o, sent, index, k, i) :: k < |sent| && i < |sent[k]|
  {
  }

  lemma {:induction false} FirstWantedAt(o: ByteOrder, ms: seq<Message>, index: nat, i: nat) returns (first: nat)
    requires i < |ms| && Wanted(o, ms[i], index)
    ensures first <= i && Wanted(o, ms[first], index)
    ensures forall h :: 0 <= h < first ==> !Wanted(o, ms[h], index)
  {
    hide Wanted;
    if h :| 0 <= h < i && Wanted(o, ms[h], index) {
      first := FirstWantedAt(o, ms, index, h);
    } else {
      first := i;
    }
  }

  lemma WantedOnce(o: ByteOrder, sent: seq<seq<Message>>, index: nat, k: nat, i: nat, k': nat, i': nat)
    requires FirstWanted(o, sent, index, k, i) && FirstWanted(o, sent, index, k', i')
    ensures k == k' && i == i'
  {
    hide Wanted, Done;
  }

  /** When the first datagram holds neither, the search is that of the rest. */
  lemma LaterWanted(o: ByteOrder, sent: seq<seq<Message>>, index: nat)
    requires sent != [] && !Done(sent[0]) && forall h :: 0 <= h < |sent[0]| ==> !Wanted(o, sent[0][h], index)
    ensures forall k: nat, i: nat :: 0 < k ==>
              (FirstWanted(o, sent, index, k, i) <==> FirstWanted(o, sent[1..], index, k - 1, i))
    ensures forall i: nat :: !FirstWanted(o, sent, index, 0, i)
    ensures (exists k :: 0 <= k < |sent| && Done(sent[k])) <==> (exists k :: 0 <= k < |sent[1..]| && Done(sent[1..][k]))
  {
    hide Wanted, Done;
    var rest := sent[1..];
    forall k: nat, i: nat | 0 < k
      ensures FirstWanted(o, sent, index, k, i) <==> FirstWanted(o, rest, index, k - 1, i)
    {
      assert k < |sent| ==> rest[k - 1] == sent[k];
      if FirstWanted(o, sent, index, k, i) {
        assert forall j :: 0 <= j < k - 1 ==> rest[j] == sent[j + 1];
      }
      if FirstWanted(o, rest, index, k - 1, i) {
        assert forall j :: 0 < j < k ==> sent[j] == rest[j - 1];
      }
    }
    if k :| 0 <= k < |sent| && Done(sent[k]) {
      assert rest[k - 1] == sent[k];
    }
    if k :| 0 <= k < |rest| && Done(rest[k]) {
      assert sent[k + 1] == rest[k];
    }
  }

  /** Attributes are walked for printing in the link messages, of both kinds, and in no others. */
  lemma PrintedTypes(o: ByteOrder, m: Message)
    ensures VisitOf(o, m).nlmsgType == m.nlmsgType
    ensures VisitOf(o, m).printed == if m.nlmsgType in {16, 18} then AttrsAfter(o, m.payload, 16) else []
  {
  }

  /** What is looked at, by the bytes received behind the header. */
  lemma LookByBytes(o: ByteOrder, a: Arrival, index: nat)
    ensures LookAt(o, a, index) == PastEnd
       <==> a.message.nlmsgType == 16
            && (|a.bytes| < 8 || (|a.bytes| < 16 && Load(o, a.bytes[4..8]) == index))
    ensures LookAt(o, a, index).Hit?
       <==> a.message.nlmsgType == 16 && |a.bytes| >= 16 && Load(o, a.bytes[4..8]) == index
    ensures LookAt(o, a, index).Hit? ==> LookAt(o, a, index).info == a.bytes[..16]
  {
  }
}
