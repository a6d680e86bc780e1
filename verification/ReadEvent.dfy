/**
 read_event: going through the messages of one notification datagram and the attributes of the
 address and link messages.
 */
module ReadEvent {
  import opened Numbers
  import opened Options
  import opened Words
  import opened Netlink
  import opened LinkInfo

  /** What the handler of a message sees: the fixed part that it prints, and the attributes. */
  datatype Event =
    | NewAddr(fixed: seq<Byte>, attrs: seq<Attr>)
    | NewLink(fixed: seq<Byte>, attrs: seq<Attr>)
    | Other(nlmsgType: nat)

  /** BehindReceived: something is read behind the received bytes. */
  datatype Ending = Returned(ret: int) | BehindReceived

  datatype Result = Result(ending: Ending, events: seq<Event>)

  /** How many bytes the handler reads from the payload on, whatever the length of the message. */
  function FixedLen(nlmsgType: nat): nat {
    if nlmsgType == RTM_NEWADDR then IFADDRMSG_LEN
    else if nlmsgType == RTM_NEWLINK then IFINFOMSG_LEN
    else 0
  }

  /** A DONE ends the call well and an error message fails it; a fixed part that was not received whole is
      read behind the received bytes. */
  function EndingAt(a: Arrival): Option<Ending> {
    if a.message.nlmsgType == NLMSG_DONE then Some(Returned(0))
    else if a.message.nlmsgType == NLMSG_ERROR then Some(Returned(-1))
    else if |a.bytes| < FixedLen(a.message.nlmsgType) then Some(BehindReceived)
    else None
  }

  function EventOf(o: ByteOrder, a: Arrival): Event
    requires EndingAt(a).None?
  {
    var n := FixedLen(a.message.nlmsgType);
    if a.message.nlmsgType == RTM_NEWADDR then NewAddr(a.bytes[..n], AttrsAfter(o, a.message.payload, n))
    else if a.message.nlmsgType == RTM_NEWLINK then NewLink(a.bytes[..n], AttrsAfter(o, a.message.payload, n))
    else Other(a.message.nlmsgType)
  }

  /** The messages up to the first that ends the call. */
  function EventsOf(o: ByteOrder, arrived: seq<Arrival>): Result {
    if arrived == [] then Result(Returned(0), [])
    else if EndingAt(arrived[0]).Some? then Result(EndingAt(arrived[0]).value, [])
    else Behind([EventOf(o, arrived[0])], EventsOf(o, arrived[1..]))
  }

  /** A result with earlier events in front. */
  function Behind(events: seq<Event>, r: Result): Result {
    r.(events := events + r.events)
  }

  /** By position: the events are those of the messages before the first that ends the call, and that one
      decides how. */
  lemma {:induction false} FirstThatEnds(o: ByteOrder, arrived: seq<Arrival>)
    ensures var r := EventsOf(o, arrived);
            var n := |r.events|;
            && n <= |arrived|
            && (forall i :: 0 <= i < n ==>
                  EndingAt(arrived[i]).None? && r.events[i] == EventOf(o, arrived[i]))
            && if n == |arrived| then r.ending == Returned(0) else EndingAt(arrived[n]) == Some(r.ending)
  {
    hide EndingAt, EventOf;
    if arrived != [] && EndingAt(arrived[0]).None? {
      FirstThatEnds(o, arrived[1..]);
    }
  }

  lemma EventsStep(o: ByteOrder, a: Arrival, rest: seq<Arrival>)
    ensures EventsOf(o, [a] + rest) ==
      if EndingAt(a).Some? then Result(EndingAt(a).value, []) else Behind([EventOf(o, a)], EventsOf(o, rest))
  {
    hide EndingAt, EventOf;
    assert ([a] + rest)[1..] == rest;
  }

  lemma BehindBehind(events: seq<Event>, e: Event, r: Result)
    ensures Behind(events, Behind([e], r)) == Behind(events + [e], r)
  {
  }

  lemma BehindNothing(r: Result)
    ensures Behind([], r) == r
  {
  }

  lemma EventsEnd(o: ByteOrder)
    ensures EventsOf(o, []) == Result(Returned(0), [])
  {
  }

  // ---------------------------------------------------------------------------------------------
  // The unsigned length test

  /** The cast of the signed remaining length in the loop's test. */
  function AsUnsigned(n: int): nat
    requires -0x1_0000_0000 <= n < 0x1_0000_0000
  {
    if n < 0 then n + 0x1_0000_0000 else n
  }

  /** Stepping over a message whose padding is missing leaves a negative length, which the cast turns
      into a huge one; in every other case the remaining length shrinks. */
  lemma CastShrinksExactlyWhenPadded(len: nat, n: nat)
    requires NLMSG_HDRLEN <= n <= len < 0x8000_0000
    ensures Align(n) <= len <==> AsUnsigned(len - Align(n)) < len
    ensures Align(n) > len ==> AsUnsigned(len - Align(n)) >= NLMSG_HDRLEN
  {
  }

  /** Every message that the loop steps over has its padding. */
  predicate Padded(o: ByteOrder, bs: seq<Byte>)
    decreases |bs|
  {
    NlmsgOk(o, bs) ==>
      var n := Get(o, bs, 0, 4);
      Get(o, bs, 4, 2) in {NLMSG_DONE, NLMSG_ERROR} || (Align(n) <= |bs| && Padded(o, Drop(bs, Align(n))))
  }

  /** A datagram of whole words, as netlink makes them, has all its padding. */
  lemma {:induction false} WholeWordsArePadded(o: ByteOrder, bs: seq<Byte>)
    requires |bs| % 4 == 0
    ensures Padded(o, bs)
    decreases |bs|
  {
    hide Get, Align;
    if NlmsgOk(o, bs) {
      var n := Get(o, bs, 0, 4);
      assert Align(n) <= |bs|;
      WholeWordsArePadded(o, Drop(bs, Align(n)));
    }
  }

  /** The signed remaining length at the n-th test of the loop, when the loop gets that far inside the
      received bytes. */
  function StatusAt(o: ByteOrder, bs: seq<Byte>, n: nat): Option<int> {
    if n == 0 then Some(|bs|)
    else if !NlmsgOk(o, bs) || Get(o, bs, 4, 2) in {NLMSG_DONE, NLMSG_ERROR} then None
    else
      var next := Align(Get(o, bs, 0, 4));
      if next <= |bs| then StatusAt(o, bs[next..], n - 1) else if n == 1 then Some(|bs| - next) else None
  }

  /** The remaining length goes below zero, so that the next header is read behind the received bytes. */
  ghost predicate RunsOver(o: ByteOrder, bs: seq<Byte>) {
    exists n: nat :: StatusAt(o, bs, n).Some? && StatusAt(o, bs, n).value < 0
  }

  /** The remaining length stays at zero or above exactly when the padding is there. */
  lemma {:induction false} RunsOverExactly(o: ByteOrder, bs: seq<Byte>)
    ensures RunsOver(o, bs) <==> !Padded(o, bs)
    decreases |bs|
  {
    hide Get, Align;
    assert StatusAt(o, bs, 0) == Some(|bs|);
    if NlmsgOk(o, bs) && Get(o, bs, 4, 2) !in {NLMSG_DONE, NLMSG_ERROR} {
      var next := Align(Get(o, bs, 0, 4));
      StepsForward(o, bs);
      if next > |bs| {
        assert StatusAt(o, bs, 1) == Some(|bs| - next);
      } else {
        RunsOverExactly(o, bs[next..]);
        RunsOverStep(o, bs);
      }
    }
  }

  lemma StepsForward(o: ByteOrder, bs: seq<Byte>)
    requires NlmsgOk(o, bs)
    ensures Align(Get(o, bs, 0, 4)) >= NLMSG_HDRLEN && |bs| >= NLMSG_HDRLEN
  {
  }

  lemma RunsOverStep(o: ByteOrder, bs: seq<Byte>)
    requires NlmsgOk(o, bs) && Get(o, bs, 4, 2) !in {NLMSG_DONE, NLMSG_ERROR}
    requires Align(Get(o, bs, 0, 4)) <= |bs|
    ensures RunsOver(o, bs) <==> RunsOver(o, bs[Align(Get(o, bs, 0, 4))..])
  {
    hide Get, Align;
    var rest := bs[Align(Get(o, bs, 0, 4))..];
    if n: nat :| StatusAt(o, bs, n).Some? && StatusAt(o, bs, n).value < 0 {
      assert n > 0 && StatusAt(o, bs, n) == StatusAt(o, rest, n - 1);
    }
    if n: nat :| StatusAt(o, rest, n).Some? && StatusAt(o, rest, n).value < 0 {
      assert StatusAt(o, bs, n + 1) == StatusAt(o, rest, n);
    }
  }

  /** A datagram with one message of 17 bytes: the step over it leaves a length below zero, and the cast
      length passes the test again although nothing is left. */
  lemma MissingPaddingCounterexample(o: ByteOrder)
    ensures var bs := MessageBytes(o, Message(0, 0, 0, 0, [0]));
            && NlmsgOk(o, bs) && RunsOver(o, bs)
            && AsUnsigned(|bs| - Align(Get(o, bs, 0, 4))) >= NLMSG_HDRLEN
  {
    hide MessageBytes, RunsOver, NlmsgOk, Get;
    var m := Message(0, 0, 0, 0, [0]);
    HeaderFields(o, m);
    RunsOverExactly(o, MessageBytes(o, m));
  }

  // ---------------------------------------------------------------------------------------------
  // The loop

  /** RTM_NEWADDR_Check and RTM_NEWLINK_Check on one message, with len bytes received from its header on:
      the fixed part, when it was received whole, and the attribute loop. */
  method CheckMessage(o: ByteOrder, buf: seq<Byte>, msg: nat, nlmsgLen: nat, len: nat, fixed: nat)
    returns (inside: bool, head: seq<Byte>, seen: seq<Attr>)
    requires NLMSG_HDRLEN <= nlmsgLen <= len && msg + len <= |buf|
    ensures inside <==> fixed <= len - NLMSG_HDRLEN
    ensures inside ==> head == buf[msg + NLMSG_HDRLEN..msg + len][..fixed]
    ensures inside ==> seen == AttrsAfter(o, buf[msg + NLMSG_HDRLEN..msg + nlmsgLen], fixed)
  {
    hide AttrsAfter, DecodeAttrs, Covered;
    if len < NLMSG_HDRLEN + fixed {
      return false, [], [];
    }
    inside := true;
    head := buf[msg + NLMSG_HDRLEN..msg + NLMSG_HDRLEN + fixed];
    SliceOfSlice(buf, msg + NLMSG_HDRLEN, len - NLMSG_HDRLEN, 0, fixed);
    AttrsOfMessage(o, buf, msg, nlmsgLen, fixed);
    seen := WalkAttrs(o, buf, msg + NLMSG_HDRLEN + fixed, nlmsgLen - NLMSG_HDRLEN - fixed);
  }

  /** The dispatch on one message. */
  method Dispatch(o: ByteOrder, buf: seq<Byte>, msg: nat, nlmsgLen: nat, len: nat, ghost a: Arrival)
    returns (ending: Option<Ending>, event: Event)
    requires NLMSG_HDRLEN <= nlmsgLen <= len && msg + len <= |buf|
    requires a.message.nlmsgType == Get(o, buf, msg + 4, 2)
    requires a.message.payload == buf[msg + NLMSG_HDRLEN..msg + nlmsgLen]
    requires a.bytes == buf[msg + NLMSG_HDRLEN..msg + len]
    ensures ending == EndingAt(a)
    ensures ending.None? ==> event == EventOf(o, a)
  {
    hide Get, AttrsAfter;
    var nlmsgType := Get(o, buf, msg + 4, 2);
    ending, event := None, Other(nlmsgType);
    if nlmsgType == NLMSG_DONE {
      ending := Some(Returned(0));
    } else if nlmsgType == NLMSG_ERROR {
      ending := Some(Returned(-1));
    } else if nlmsgType == RTM_NEWADDR || nlmsgType == RTM_NEWLINK {
      var inside, head, attrs := CheckMessage(o, buf, msg, nlmsgLen, len, FixedLen(nlmsgType));
      if !inside {
        ending := Some(BehindReceived);
      } else if nlmsgType == RTM_NEWADDR {
        event := NewAddr(head, attrs);
      } else {
        event := NewLink(head, attrs);
      }
    }
  }

  /** On any datagram. The loop sees the messages in order up to the first that ends the call. It reads
      behind the received bytes exactly when that one's fixed part was not received whole, or when a
      message that it steps over lacks its padding. */
  method ReadDatagram(o: ByteOrder, buf: seq<Byte>) returns (r: Result)
    requires |buf| <= 4096
    ensures r.events == EventsOf(o, Arrivals(o, buf)).events
    ensures r.ending == if RunsOver(o, buf) then BehindReceived else EventsOf(o, Arrivals(o, buf)).ending
  {
    hide Get, Align, Arrivals, Padded, EventsOf, Behind, RunsOver, EndingAt, EventOf;
    RunsOverExactly(o, buf);
    var events: seq<Event> := [];
    var msg: nat, status: int := 0, |buf|;
    assert buf[0..] == buf;
    ghost var left := Arrivals(o, buf);
    ghost var all := EventsOf(o, left);
    EventsEnd(o);
    BehindNothing(all);
    while AsUnsigned(status) >= NLMSG_HDRLEN && Get(o, buf, msg, 4) >= NLMSG_HDRLEN
          && Get(o, buf, msg, 4) <= AsUnsigned(status)
      invariant 0 <= status && msg + status == |buf|
      invariant Padded(o, buf) <==> Padded(o, buf[msg..])
      invariant left == Arrivals(o, buf[msg..])
      invariant all == Behind(events, EventsOf(o, left))
      decreases status
    {
      var n := Get(o, buf, msg, 4);
      ghost var a, rest := StepMessage(o, buf, msg);
      EventsStep(o, a, rest);
      var ending, event := Dispatch(o, buf, msg, n, status, a);
      if ending.Some? {
        BehindEnd(events, ending.value);
        EndsPadded(o, buf, msg, a);
        return Result(ending.value, events);
      }
      GoesOn(a);
      BehindBehind(events, event, EventsOf(o, rest));
      events := events + [event];
      msg, status, left := msg + Align(n), status - Align(n), rest;
      if status < 0 {
        BehindEnd(events, Returned(0));
        return Result(BehindReceived, events);
      }
    }
    LastMessage(o, buf, msg);
    BehindEnd(events, Returned(0));
    r := Result(Returned(0), events);
  }

  lemma GoesOn(a: Arrival)
    requires EndingAt(a).None?
    ensures a.message.nlmsgType !in {NLMSG_DONE, NLMSG_ERROR}
  {
  }

  lemma BehindEnd(events: seq<Event>, ending: Ending)
    ensures Behind(events, Result(ending, [])) == Result(ending, events)
  {
  }

  /** Where a call returns, no message behind matters for the padding. */
  lemma EndsPadded(o: ByteOrder, buf: seq<Byte>, msg: nat, a: Arrival)
    requires msg + NLMSG_HDRLEN <= |buf| && a.message.nlmsgType == Get(o, buf, msg + 4, 2)
    requires EndingAt(a).Some?
    ensures EndingAt(a).value.Returned? ==> Padded(o, buf[msg..])
  {
    hide Align;
    var bs := buf[msg..];
    assert bs[4..6] == buf[msg + 4..msg + 6];
  }

  /** The whole call: a receive that would block is no error, any other failure is. */
  method ReadEventCall(o: ByteOrder, receive: Receive, wouldBlock: bool) returns (r: Result)
    ensures receive.Failed? ==> r == Result(Returned(if wouldBlock then 0 else -1), [])
    ensures receive.Received? ==> r.events == EventsOf(o, Arrivals(o, Bytes(receive))).events
    ensures receive.Received? ==>
              r.ending == if RunsOver(o, Bytes(receive)) then BehindReceived
                          else EventsOf(o, Arrivals(o, Bytes(receive))).ending
  {
    if receive.Failed? {
      return Result(Returned(if wouldBlock then 0 else -1), []);
    }
    r := ReadDatagram(o, Bytes(receive));
  }

  /** The fixed part is read behind the received bytes exactly when an address or link message with too few
      bytes behind its header comes before any other message that ends the call. */
  lemma ShortFixedPartExactly(o: ByteOrder, arrived: seq<Arrival>)
    ensures EventsOf(o, arrived).ending == BehindReceived
       <==> exists n :: 0 <= n < |arrived| && EndingAt(arrived[n]) == Some(BehindReceived)
                        && forall i :: 0 <= i < n ==> EndingAt(arrived[i]).None?
  {
    hide EndingAt, EventOf, EventsOf;
    FirstThatEnds(o, arrived);
    var first := |EventsOf(o, arrived).events|;
    if n :| 0 <= n < |arrived| && EndingAt(arrived[n]) == Some(BehindReceived)
            && forall i :: 0 <= i < n ==> EndingAt(arrived[i]).None? {
      assert first == n;
    }
  }

  /** An address message that is only a header, at the end of its datagram: all its padding is there, and
      the handler reads the ifaddrmsg behind it. */
  lemma ShortAddressCounterexample(o: ByteOrder)
    ensures var bs := MessageBytes(o, Message(RTM_NEWADDR, 0, 0, 0, []));
            && |bs| == 16 && Padded(o, bs) && !RunsOver(o, bs)
            && EventsOf(o, Arrivals(o, bs)) == Result(BehindReceived, [])
  {
    hide MessageBytes, Arrivals, Padded, RunsOver, EventsOf;
    var m := Message(RTM_NEWADDR, 0, 0, 0, []);
    OneArrival(o, m);
    assert [Arrival(m, [])] + [] == [Arrival(m, [])];
    EventsStep(o, Arrival(m, []), []);
    WholeWordsArePadded(o, MessageBytes(o, m));
    RunsOverExactly(o, MessageBytes(o, m));
  }

  // ---------------------------------------------------------------------------------------------
  // The result, over the messages that were sent

  // Message types are written as the numbers of the kernel's headers: 2 is NLMSG_ERROR, 3 NLMSG_DONE,
  // 16 RTM_NEWLINK and 20 RTM_NEWADDR.

  /** An address or link message holds its fixed part. */
  predicate HoldsFixedPart(m: Message) {
    (m.nlmsgType == 20 ==> |m.payload| >= 8) && (m.nlmsgType == 16 ==> |m.payload| >= 16)
  }

  lemma {:induction false} EncodedWholeWords(o: ByteOrder, ms: seq<Message>)
    ensures |EncodeMessages(o, ms)| % 4 == 0
  {
    hide MessageBytes, Align;
    if ms != [] {
      EncodedWholeWords(o, ms[1..]);
    }
  }

  /** What the handler of such a message sees. */
  function SentEvent(o: ByteOrder, m: Message): Event
    requires HoldsFixedPart(m)
  {
    if m.nlmsgType == 20 then NewAddr(m.payload[..8], AttrsAfter(o, m.payload, 8))
    else if m.nlmsgType == 16 then NewLink(m.payload[..16], AttrsAfter(o, m.payload, 16))
    else Other(m.nlmsgType)
  }

  /** The events are those of the n messages before the first DONE or error message, and the call fails
      exactly when that one is an error message. */
  ghost predicate IsSentResult(o: ByteOrder, ms: seq<Message>, n: nat, r: Result)
    requires n <= |ms| && forall i :: 0 <= i < |ms| ==> HoldsFixedPart(ms[i])
  {
    && r.ending == Returned(if n < |ms| && ms[n].nlmsgType == 2 then -1 else 0)
    && |r.events| == n && forall i :: 0 <= i < n ==> r.events[i] == SentEvent(o, ms[i])
  }

  /** The first DONE or error message is at position n. */
  predicate EndsAt(ms: seq<Message>, n: nat) {
    && n <= |ms| && (forall i :: 0 <= i < n ==> ms[i].nlmsgType != 2 && ms[i].nlmsgType != 3)
    && (n < |ms| ==> ms[n].nlmsgType == 2 || ms[n].nlmsgType == 3)
  }

  /** The call on any messages that the kernel sends. */
  method ReadSent(o: ByteOrder, ms: seq<Message>, ghost n: nat) returns (r: Result)
    requires |EncodeMessages(o, ms)| <= 4096 && EndsAt(ms, n)
    requires forall i :: 0 <= i < |ms| ==> EncodableMessage(ms[i]) && HoldsFixedPart(ms[i])
    ensures IsSentResult(o, ms, n, r)
  {
    hide IsSentResult, EndsAt, HoldsFixedPart, EncodeMessages;
    SentIsPadded(o, ms);
    SentEvents(o, ms, n);
    r := ReadDatagram(o, EncodeMessages(o, ms));
    assert r == EventsOf(o, Arrivals(o, EncodeMessages(o, ms)));
  }

  lemma SentIsPadded(o: ByteOrder, ms: seq<Message>)
    ensures !RunsOver(o, EncodeMessages(o, ms))
  {
    EncodedWholeWords(o, ms);
    WholeWordsArePadded(o, EncodeMessages(o, ms));
    RunsOverExactly(o, EncodeMessages(o, ms));
  }

  lemma ArrivalOfSent(o: ByteOrder, a: Arrival)
    requires HoldsFixedPart(a.message) && a.message.payload <= a.bytes
    ensures EndingAt(a) == (if a.message.nlmsgType == 3 then Some(Returned(0))
                            else if a.message.nlmsgType == 2 then Some(Returned(-1))
                            else None)
    ensures EndingAt(a).None? ==> EventOf(o, a) == SentEvent(o, a.message)
  {
    hide AttrsAfter;
  }

  /** Which messages end a call, by the bytes received behind the header. */
  lemma EndingByBytes(a: Arrival)
    ensures var t := a.message.nlmsgType;
            && (EndingAt(a) == Some(BehindReceived) <==> (t == 20 && |a.bytes| < 8) || (t == 16 && |a.bytes| < 16))
            && (EndingAt(a) == Some(Returned(0)) <==> t == 3)
            && (EndingAt(a) == Some(Returned(-1)) <==> t == 2)
            && (EndingAt(a).Some? ==> EndingAt(a).value in {BehindReceived, Returned(0), Returned(-1)})
  {
  }

  lemma SentEvents(o: ByteOrder, ms: seq<Message>, n: nat)
    requires EndsAt(ms, n)
    requires forall i :: 0 <= i < |ms| ==> EncodableMessage(ms[i]) && HoldsFixedPart(ms[i])
    ensures IsSentResult(o, ms, n, EventsOf(o, Arrivals(o, EncodeMessages(o, ms))))
  {
    hide EncodeMessages, DecodeMessages, Arrivals, EventsOf, SentEvent, HoldsFixedPart, EncodableMessage;
    var arrived := Arrivals(o, EncodeMessages(o, ms));
    MessagesRoundTrip(o, ms);
    ArrivalsAreDecoded(o, EncodeMessages(o, ms));
    forall i | 0 <= i < |ms|
      ensures arrived[i].message == ms[i]
      ensures EndingAt(arrived[i]) == (if ms[i].nlmsgType == 3 then Some(Returned(0))
                                       else if ms[i].nlmsgType == 2 then Some(Returned(-1))
                                       else None)
      ensures EndingAt(arrived[i]).None? ==> EventOf(o, arrived[i]) == SentEvent(o, ms[i])
    {
      ArrivalOfSent(o, arrived[i]);
    }
    hide EndingAt, EventOf;
    FirstThatEnds(o, arrived);
    assert |EventsOf(o, arrived).events| == n;
  }

  /** The bytes of a bare DONE and of a bare error message on a little-endian host. */
  lemma BareMessages()
    ensures MessageBytes(LittleEndian, Message(3, 0, 0, 0, [])) == [16, 0, 0, 0, 3, 0, 0, 0, 0, 0, 0, 0, 0, 0, 0, 0]
    ensures MessageBytes(LittleEndian, Message(2, 0, 0, 0, [])) == [16, 0, 0, 0, 2, 0, 0, 0, 0, 0, 0, 0, 0, 0, 0, 0]
  {
    hide Store;
    StoreSmall(0);
    StoreSmall(2);
    StoreSmall(3);
    StoreSmall(16);
  }

  /** A DONE ends the call with 0, an error message with -1. */
  method ReadBareMessages() returns (done: Result, error: Result)
    ensures done == Result(Returned(0), []) && error == Result(Returned(-1), [])
  {
    hide EncodeMessages, MessageBytes, EventsOf, Arrivals, RunsOver;
    BareMessages();
    var m3, m2 := Message(3, 0, 0, 0, []), Message(2, 0, 0, 0, []);
    OneEncoded(LittleEndian, m3);
    OneEncoded(LittleEndian, m2);
    SentIsPadded(LittleEndian, [m3]);
    SentIsPadded(LittleEndian, [m2]);
    SentEvents(LittleEndian, [m3], 0);
    SentEvents(LittleEndian, [m2], 0);
    done := ReadDatagram(LittleEndian, [16, 0, 0, 0, 3, 0, 0, 0, 0, 0, 0, 0, 0, 0, 0, 0]);
    error := ReadDatagram(LittleEndian, [16, 0, 0, 0, 2, 0, 0, 0, 0, 0, 0, 0, 0, 0, 0, 0]);
  }

  lemma OneEncoded(o: ByteOrder, m: Message)
    requires m.payload == []
    ensures |EncodeMessages(o, [m])| == 16 && EncodeMessages(o, [m]) == MessageBytes(o, m)
  {
    hide MessageBytes;
    assert [m][1..] == [] && EncodeMessages(o, []) == [];
  }

  lemma StepMessage(o: ByteOrder, buf: seq<Byte>, msg: nat) returns (a: Arrival, rest: seq<Arrival>)
    requires msg + NLMSG_HDRLEN <= |buf| && NLMSG_HDRLEN <= Get(o, buf, msg, 4) <= |buf| - msg
    ensures var n := Get(o, buf, msg, 4);
            && Arrivals(o, buf[msg..]) == [a] + rest
            && a.message.nlmsgType == Get(o, buf, msg + 4, 2)
            && a.message.payload == buf[msg + NLMSG_HDRLEN..msg + n]
            && a.bytes == buf[msg + NLMSG_HDRLEN..]
            && rest == (if msg + Align(n) <= |buf| then Arrivals(o, buf[msg + Align(n)..]) else [])
            && (Padded(o, buf[msg..])
                <==> (a.message.nlmsgType in {NLMSG_DONE, NLMSG_ERROR}
                      || (msg + Align(n) <= |buf| && Padded(o, buf[msg + Align(n)..]))))
  {
    hide Get, Align, Arrivals, Covered;
    var n, len := Get(o, buf, msg, 4), |buf| - msg;
    var bs := buf[msg..];
    CoveredTail(buf, msg);
    a, rest := ArrivalHere(o, buf, msg, len);
    GetCovered(o, buf, msg, len, 0, 4);
    GetCovered(o, buf, msg, len, 4, 2);
    assert NlmsgOk(o, bs) && buf[..|buf|] == buf;
    if msg + Align(n) <= |buf| {
      CoveredTail(buf, msg + Align(n));
      assert Drop(bs, Align(n)) == buf[msg + Align(n)..];
    } else {
      ArrivalsEnd(o, buf, msg + Align(n), len - Align(n));
    }
  }

  lemma CoveredTail(buf: seq<Byte>, at: nat)
    requires at <= |buf|
    ensures Covered(buf, at, |buf| - at) == buf[at..]
  {
  }

  lemma LastMessage(o: ByteOrder, buf: seq<Byte>, msg: nat)
    requires msg <= |buf|
    requires !(|buf| - msg >= NLMSG_HDRLEN && NLMSG_HDRLEN <= Get(o, buf, msg, 4) <= |buf| - msg)
    ensures Arrivals(o, buf[msg..]) == [] && Padded(o, buf[msg..])
  {
    CoveredTail(buf, msg);
    if |buf| - msg >= NLMSG_HDRLEN {
      GetCovered(o, buf, msg, |buf| - msg, 0, 4);
    }
    ArrivalsEnd(o, buf, msg, |buf| - msg);
  }
}
