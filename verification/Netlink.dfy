/**
 Netlink messages (section 2.3.2 of RFC 3549) and their attributes: a decoder that follows the nesting
 of lengths, the walking loops of the sources, and the encoder of attributes.
 */
module Netlink {
  import opened Numbers
  import opened Words

  const NLMSG_HDRLEN := 16
  const RTATTR_LEN := 4
  const IFADDRMSG_LEN := 8
  const RTMSG_LEN := 12
  const IFINFOMSG_LEN := 16

  const NLMSG_ERROR := 2
  const NLMSG_DONE := 3
  const RTM_NEWLINK := 16
  const RTM_GETLINK := 18
  const RTM_NEWADDR := 20
  const RTM_NEWROUTE := 24

  /** NLMSG_ALIGN and RTA_ALIGN. */
  function Align(n: nat): (r: nat)
    ensures n <= r < n + 4 && r % 4 == 0
  {
    (n + 3) / 4 * 4
  }

  datatype Attr = Attr(rtaType: nat, payload: seq<Byte>)

  datatype Message = Message(nlmsgType: nat, flags: nat, seqno: nat, pid: nat, payload: seq<Byte>)

  /** The integer of w bytes at an offset. */
  function Get(o: ByteOrder, bs: seq<Byte>, off: nat, w: nat): nat
    requires off + w <= |bs|
  {
    Load(o, bs[off..off + w])
  }

  function Drop(bs: seq<Byte>, n: nat): (r: seq<Byte>)
    ensures |r| <= |bs|
    ensures n > 0 && bs != [] ==> |r| < |bs|
  {
    if n <= |bs| then bs[n..] else []
  }

  // ---------------------------------------------------------------------------------------------
  // Decoding

  /** RTA_OK. */
  predicate RtaOk(o: ByteOrder, bs: seq<Byte>) {
    |bs| >= RTATTR_LEN && RTATTR_LEN <= Get(o, bs, 0, 2) <= |bs|
  }

  function FirstAttr(o: ByteOrder, bs: seq<Byte>): Attr
    requires RtaOk(o, bs)
  {
    Attr(Get(o, bs, 2, 2), bs[RTATTR_LEN..Get(o, bs, 0, 2)])
  }

  /** The attributes up to the first that does not fit. */
  function DecodeAttrs(o: ByteOrder, bs: seq<Byte>): seq<Attr>
    decreases |bs|
  {
    if !RtaOk(o, bs) then []
    else [FirstAttr(o, bs)] + DecodeAttrs(o, Drop(bs, Align(Get(o, bs, 0, 2))))
  }

  /** NLMSG_OK. */
  predicate NlmsgOk(o: ByteOrder, bs: seq<Byte>) {
    |bs| >= NLMSG_HDRLEN && NLMSG_HDRLEN <= Get(o, bs, 0, 4) <= |bs|
  }

  function FirstMessage(o: ByteOrder, bs: seq<Byte>): Message
    requires NlmsgOk(o, bs)
  {
    Message(Get(o, bs, 4, 2), Get(o, bs, 6, 2), Get(o, bs, 8, 4), Get(o, bs, 12, 4),
            bs[NLMSG_HDRLEN..Get(o, bs, 0, 4)])
  }

  function DecodeMessages(o: ByteOrder, bs: seq<Byte>): seq<Message>
    decreases |bs|
  {
    if !NlmsgOk(o, bs) then []
    else [FirstMessage(o, bs)] + DecodeMessages(o, Drop(bs, Align(Get(o, bs, 0, 4))))
  }

  /** A message and everything that was received from its payload on. */
  datatype Arrival = Arrival(message: Message, bytes: seq<Byte>)

  function Arrivals(o: ByteOrder, bs: seq<Byte>): seq<Arrival>
    decreases |bs|
  {
    if !NlmsgOk(o, bs) then []
    else
      [Arrival(FirstMessage(o, bs), bs[NLMSG_HDRLEN..])] + Arrivals(o, Drop(bs, Align(Get(o, bs, 0, 4))))
  }

  /** The arrivals are the decoded messages, and what was received holds at least the payload. */
  lemma {:induction false} ArrivalsAreDecoded(o: ByteOrder, bs: seq<Byte>)
    ensures var arrived, ms := Arrivals(o, bs), DecodeMessages(o, bs);
            && |arrived| == |ms|
            && forall i :: 0 <= i < |ms| ==> arrived[i].message == ms[i] && ms[i].payload <= arrived[i].bytes
    decreases |bs|
  {
    hide Get, Align, Drop;
    if NlmsgOk(o, bs) {
      FirstPayload(o, bs);
      ArrivalsAreDecoded(o, Drop(bs, Align(Get(o, bs, 0, 4))));
    }
  }

  lemma FirstPayload(o: ByteOrder, bs: seq<Byte>)
    requires NlmsgOk(o, bs)
    ensures FirstMessage(o, bs).payload <= bs[NLMSG_HDRLEN..]
    ensures var n := Align(Get(o, bs, 0, 4)); n > 0 && bs != []
  {
  }

  /** The attributes behind a fixed header of n bytes. */
  function AttrsAfter(o: ByteOrder, payload: seq<Byte>, n: nat): seq<Attr> {
    DecodeAttrs(o, Drop(payload, n))
  }

  // ---------------------------------------------------------------------------------------------
  // Walking

  /** The bytes that a cursor and a signed remaining length still cover. */
  function Covered(buf: seq<Byte>, at: nat, len: int): seq<Byte>
    requires len > 0 ==> at + len <= |buf|
  {
    if len > 0 then buf[at..at + len] else []
  }

  /** The attribute loop: RTA_OK and RTA_NEXT on a cursor and a signed length. It ends for any bytes and
      any length, and every read it makes is inside the length it was given. */
  method WalkAttrs(o: ByteOrder, buf: seq<Byte>, start: nat, length: int) returns (seen: seq<Attr>)
    requires length > 0 ==> start + length <= |buf|
    ensures seen == DecodeAttrs(o, Covered(buf, start, length))
  {
    hide Get, Align, DecodeAttrs, Covered;
    seen := [];
    var rta: nat, len: int := start, length;
    ghost var all := DecodeAttrs(o, Covered(buf, start, length));
    while len >= RTATTR_LEN && Get(o, buf, rta, 2) >= RTATTR_LEN && Get(o, buf, rta, 2) <= len
      invariant len > 0 ==> rta + len == start + length <= |buf|
      invariant all == seen + DecodeAttrs(o, Covered(buf, rta, len))
      decreases len
    {
      var n := Get(o, buf, rta, 2);
      AttrHere(o, buf, rta, len);
      seen := seen + [Attr(Get(o, buf, rta + 2, 2), buf[rta + RTATTR_LEN..rta + n])];
      rta, len := rta + Align(n), len - Align(n);
    }
    AttrsEnd(o, buf, rta, len);
  }

  lemma GetCovered(o: ByteOrder, buf: seq<Byte>, at: nat, len: int, off: nat, w: nat)
    requires 0 < len && at + len <= |buf| && off + w <= len
    ensures Get(o, Covered(buf, at, len), off, w) == Get(o, buf, at + off, w)
  {
    assert Covered(buf, at, len)[off..off + w] == buf[at + off..at + off + w];
  }

  lemma DropCovered(buf: seq<Byte>, at: nat, len: int, n: nat)
    requires 0 < len && at + len <= |buf|
    ensures Drop(Covered(buf, at, len), n) == Covered(buf, at + n, len - n)
  {
  }

  lemma SliceOfSlice(buf: seq<Byte>, at: nat, len: nat, i: nat, j: nat)
    requires i <= j <= len && at + len <= |buf|
    ensures buf[at..at + len][i..j] == buf[at + i..at + j]
  {
    var x, y := buf[at..at + len][i..j], buf[at + i..at + j];
    forall k | 0 <= k < j - i
      ensures x[k] == y[k]
    {
    }
    assert x == y;
  }

  lemma AttrHere(o: ByteOrder, buf: seq<Byte>, rta: nat, len: int)
    requires RTATTR_LEN <= len && rta + len <= |buf|
    requires RTATTR_LEN <= Get(o, buf, rta, 2) <= len
    ensures var n := Get(o, buf, rta, 2);
            (DecodeAttrs(o, Covered(buf, rta, len))
          == [Attr(Get(o, buf, rta + 2, 2), buf[rta + RTATTR_LEN..rta + n])]
             + DecodeAttrs(o, Covered(buf, rta + Align(n), len - Align(n))))
  {
    hide Get, Align;
    var n := Get(o, buf, rta, 2);
    var bs := Covered(buf, rta, len);
    GetCovered(o, buf, rta, len, 0, 2);
    GetCovered(o, buf, rta, len, 2, 2);
    DropCovered(buf, rta, len, Align(n));
    assert bs == buf[rta..rta + len];
    SliceOfSlice(buf, rta, len, RTATTR_LEN, n);
  }

  lemma AttrsEnd(o: ByteOrder, buf: seq<Byte>, rta: nat, len: int)
    requires len > 0 ==> rta + len <= |buf|
    requires !(len >= RTATTR_LEN && RTATTR_LEN <= Get(o, buf, rta, 2) <= len)
    ensures DecodeAttrs(o, Covered(buf, rta, len)) == []
  {
    if len >= RTATTR_LEN {
      GetCovered(o, buf, rta, len, 0, 2);
    }
  }

  /** The message at a cursor, and the ones behind it. */
  lemma ArrivalHere(o: ByteOrder, buf: seq<Byte>, at: nat, len: int) returns (a: Arrival, rest: seq<Arrival>)
    requires NLMSG_HDRLEN <= len && at + len <= |buf|
    requires NLMSG_HDRLEN <= Get(o, buf, at, 4) <= len
    ensures Arrivals(o, Covered(buf, at, len)) == [a] + rest
    ensures var n := Get(o, buf, at, 4);
            && rest == Arrivals(o, Covered(buf, at + Align(n), len - Align(n)))
            && a.message.nlmsgType == Get(o, buf, at + 4, 2)
            && a.message.payload == buf[at + NLMSG_HDRLEN..at + n]
            && a.bytes == buf[at + NLMSG_HDRLEN..at + len]
  {
    hide Get, Align, Covered;
    var n := Get(o, buf, at, 4);
    var bs := Covered(buf, at, len);
    assert bs == buf[at..at + len] by {
      CoveredSlice(buf, at, len);
    }
    GetCovered(o, buf, at, len, 0, 4);
    GetCovered(o, buf, at, len, 4, 2);
    DropCovered(buf, at, len, Align(n));
    SliceOfSlice(buf, at, len, NLMSG_HDRLEN, n);
    SliceOfSlice(buf, at, len, NLMSG_HDRLEN, len);
    a := Arrival(FirstMessage(o, bs), bs[NLMSG_HDRLEN..]);
    rest := Arrivals(o, Covered(buf, at + Align(n), len - Align(n)));
  }

  lemma CoveredSlice(buf: seq<Byte>, at: nat, len: nat)
    requires 0 < len && at + len <= |buf|
    ensures Covered(buf, at, len) == buf[at..at + len]
  {
  }

  lemma ArrivalsEnd(o: ByteOrder, buf: seq<Byte>, at: nat, len: int)
    requires len > 0 ==> at + len <= |buf|
    requires !(len >= NLMSG_HDRLEN && NLMSG_HDRLEN <= Get(o, buf, at, 4) <= len)
    ensures Arrivals(o, Covered(buf, at, len)) == []
  {
    if len >= NLMSG_HDRLEN {
      GetCovered(o, buf, at, len, 0, 4);
    }
  }

  /** The attributes of the message at a cursor, behind a fixed header of n bytes, are those of its
      payload; a message too short for the header has none. */
  lemma AttrsOfMessage(o: ByteOrder, buf: seq<Byte>, at: nat, len: nat, n: nat)
    requires NLMSG_HDRLEN <= len && at + len <= |buf|
    ensures DecodeAttrs(o, Covered(buf, at + NLMSG_HDRLEN + n, len - NLMSG_HDRLEN - n))
         == AttrsAfter(o, buf[at + NLMSG_HDRLEN..at + len], n)
  {
  }

  // ---------------------------------------------------------------------------------------------
  // Encoding attributes

  predicate Encodable(a: Attr) {
    a.rtaType < 0x1_0000 && RTATTR_LEN + |a.payload| < 0x1_0000
  }

  function AttrBytes(o: ByteOrder, rtaLen: nat, rtaType: nat, payload: seq<Byte>): (bs: seq<Byte>)
    ensures |bs| == RTATTR_LEN + |payload|
  {
    Store(o, 2, rtaLen) + Store(o, 2, rtaType) + payload
  }

  /** An attribute with its padding. */
  function EncodeAttr(o: ByteOrder, a: Attr): (bs: seq<Byte>)
    ensures |bs| == Align(RTATTR_LEN + |a.payload|)
  {
    var n := RTATTR_LEN + |a.payload|;
    AttrBytes(o, n, a.rtaType, a.payload) + Zeros(Align(n) - n)
  }

  function EncodeAttrs(o: ByteOrder, attrs: seq<Attr>): seq<Byte> {
    if attrs == [] then [] else EncodeAttr(o, attrs[0]) + EncodeAttrs(o, attrs[1..])
  }

  /** One attribute at the front, padded or at the very end, is read back. */
  lemma DecodeFirst(o: ByteOrder, a: Attr, pad: seq<Byte>, rest: seq<Byte>)
    requires Encodable(a)
    requires |pad| == Align(RTATTR_LEN + |a.payload|) - (RTATTR_LEN + |a.payload|) || (pad == [] && rest == [])
    ensures DecodeAttrs(o, AttrBytes(o, RTATTR_LEN + |a.payload|, a.rtaType, a.payload) + pad + rest)
         == [a] + DecodeAttrs(o, rest)
  {
    hide Load, Store, Align, DecodeAttrs;
    var n := RTATTR_LEN + |a.payload|;
    var bs := AttrBytes(o, n, a.rtaType, a.payload) + pad + rest;
    Pow2Small();
    LoadStore(o, 2, n);
    LoadStore(o, 2, a.rtaType);
    assert bs[0..2] == Store(o, 2, n) && bs[2..4] == Store(o, 2, a.rtaType);
    assert bs[RTATTR_LEN..n] == a.payload;
    assert Drop(bs, Align(n)) == rest;
    AttrStep(o, bs);
  }

  lemma AttrStep(o: ByteOrder, bs: seq<Byte>)
    requires RtaOk(o, bs)
    ensures DecodeAttrs(o, bs) == [FirstAttr(o, bs)] + DecodeAttrs(o, Drop(bs, Align(Get(o, bs, 0, 2))))
  {
  }

  lemma NoAttrs(o: ByteOrder)
    ensures DecodeAttrs(o, []) == []
  {
  }

  /** Walking what was encoded gives it back, for any attributes. */
  lemma {:induction false} EncodeRoundTrip(o: ByteOrder, attrs: seq<Attr>)
    requires forall i :: 0 <= i < |attrs| ==> Encodable(attrs[i])
    ensures DecodeAttrs(o, EncodeAttrs(o, attrs)) == attrs
  {
    hide Load, Store, AttrBytes, Align, DecodeAttrs;
    if attrs == [] {
      NoAttrs(o);
    } else {
      var a := attrs[0];
      var n := RTATTR_LEN + |a.payload|;
      EncodeRoundTrip(o, attrs[1..]);
      DecodeFirst(o, a, Zeros(Align(n) - n), EncodeAttrs(o, attrs[1..]));
    }
  }

  // ---------------------------------------------------------------------------------------------
  // Encoding messages

  predicate EncodableMessage(m: Message) {
    && m.nlmsgType < 0x1_0000 && m.flags < 0x1_0000 && m.seqno < 0x1_0000_0000 && m.pid < 0x1_0000_0000
    && NLMSG_HDRLEN + |m.payload| < 0x1_0000_0000
  }

  function MessageBytes(o: ByteOrder, m: Message): (bs: seq<Byte>)
    ensures |bs| == NLMSG_HDRLEN + |m.payload|
  {
    Store(o, 4, NLMSG_HDRLEN + |m.payload|) + Store(o, 2, m.nlmsgType) + Store(o, 2, m.flags)
    + Store(o, 4, m.seqno) + Store(o, 4, m.pid) + m.payload
  }

  /** Messages one after the other, each with its padding. */
  function EncodeMessages(o: ByteOrder, ms: seq<Message>): seq<Byte> {
    if ms == [] then []
    else
      var n := NLMSG_HDRLEN + |ms[0].payload|;
      MessageBytes(o, ms[0]) + Zeros(Align(n) - n) + EncodeMessages(o, ms[1..])
  }

  /** One message at the front, padded or at the very end, is read back. */
  lemma DecodeFirstMessage(o: ByteOrder, m: Message, pad: seq<Byte>, rest: seq<Byte>)
    requires EncodableMessage(m)
    requires |pad| == Align(NLMSG_HDRLEN + |m.payload|) - (NLMSG_HDRLEN + |m.payload|) || (pad == [] && rest == [])
    ensures DecodeMessages(o, MessageBytes(o, m) + pad + rest) == [m] + DecodeMessages(o, rest)
  {
    hide Load, Store, Align, DecodeMessages;
    var n := NLMSG_HDRLEN + |m.payload|;
    var bs := MessageBytes(o, m) + pad + rest;
    Pow2Small();
    LoadStore(o, 4, n);
    LoadStore(o, 2, m.nlmsgType);
    LoadStore(o, 2, m.flags);
    LoadStore(o, 4, m.seqno);
    LoadStore(o, 4, m.pid);
    HeaderParts(bs, Store(o, 4, n), Store(o, 2, m.nlmsgType), Store(o, 2, m.flags), Store(o, 4, m.seqno),
                Store(o, 4, m.pid), m.payload, pad + rest);
    assert Drop(bs, Align(n)) == rest;
    DecodeStep(o, bs);
  }

  lemma HeaderParts(bs: seq<Byte>, len: seq<Byte>, t: seq<Byte>, flags: seq<Byte>, seqno: seq<Byte>, pid: seq<Byte>,
                    payload: seq<Byte>, rest: seq<Byte>)
    requires |len| == |seqno| == |pid| == 4 && |t| == |flags| == 2
    requires bs == len + t + flags + seqno + pid + payload + rest
    ensures bs[0..4] == len && bs[4..6] == t && bs[6..8] == flags && bs[8..12] == seqno && bs[12..16] == pid
    ensures bs[NLMSG_HDRLEN..NLMSG_HDRLEN + |payload|] == payload
  {
  }

  lemma DecodeStep(o: ByteOrder, bs: seq<Byte>)
    requires NlmsgOk(o, bs)
    ensures DecodeMessages(o, bs) == [FirstMessage(o, bs)] + DecodeMessages(o, Drop(bs, Align(Get(o, bs, 0, 4))))
  {
  }

  lemma HeaderFields(o: ByteOrder, m: Message)
    requires EncodableMessage(m)
    ensures var bs := MessageBytes(o, m);
            && NlmsgOk(o, bs) && Get(o, bs, 0, 4) == |bs| && Get(o, bs, 4, 2) == m.nlmsgType
  {
    hide Load, Store;
    var bs, n := MessageBytes(o, m), NLMSG_HDRLEN + |m.payload|;
    Pow2Small();
    LoadStore(o, 4, n);
    LoadStore(o, 2, m.nlmsgType);
    assert bs + [] == bs;
    HeaderParts(bs, Store(o, 4, n), Store(o, 2, m.nlmsgType), Store(o, 2, m.flags), Store(o, 4, m.seqno),
                Store(o, 4, m.pid), m.payload, []);
  }

  lemma NoMessages(o: ByteOrder)
    ensures DecodeMessages(o, []) == [] && Arrivals(o, []) == []
  {
  }

  /** A single message with nothing behind it. */
  lemma OneArrival(o: ByteOrder, m: Message)
    requires EncodableMessage(m)
    ensures DecodeMessages(o, MessageBytes(o, m)) == [m]
    ensures Arrivals(o, MessageBytes(o, m)) == [Arrival(m, m.payload)]
  {
    hide DecodeMessages, Arrivals, MessageBytes;
    var bs := MessageBytes(o, m);
    NoMessages(o);
    assert bs + [] + [] == bs;
    DecodeFirstMessage(o, m, [], []);
    ArrivalsAreDecoded(o, bs);
    BytesOfOne(o, m);
  }

  lemma BytesOfOne(o: ByteOrder, m: Message)
    requires |Arrivals(o, MessageBytes(o, m))| == 1
    ensures Arrivals(o, MessageBytes(o, m))[0].bytes == m.payload
  {
    hide Get, Align;
    assert MessageBytes(o, m)[NLMSG_HDRLEN..] == m.payload;
  }

  /** The message loop sees exactly the messages that were put one after the other, for any messages. */
  lemma {:induction false} MessagesRoundTrip(o: ByteOrder, ms: seq<Message>)
    requires forall i :: 0 <= i < |ms| ==> EncodableMessage(ms[i])
    ensures DecodeMessages(o, EncodeMessages(o, ms)) == ms
  {
    hide Load, Store, MessageBytes, Align, DecodeMessages;
    if ms == [] {
      NoMessages(o);
    } else {
      var n := NLMSG_HDRLEN + |ms[0].payload|;
      MessagesRoundTrip(o, ms[1..]);
      DecodeFirstMessage(o, ms[0], Zeros(Align(n) - n), EncodeMessages(o, ms[1..]));
    }
  }
}
