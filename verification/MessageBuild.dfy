/**
 The request builders: add_ip, add_gateway and link_up lay a message out in a zeroed buffer, header
 first, then a fixed part, then attributes, and keep the message length up to date.
 */
module MessageBuild {
  import opened Numbers
  import opened Options
  import opened Words
  import opened Netlink
  import opened LinkInfo
  import opened ReadEvent

  const BUFLEN := 4096
  const AF_INET := 2
  const AF_INET6 := 10
  const NLM_F_REQUEST := 1
  const NLM_F_ACK := 4
  const NLM_F_REPLACE := 0x100
  const NLM_F_CREATE := 0x400
  const IFA_F_PERMANENT := 0x80
  const IFA_ADDRESS := 1
  const IFA_LOCAL := 2
  const RTA_OIF := 4
  const RTA_GATEWAY := 5
  const IFLA_LINK := 5
  const IFF_UP_RUNNING := 0x41

  // ---------------------------------------------------------------------------------------------
  // Writing into the buffer

  /** The buffer of 4096 bytes starts with these bytes and is zero behind them. */
  ghost predicate Laid(buf: seq<Byte>, front: seq<Byte>) {
    |front| <= |buf| == 4096 && buf == front + Zeros(BUFLEN - |front|)
  }

  function Splice(s: seq<Byte>, off: nat, bs: seq<Byte>): (r: seq<Byte>)
    requires off + |bs| <= |s|
    ensures |r| == |s|
  {
    s[..off] + bs + s[off + |bs|..]
  }

  method Put(buf: array<Byte>, off: nat, bs: seq<Byte>)
    requires off + |bs| <= buf.Length
    modifies buf
    ensures buf[..] == Splice(old(buf[..]), off, bs)
  {
    for i := 0 to |bs|
      invariant buf[..off] == old(buf[..off]) && buf[off..off + i] == bs[..i]
      invariant buf[off + i..] == old(buf[off + i..])
    {
      buf[off + i] := bs[i];
    }
    assert buf[..] == buf[..off] + buf[off..off + |bs|] + buf[off + |bs|..];
  }

  /** Writing behind the bytes laid so far, with a gap of zeros in between. */
  method PutNext(buf: array<Byte>, off: nat, bs: seq<Byte>, ghost front: seq<Byte>, ghost gap: nat)
    requires Laid(buf[..], front) && off == |front| + gap && off + |bs| <= BUFLEN
    modifies buf
    ensures Laid(buf[..], front + Zeros(gap) + bs)
  {
    Put(buf, off, bs);
    assert buf[..] == front + Zeros(gap) + bs + Zeros(BUFLEN - off - |bs|);
  }

  /** Writing over bytes laid before. */
  method PutOver(buf: array<Byte>, off: nat, bs: seq<Byte>, ghost a: seq<Byte>, ghost b: seq<Byte>, ghost c: seq<Byte>)
    requires Laid(buf[..], a + b + c) && off == |a| && |bs| == |b|
    modifies buf
    ensures Laid(buf[..], a + bs + c)
  {
    Put(buf, off, bs);
    assert buf[..] == a + bs + c + Zeros(BUFLEN - |a + b + c|);
  }

  /** Zeros that nothing has been written over count as laid. */
  lemma LaidZeros(s: seq<Byte>, front: seq<Byte>, n: nat)
    requires Laid(s, front) && |front| + n <= BUFLEN
    ensures Laid(s, front + Zeros(n))
  {
  }

  // ---------------------------------------------------------------------------------------------
  // The parts of a message

  function Header(o: ByteOrder, len: nat, nlmsgType: nat, flags: nat): (bs: seq<Byte>)
    ensures |bs| == NLMSG_HDRLEN
  {
    Store(o, 4, len) + (Store(o, 2, nlmsgType) + Store(o, 2, flags) + Zeros(8))
  }

  /** memset, the header and the fixed part behind it. */
  method Start(o: ByteOrder, len: nat, nlmsgType: nat, flags: nat, fixed: seq<Byte>) returns (buf: array<Byte>)
    requires NLMSG_HDRLEN + |fixed| <= BUFLEN
    ensures fresh(buf) && Laid(buf[..], Header(o, len, nlmsgType, flags) + fixed)
  {
    hide Store, Splice;
    buf := new Byte[BUFLEN](_ => 0);
    ghost var a, b, c := Store(o, 4, len), Store(o, 2, nlmsgType), Store(o, 2, flags);
    assert Laid(buf[..], []);
    PutNext(buf, 0, Store(o, 4, len), [], 0);
    assert [] + Zeros(0) + a == a;
    PutNext(buf, 4, Store(o, 2, nlmsgType), a, 0);
    assert a + Zeros(0) + b == a + b;
    PutNext(buf, 6, Store(o, 2, flags), a + b, 0);
    assert a + b + Zeros(0) + c == a + b + c;
    PutNext(buf, NLMSG_HDRLEN, fixed, a + b + c, 8);
    assert a + b + c + Zeros(8) + fixed == Header(o, len, nlmsgType, flags) + fixed;
  }

  /** Type, data and length of one attribute; without data the zeros of the buffer stand. */
  method PutAttr(o: ByteOrder, buf: array<Byte>, off: nat, rtaType: nat, data: Option<seq<Byte>>, rtaLen: nat,
                 ghost front: seq<Byte>, ghost payload: seq<Byte>)
    requires Laid(buf[..], front) && off == |front| && off + RTATTR_LEN + |payload| <= BUFLEN
    requires data.Some? ==> data.value == payload
    requires data.None? ==> payload == Zeros(|payload|)
    modifies buf
    ensures Laid(buf[..], front + AttrBytes(o, rtaLen, rtaType, payload))
  {
    hide Store, Laid, Splice;
    ghost var len, t := Store(o, 2, rtaLen), Store(o, 2, rtaType);
    PutNext(buf, off + 2, Store(o, 2, rtaType), front, 2);
    ghost var typed := front + Zeros(2) + t;
    if data.Some? {
      PutNext(buf, off + RTATTR_LEN, data.value, typed, 0);
      assert typed + Zeros(0) + payload == typed + payload;
    } else {
      LaidZeros(buf[..], typed, |payload|);
    }
    assert typed + payload == front + Zeros(2) + (t + payload);
    PutOver(buf, off, Store(o, 2, rtaLen), front, Zeros(2), t + payload);
    assert front + len + (t + payload) == front + AttrBytes(o, rtaLen, rtaType, payload);
  }

  /** Updating nlmsg_len. */
  method PutLength(o: ByteOrder, buf: array<Byte>, len: nat, ghost was: nat, ghost nlmsgType: nat, ghost flags: nat,
                   ghost rest: seq<Byte>)
    requires Laid(buf[..], Header(o, was, nlmsgType, flags) + rest)
    modifies buf
    ensures Laid(buf[..], Header(o, len, nlmsgType, flags) + rest)
  {
    hide Store, Laid, Splice;
    ghost var tail := Store(o, 2, nlmsgType) + Store(o, 2, flags) + Zeros(8) + rest;
    assert Header(o, was, nlmsgType, flags) + rest == [] + Store(o, 4, was) + tail;
    PutOver(buf, 0, Store(o, 4, len), [], Store(o, 4, was), tail);
    assert [] + Store(o, 4, len) + tail == Header(o, len, nlmsgType, flags) + rest;
  }

  /** One attribute behind the others, and the new nlmsg_len. The writes go to separate places, so it
      makes no difference that add_gateway writes the length of its second attribute before the data. */
  method Append(o: ByteOrder, buf: array<Byte>, off: nat, rtaType: nat, data: Option<seq<Byte>>, rtaLen: nat, len: nat,
                ghost was: nat, ghost nlmsgType: nat, ghost flags: nat, ghost rest: seq<Byte>, ghost payload: seq<Byte>)
    requires Laid(buf[..], Header(o, was, nlmsgType, flags) + rest)
    requires off == NLMSG_HDRLEN + |rest| && off + RTATTR_LEN + |payload| <= BUFLEN
    requires data.Some? ==> data.value == payload
    requires data.None? ==> payload == Zeros(|payload|)
    modifies buf
    ensures Laid(buf[..], Header(o, len, nlmsgType, flags) + (rest + AttrBytes(o, rtaLen, rtaType, payload)))
  {
    hide Store, Laid, Splice, AttrBytes, Header;
    ghost var head, attr := Header(o, was, nlmsgType, flags), AttrBytes(o, rtaLen, rtaType, payload);
    PutAttr(o, buf, off, rtaType, data, rtaLen, head + rest, payload);
    assert head + rest + attr == head + (rest + attr);
    PutLength(o, buf, len, was, nlmsgType, flags, rest + attr);
  }

  // ---------------------------------------------------------------------------------------------
  // Addresses

  /** What util_pton returns. */
  function IpLen(domain: nat): (n: int)
    ensures n in {4, 16, -1}
  {
    if domain == AF_INET then 4 else if domain == AF_INET6 then 16 else -1
  }

  /** What the attribute's data holds after util_pton: the parsed address, zeros when inet_pton
      refused the text, nothing for another family. */
  function IpBytes(domain: nat, parsed: Option<seq<Byte>>): (bs: seq<Byte>)
    requires parsed.Some? ==> |parsed.value| == IpLen(domain)
    ensures |bs| == if IpLen(domain) < 0 then 0 else IpLen(domain)
  {
    match parsed
    case Some(bytes) => bytes
    case None => Zeros(if IpLen(domain) < 0 then 0 else IpLen(domain))
  }

  function IfAddrMsg(o: ByteOrder, domain: nat): (bs: seq<Byte>)
    ensures |bs| == IFADDRMSG_LEN
  {
    [domain % 256, 16, IFA_F_PERMANENT, 0] + Store(o, 4, 3)
  }

  function RtMsg(domain: nat): (bs: seq<Byte>)
    ensures |bs| == RTMSG_LEN
  {
    [domain % 256, 0, 0, 0, 254, 4, 0, 1] + Zeros(4)
  }

  function IfInfoMsg(o: ByteOrder, index: nat, flags: nat): (bs: seq<Byte>)
    ensures |bs| == IFINFOMSG_LEN
  {
    Zeros(4) + Store(o, 4, index) + Store(o, 4, flags) + [0xff, 0xff, 0xff, 0xff]
  }

  // ---------------------------------------------------------------------------------------------
  // The builders

  /** The message of add_ip. */
  function AddIpBytes(o: ByteOrder, domain: nat, ip: seq<Byte>): (bs: seq<Byte>) {
    var n := RTATTR_LEN + IpLen(domain);
    Header(o, 24 + 2 * n, RTM_NEWADDR, NLM_F_REQUEST + NLM_F_ACK)
    + (IfAddrMsg(o, domain) + AttrBytes(o, n, IFA_LOCAL, ip) + AttrBytes(o, n, IFA_ADDRESS, ip))
  }

  method AddIp(o: ByteOrder, domain: nat, parsed: Option<seq<Byte>>) returns (sent: seq<Byte>)
    requires parsed.Some? ==> |parsed.value| == IpLen(domain)
    ensures |sent| == 24 + 2 * (RTATTR_LEN + IpLen(domain)) <= BUFLEN
    ensures sent <= AddIpBytes(o, domain, IpBytes(domain, parsed))
  {
    hide Store, IfAddrMsg, Header, AttrBytes, IpBytes, Laid, Splice;
    var flags := NLM_F_REQUEST + NLM_F_ACK;
    var nlmsgLen := NLMSG_HDRLEN + IFADDRMSG_LEN;
    var ifa := IfAddrMsg(o, domain);
    var buf := Start(o, nlmsgLen, RTM_NEWADDR, flags, ifa);
    ghost var ip := IpBytes(domain, parsed);
    ZerosUnlessParsed(domain, parsed);
    var rta := NLMSG_HDRLEN + IFADDRMSG_LEN;
    var rtaLen := RTATTR_LEN + IpLen(domain);
    var next := Align(nlmsgLen) + rtaLen;
    Append(o, buf, rta, IFA_LOCAL, parsed, rtaLen, next, nlmsgLen, RTM_NEWADDR, flags, ifa, ip);
    rta := rta + Align(rtaLen);
    ghost var first := AttrBytes(o, rtaLen, IFA_LOCAL, ip);
    Append(o, buf, rta, IFA_ADDRESS, parsed, rtaLen, next + rtaLen, next, RTM_NEWADDR, flags, ifa + first, ip);
    nlmsgLen := next + rtaLen;
    sent := Front(buf, nlmsgLen, AddIpBytes(o, domain, ip));
  }

  lemma ZerosUnlessParsed(domain: nat, parsed: Option<seq<Byte>>)
    requires parsed.Some? ==> |parsed.value| == IpLen(domain)
    ensures var ip := IpBytes(domain, parsed); parsed.None? ==> ip == Zeros(|ip|)
    ensures parsed.Some? ==> parsed.value == IpBytes(domain, parsed)
  {
  }

  /** What sendmsg is given. */
  method Front(buf: array<Byte>, len: nat, ghost laid: seq<Byte>) returns (sent: seq<Byte>)
    requires Laid(buf[..], laid) && len <= |laid|
    ensures sent == laid[..len]
  {
    sent := buf[..len];
  }

  /** The message of add_gateway. */
  function AddGatewayBytes(o: ByteOrder, domain: nat, ip: seq<Byte>): (bs: seq<Byte>) {
    var n, flags := RTATTR_LEN + IpLen(domain), NLM_F_REQUEST + NLM_F_REPLACE + NLM_F_ACK + NLM_F_CREATE;
    Header(o, 28 + n + 8, RTM_NEWROUTE, flags)
    + (RtMsg(domain) + AttrBytes(o, n, RTA_GATEWAY, ip) + AttrBytes(o, 8, RTA_OIF, Store(o, 4, 2)))
  }

  method AddGateway(o: ByteOrder, domain: nat, parsed: Option<seq<Byte>>) returns (sent: seq<Byte>)
    requires parsed.Some? ==> |parsed.value| == IpLen(domain)
    ensures |sent| == 28 + (RTATTR_LEN + IpLen(domain)) + 8 <= BUFLEN
    ensures sent <= AddGatewayBytes(o, domain, IpBytes(domain, parsed))
  {
    hide Store, RtMsg, Header, AttrBytes, IpBytes, Laid, Splice;
    var flags := NLM_F_REQUEST + NLM_F_REPLACE + NLM_F_ACK + NLM_F_CREATE;
    var nlmsgLen := NLMSG_HDRLEN + RTMSG_LEN;
    var rt := RtMsg(domain);
    var buf := Start(o, nlmsgLen, RTM_NEWROUTE, flags, rt);
    ghost var ip := IpBytes(domain, parsed);
    ZerosUnlessParsed(domain, parsed);
    var rta := NLMSG_HDRLEN + RTMSG_LEN;
    var rtaLen := RTATTR_LEN + IpLen(domain);
    var next := Align(nlmsgLen) + rtaLen;
    Append(o, buf, rta, RTA_GATEWAY, parsed, rtaLen, next, nlmsgLen, RTM_NEWROUTE, flags, rt, ip);
    rta := rta + Align(rtaLen);
    ghost var first := AttrBytes(o, rtaLen, RTA_GATEWAY, ip);
    var oif := Store(o, 4, 2);
    Append(o, buf, rta, RTA_OIF, Some(oif), 8, next + 8, next, RTM_NEWROUTE, flags, rt + first, oif);
    nlmsgLen := next + 8;
    sent := Front(buf, nlmsgLen, AddGatewayBytes(o, domain, ip));
  }

  /** The message of link_up. */
  function LinkUpBytes(o: ByteOrder, up: bool, index: nat): (bs: seq<Byte>) {
    Header(o, 40, RTM_NEWLINK, NLM_F_REQUEST + NLM_F_ACK)
    + (IfInfoMsg(o, index, if up then IFF_UP_RUNNING else 0)
       + AttrBytes(o, 8, IFLA_LINK, Store(o, 4, if up then 1 else 0)))
  }

  method LinkUp(o: ByteOrder, up: bool, index: nat) returns (sent: seq<Byte>)
    ensures sent == LinkUpBytes(o, up, index) && |sent| == 40
  {
    hide Store, IfInfoMsg, Header, AttrBytes, Laid, Splice;
    var flags := NLM_F_REQUEST + NLM_F_ACK;
    var nlmsgLen := NLMSG_HDRLEN + IFINFOMSG_LEN;
    var info := IfInfoMsg(o, index, if up then IFF_UP_RUNNING else 0);
    var buf := Start(o, nlmsgLen, RTM_NEWLINK, flags, info);
    var link := Store(o, 4, if up then 1 else 0);
    var next := Align(nlmsgLen) + 8;
    Append(o, buf, nlmsgLen, IFLA_LINK, Some(link), 8, next, nlmsgLen, RTM_NEWLINK, flags, info, link);
    sent := Front(buf, next, LinkUpBytes(o, up, index));
    assert LinkUpBytes(o, up, index)[..40] == LinkUpBytes(o, up, index);
  }

  // ---------------------------------------------------------------------------------------------
  // The messages byte by byte, on a little-endian host

  lemma LengthsOfAddresses()
    ensures IpLen(2) == 4 && IpLen(10) == 16 && forall d :: d != 2 && d != 10 ==> IpLen(d) == -1
    ensures forall d :: IpBytes(d, None) == Zeros(if d == 2 then 4 else if d == 10 then 16 else 0)
  {
  }

  /** add_ip with 10.0.0.1. */
  lemma AddIpExample()
    ensures AddIpBytes(LittleEndian, 2, [10, 0, 0, 1])
         == [40, 0, 0, 0, 20, 0, 5, 0, 0, 0, 0, 0, 0, 0, 0, 0] + [2, 16, 0x80, 0, 3, 0, 0, 0]
            + [8, 0, 2, 0, 10, 0, 0, 1] + [8, 0, 1, 0, 10, 0, 0, 1]
  {
    hide Store;
    StoreSmall(1);
    StoreSmall(2);
    StoreSmall(3);
    StoreSmall(5);
    StoreSmall(8);
    StoreSmall(20);
    StoreSmall(40);
  }

  /** add_gateway with 10.0.0.1; the flags are 0x505. */
  lemma AddGatewayExample()
    ensures AddGatewayBytes(LittleEndian, 2, [10, 0, 0, 1])
         == [44, 0, 0, 0, 24, 0, 5, 5, 0, 0, 0, 0, 0, 0, 0, 0] + [2, 0, 0, 0, 254, 4, 0, 1, 0, 0, 0, 0]
            + [8, 0, 5, 0, 10, 0, 0, 1] + [8, 0, 4, 0, 2, 0, 0, 0]
  {
    GatewayFlags();
    hide Store;
    StoreSmall(2);
    StoreSmall(4);
    StoreSmall(5);
    StoreSmall(8);
    StoreSmall(24);
    StoreSmall(44);
  }

  lemma GatewayFlags()
    ensures Store(LittleEndian, 2, 0x505) == [5, 5]
  {
    assert BytesOf(1, 5) == [] + [5] && BytesOf(2, 0x505) == BytesOf(1, 5) + [5];
  }

  /** link_up of interface 3, up and down. */
  lemma LinkUpExample(up: bool)
    ensures LinkUpBytes(LittleEndian, up, 3)
         == [40, 0, 0, 0, 16, 0, 5, 0, 0, 0, 0, 0, 0, 0, 0, 0]
            + [0, 0, 0, 0, 3, 0, 0, 0, if up then 0x41 else 0, 0, 0, 0, 0xff, 0xff, 0xff, 0xff]
            + [8, 0, 5, 0, if up then 1 else 0, 0, 0, 0]
  {
    hide Store, IfInfoMsg;
    StoreSmall(0);
    StoreSmall(1);
    StoreSmall(5);
    StoreSmall(8);
    StoreSmall(16);
    StoreSmall(40);
    InfoExample(up);
  }

  lemma InfoExample(up: bool)
    ensures IfInfoMsg(LittleEndian, 3, if up then 0x41 else 0)
         == [0, 0, 0, 0, 3, 0, 0, 0, if up then 0x41 else 0, 0, 0, 0, 0xff, 0xff, 0xff, 0xff]
  {
    hide Store;
    StoreSmall(3);
    StoreSmall(if up then 0x41 else 0);
  }

  // ---------------------------------------------------------------------------------------------
  // Reading the messages back

  /** A header whose length is that of the whole message makes one message, followed by nothing. */
  lemma HeaderDecodes(o: ByteOrder, nlmsgType: nat, flags: nat, payload: seq<Byte>)
    requires nlmsgType < 0x1_0000 && flags < 0x1_0000 && NLMSG_HDRLEN + |payload| < 0x1_0000
    ensures var bs, m := Header(o, NLMSG_HDRLEN + |payload|, nlmsgType, flags) + payload,
                         Message(nlmsgType, flags, 0, 0, payload);
            DecodeMessages(o, bs) == [m] && Arrivals(o, bs) == [Arrival(m, payload)]
  {
    hide Store, DecodeMessages, Arrivals;
    var m := Message(nlmsgType, flags, 0, 0, payload);
    ZeroStored(o);
    assert Zeros(8) == Store(o, 4, 0) + Store(o, 4, 0);
    assert Header(o, NLMSG_HDRLEN + |payload|, nlmsgType, flags) + payload == MessageBytes(o, m);
    OneArrival(o, m);
  }

  lemma ZeroStored(o: ByteOrder)
    ensures Store(o, 4, 0) == Zeros(4)
  {
    NumOfZeros(4);
    assert Reversed(Zeros(4)) == Zeros(4);
    StoreLoad(o, Zeros(4));
  }

  /** Build then walk is the identity: one message, with nothing behind it, whose attributes are the
      ones that were put in. */
  lemma BuildThenWalk(o: ByteOrder, nlmsgType: nat, flags: nat, fixed: seq<Byte>, attrs: seq<Attr>)
    requires forall i :: 0 <= i < |attrs| ==> Encodable(attrs[i])
    requires nlmsgType < 0x1_0000 && flags < 0x1_0000
    requires NLMSG_HDRLEN + |fixed| + |EncodeAttrs(o, attrs)| < 0x1_0000
    ensures var payload := fixed + EncodeAttrs(o, attrs);
            var sent, m := Header(o, NLMSG_HDRLEN + |payload|, nlmsgType, flags) + payload,
                           Message(nlmsgType, flags, 0, 0, payload);
            && DecodeMessages(o, sent) == [m] && Arrivals(o, sent) == [Arrival(m, payload)]
            && AttrsAfter(o, payload, |fixed|) == attrs
  {
    hide Header, EncodeAttrs, DecodeAttrs, DecodeMessages, Arrivals;
    var payload := fixed + EncodeAttrs(o, attrs);
    HeaderDecodes(o, nlmsgType, flags, payload);
    EncodeRoundTrip(o, attrs);
    assert Drop(payload, |fixed|) == EncodeAttrs(o, attrs);
  }

  /** Attributes of whole words need no padding. */
  lemma WordAttrs(o: ByteOrder, a: Attr, b: Attr)
    requires |a.payload| % 4 == 0 && |b.payload| % 4 == 0
    ensures EncodeAttrs(o, [a]) == AttrBytes(o, RTATTR_LEN + |a.payload|, a.rtaType, a.payload)
    ensures EncodeAttrs(o, [a, b]) == AttrBytes(o, RTATTR_LEN + |a.payload|, a.rtaType, a.payload)
                                      + AttrBytes(o, RTATTR_LEN + |b.payload|, b.rtaType, b.payload)
  {
    hide AttrBytes;
    assert [a][1..] == [] && [a, b][1..] == [b] && [b][1..] == [];
    assert EncodeAttrs(o, []) == [];
    assert EncodeAttrs(o, [b]) == EncodeAttr(o, b);
  }

  /** read_event sees in add_ip's message exactly the address as IFA_LOCAL, then as IFA_ADDRESS. */
  lemma AddIpReadsBack(o: ByteOrder, domain: nat, ip: seq<Byte>)
    requires |ip| == IpLen(domain)
    ensures var sent, attrs := AddIpBytes(o, domain, ip), [Attr(IFA_LOCAL, ip), Attr(IFA_ADDRESS, ip)];
            && |sent| <= BUFLEN && Padded(o, sent)
            && DecodeMessages(o, sent) == [Message(RTM_NEWADDR, NLM_F_REQUEST + NLM_F_ACK, 0, 0,
                                                   IfAddrMsg(o, domain) + EncodeAttrs(o, attrs))]
            && EventsOf(o, Arrivals(o, sent)) == Result(Returned(0), [NewAddr(IfAddrMsg(o, domain), attrs)])
  {
    hide Header, EncodeAttrs, DecodeMessages, Arrivals, AttrBytes, IfAddrMsg, Padded, EventsOf, AttrsAfter;
    var n, first, second := RTATTR_LEN + |ip|, Attr(IFA_LOCAL, ip), Attr(IFA_ADDRESS, ip);
    var ifa, payload := IfAddrMsg(o, domain), IfAddrMsg(o, domain) + EncodeAttrs(o, [first, second]);
    WordAttrs(o, first, second);
    BuildThenWalk(o, RTM_NEWADDR, NLM_F_REQUEST + NLM_F_ACK, ifa, [first, second]);
    assert ifa + AttrBytes(o, n, IFA_LOCAL, ip) + AttrBytes(o, n, IFA_ADDRESS, ip) == payload;
    WholeWordsArePadded(o, AddIpBytes(o, domain, ip));
    OneEvent(o, Message(RTM_NEWADDR, NLM_F_REQUEST + NLM_F_ACK, 0, 0, payload));
    assert payload[..IFADDRMSG_LEN] == ifa;
  }

  /** The fields that RTM_NEWADDR_Check reads in the fixed part: family, prefix length, flags, scope
      and interface. */
  lemma AddIpFields(o: ByteOrder, domain: nat, rest: seq<Byte>)
    requires domain < 256
    ensures var p := IfAddrMsg(o, domain) + rest;
            && Get(o, p, 0, 1) == domain && Get(o, p, 1, 1) == 16 && Get(o, p, 2, 1) == IFA_F_PERMANENT
            && Get(o, p, 3, 1) == 0 && Get(o, p, 4, 4) == 3
  {
    hide Store, Load;
    var p := IfAddrMsg(o, domain) + rest;
    forall i | 0 <= i < 4
      ensures Get(o, p, i, 1) == p[i]
    {
      OneByteField(o, p, i);
    }
    Pow2Small();
    LoadStore(o, 4, 3);
    assert p[4..8] == Store(o, 4, 3);
  }

  /** The fields of add_gateway's rtmsg: family, lengths, tos, main table, static protocol, universe and
      unicast, and no flags. */
  lemma AddGatewayFields(o: ByteOrder, domain: nat, rest: seq<Byte>)
    requires domain < 256
    ensures var p := RtMsg(domain) + rest;
            && Get(o, p, 0, 1) == domain && Get(o, p, 1, 1) == 0 && Get(o, p, 2, 1) == 0 && Get(o, p, 3, 1) == 0
            && Get(o, p, 4, 1) == 254 && Get(o, p, 5, 1) == 4 && Get(o, p, 6, 1) == 0 && Get(o, p, 7, 1) == 1
            && Get(o, p, 8, 4) == 0
  {
    hide Store, Load;
    var p := RtMsg(domain) + rest;
    forall i | 0 <= i < 8
      ensures Get(o, p, i, 1) == p[i]
    {
      OneByteField(o, p, i);
    }
    ZeroStored(o);
    Pow2Small();
    LoadStore(o, 4, 0);
    assert p[8..12] == Zeros(4);
  }

  lemma OneByteField(o: ByteOrder, bs: seq<Byte>, i: nat)
    requires i < |bs|
    ensures Get(o, bs, i, 1) == bs[i]
  {
    NumSnoc(8, [], bs[i]);
    assert bs[i..i + 1] == [] + [bs[i]] && Reversed(bs[i..i + 1]) == [] + [bs[i]];
  }

  lemma OneEvent(o: ByteOrder, m: Message)
    requires EndingAt(Arrival(m, m.payload)).None?
    ensures EventsOf(o, [Arrival(m, m.payload)]) == Result(Returned(0), [EventOf(o, Arrival(m, m.payload))])
  {
    hide EndingAt, EventOf;
    var a := Arrival(m, m.payload);
    assert [a] + [] == [a];
    EventsStep(o, a, []);
  }

  /** The walk of add_gateway's message gives exactly the gateway, then the output interface 2. */
  lemma AddGatewayReadsBack(o: ByteOrder, domain: nat, ip: seq<Byte>)
    requires |ip| == IpLen(domain)
    ensures var sent, attrs := AddGatewayBytes(o, domain, ip), [Attr(RTA_GATEWAY, ip), Attr(RTA_OIF, Store(o, 4, 2))];
            && |sent| <= BUFLEN
            && DecodeMessages(o, sent)
               == [Message(RTM_NEWROUTE, NLM_F_REQUEST + NLM_F_REPLACE + NLM_F_ACK + NLM_F_CREATE, 0, 0,
                           RtMsg(domain) + EncodeAttrs(o, attrs))]
            && AttrsAfter(o, RtMsg(domain) + EncodeAttrs(o, attrs), RTMSG_LEN) == attrs
  {
    hide Header, EncodeAttrs, DecodeMessages, Arrivals, AttrBytes, RtMsg, Store, AttrsAfter;
    var first, second := Attr(RTA_GATEWAY, ip), Attr(RTA_OIF, Store(o, 4, 2));
    var flags := NLM_F_REQUEST + NLM_F_REPLACE + NLM_F_ACK + NLM_F_CREATE;
    WordAttrs(o, first, second);
    BuildThenWalk(o, RTM_NEWROUTE, flags, RtMsg(domain), [first, second]);
    assert RtMsg(domain) + AttrBytes(o, RTATTR_LEN + |ip|, RTA_GATEWAY, ip) + AttrBytes(o, 8, RTA_OIF, second.payload)
        == RtMsg(domain) + EncodeAttrs(o, [first, second]);
  }

  /** link_up's own message, looked up by link_info_receive: it holds the index it was built for. */
  lemma LinkUpReadsBack(o: ByteOrder, up: bool, index: nat)
    requires index < 0x8000_0000
    ensures var sent, attrs := LinkUpBytes(o, up, index), [Attr(IFLA_LINK, Store(o, 4, if up then 1 else 0))];
            var info := IfInfoMsg(o, index, if up then IFF_UP_RUNNING else 0);
            && Padded(o, sent)
            && DecodeMessages(o, sent) == [Message(16, 5, 0, 0, info + EncodeAttrs(o, attrs))]
            && EventsOf(o, Arrivals(o, sent)) == Result(Returned(0), [NewLink(info, attrs)])
            && forall i :: Find(o, Arrivals(o, sent), i) == if i == index then Hit(info) else Nothing
  {
    hide Header, EncodeAttrs, DecodeMessages, Arrivals, AttrBytes, IfInfoMsg, Store, Padded, EventsOf, AttrsAfter;
    hide Find, Get;
    var attr := Attr(IFLA_LINK, Store(o, 4, if up then 1 else 0));
    var info := IfInfoMsg(o, index, if up then IFF_UP_RUNNING else 0);
    var payload := info + EncodeAttrs(o, [attr]);
    WordAttrs(o, attr, attr);
    BuildThenWalk(o, RTM_NEWLINK, NLM_F_REQUEST + NLM_F_ACK, info, [attr]);
    WholeWordsArePadded(o, LinkUpBytes(o, up, index));
    var m := Message(RTM_NEWLINK, NLM_F_REQUEST + NLM_F_ACK, 0, 0, payload);
    OneEvent(o, m);
    LinkUpFields(o, up, index, EncodeAttrs(o, [attr]));
    assert payload[..IFINFOMSG_LEN] == info;
    forall i: nat
      ensures Find(o, [Arrival(m, payload)], i) == if i == index then Hit(info) else Nothing
    {
      LookAtOne(o, Arrival(m, payload), i);
    }
  }

  lemma OnesStored(o: ByteOrder)
    ensures Store(o, 4, 0xffff_ffff) == [0xff, 0xff, 0xff, 0xff]
  {
    assert BytesOf(1, 0xff) == [] + [0xff] && BytesOf(2, 0xffff) == BytesOf(1, 0xff) + [0xff];
    assert BytesOf(3, 0xff_ffff) == BytesOf(2, 0xffff) + [0xff];
    assert BytesOf(4, 0xffff_ffff) == BytesOf(3, 0xff_ffff) + [0xff];
  }

  /** The fields of link_up's ifinfomsg: index, flags, no family and type, and the change mask. */
  lemma LinkUpFields(o: ByteOrder, up: bool, index: nat, rest: seq<Byte>)
    requires index < 0x8000_0000
    ensures var p := IfInfoMsg(o, index, if up then IFF_UP_RUNNING else 0) + rest;
            && Get(o, p, 4, 4) == index && Get(o, p, 8, 4) == (if up then 0x41 else 0)
            && Get(o, p, 0, 4) == 0 && Get(o, p, 12, 4) == 0xffff_ffff
  {
    hide Store, Load;
    var flags := if up then IFF_UP_RUNNING else 0;
    var p := IfInfoMsg(o, index, flags) + rest;
    Pow2Small();
    LoadStore(o, 4, index);
    LoadStore(o, 4, flags);
    assert p[4..8] == Store(o, 4, index) && p[8..12] == Store(o, 4, flags);
    ZeroStored(o);
    LoadStore(o, 4, 0);
    LoadStore(o, 4, 0xffff_ffff);
    OnesStored(o);
    assert p[0..4] == Zeros(4) && p[12..16] == Store(o, 4, 0xffff_ffff);
  }

  /** For any other family util_pton answers -1 and the first attribute claims 3 bytes, which is less
      than its own header: the walks see no attribute at all. */
  lemma UnknownFamilyHasNoAddress(o: ByteOrder, domain: nat)
    requires IpLen(domain) < 0
    ensures var sent := AddIpBytes(o, domain, [])[..30];
            EventsOf(o, Arrivals(o, sent)) == Result(Returned(0), [NewAddr(IfAddrMsg(o, domain), [])])
  {
    hide Header, DecodeMessages, Arrivals, IfAddrMsg, EventsOf, Store, DecodeAttrs;
    var ifa, sent := IfAddrMsg(o, domain), AddIpBytes(o, domain, [])[..30];
    var rest := Store(o, 2, IFA_LOCAL) + Store(o, 2, 3);
    var payload := ifa + (Store(o, 2, 3) + rest);
    HeaderDecodes(o, RTM_NEWADDR, NLM_F_REQUEST + NLM_F_ACK, payload);
    assert sent == Header(o, 30, RTM_NEWADDR, NLM_F_REQUEST + NLM_F_ACK) + payload;
    TooShort(o, ifa, rest);
    OneEvent(o, Message(RTM_NEWADDR, NLM_F_REQUEST + NLM_F_ACK, 0, 0, payload));
    assert payload[..IFADDRMSG_LEN] == ifa;
  }

  /** The same for add_gateway, where it hides the output interface too. */
  lemma UnknownFamilyHasNoRoute(o: ByteOrder, domain: nat)
    requires IpLen(domain) < 0
    ensures var ms := DecodeMessages(o, AddGatewayBytes(o, domain, [])[..39]);
            |ms| == 1 && ms[0].nlmsgType == RTM_NEWROUTE && AttrsAfter(o, ms[0].payload, RTMSG_LEN) == []
  {
    hide Header, DecodeMessages, Arrivals, RtMsg, Store, DecodeAttrs;
    var rt, flags := RtMsg(domain), NLM_F_REQUEST + NLM_F_REPLACE + NLM_F_ACK + NLM_F_CREATE;
    var rest := Store(o, 2, RTA_GATEWAY) + AttrBytes(o, 8, RTA_OIF, Store(o, 4, 2))[..7];
    var payload := rt + (Store(o, 2, 3) + rest);
    HeaderDecodes(o, RTM_NEWROUTE, flags, payload);
    assert AddGatewayBytes(o, domain, [])[..39] == Header(o, 39, RTM_NEWROUTE, flags) + payload;
    TooShort(o, rt, rest);
  }

  lemma TooShort(o: ByteOrder, fixed: seq<Byte>, rest: seq<Byte>)
    ensures AttrsAfter(o, fixed + (Store(o, 2, 3) + rest), |fixed|) == []
  {
    hide Store, Load;
    var bs := Store(o, 2, 3) + rest;
    assert Drop(fixed + bs, |fixed|) == bs;
    Pow2Small();
    LoadStore(o, 2, 3);
    assert bs[0..2] == Store(o, 2, 3);
  }
}
