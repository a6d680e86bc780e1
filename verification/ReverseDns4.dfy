/**
 The IN-ADDR.ARPA zone name of an IPv4 network (section 3.5 of RFC 1035), with the "min-max" range
 label of the classless style.
 */
module ReverseDns4 {
  import opened Numbers
  import opened Options
  import opened Words
  import opened Masks
  import opened Labels

  function RangeLabel(min: nat, max: nat): string {
    Decimal(min) + ['-'] + Decimal(max)
  }

  /** The labels that the format strings of calc_reverse_dns4 print before the suffix; None where it
      prints nothing and returns a null pointer. */
  function NameLabels(ip: seq<Byte>, prefix: nat, network: seq<Byte>, broadcast: seq<Byte>): Option<seq<string>>
    requires |ip| == |network| == |broadcast| == 4
  {
    var byte1, byte2, byte3, byte4 := Decimal(ip[0]), Decimal(ip[1]), Decimal(ip[2]), Decimal(ip[3]);
    if prefix == 32 then Some([byte4, byte3, byte2, byte1])
    else if prefix == 24 then Some([byte3, byte2, byte1])
    else if prefix == 16 then Some([byte2, byte1])
    else if prefix == 8 then Some([byte1])
    else if prefix > 24 then Some([RangeLabel(network[3], broadcast[3]), byte3, byte2, byte1])
    else if prefix > 16 then Some([RangeLabel(network[2], broadcast[2]), byte2, byte1])
    else if prefix > 8 then Some([RangeLabel(network[1], broadcast[1]), byte1])
    else None
  }

  const SUFFIX := ["in-addr", "arpa", ""]

  function CalcReverseDns4(o: ByteOrder, ip: Word32, prefix: nat, network: Word32, broadcast: Word32): Option<string> {
    match NameLabels(Octets(Ntohl(o, ip)), prefix, Octets(Ntohl(o, network)), Octets(Ntohl(o, broadcast)))
    case None => None
    case Some(labels) => Some(Join('.', labels + SUFFIX))
  }

  /** The call that get_ipv4_info makes. */
  function ReverseName(o: ByteOrder, ip: Word32, prefix: nat): Option<string>
    requires prefix <= 32
  {
    var network := CalcNetwork(o, ip, prefix);
    CalcReverseDns4(o, network, prefix, network, CalcBroadcast(o, ip, prefix))
  }

  // ---------------------------------------------------------------------------------------------
  // Reading a name back

  datatype Range = Range(min: nat, max: nat)

  function ParseRange(text: string): Range {
    var ends := Split('-', text);
    Range(ParseDecimal(ends[0]), ParseDecimal(ends[|ends| - 1]))
  }

  /** The octets that a name fixes or bounds, in the order of the address. */
  function ParseName(name: string): seq<Range> {
    var labels := Split('.', name);
    if |labels| < 3 then [] else ParseLabels(labels[..|labels| - 3])
  }

  function ParseLabels(labels: seq<string>): (rs: seq<Range>)
    ensures |rs| == |labels|
  {
    seq(|labels|, i requires 0 <= i < |labels| => ParseRange(labels[|labels| - 1 - i]))
  }

  function Log2(n: int): nat {
    if n <= 1 then 0 else 1 + Log2(n / 2)
  }

  datatype Block = Block(network: nat, prefix: int)

  /** The block whose first address has every lower bound as its octets. */
  function BlockOfRanges(rs: seq<Range>): Option<Block> {
    if 1 <= |rs| <= 4 then
      var last := rs[|rs| - 1];
      Some(Block(Num(8, Lower(rs)) * Pow2((4 - |rs|) * 8), |rs| * 8 - Log2(last.max - last.min + 1)))
    else None
  }

  function Lower(rs: seq<Range>): seq<nat> {
    seq(|rs|, i requires 0 <= i < |rs| => rs[i].min)
  }

  ghost predicate WithinRanges(rs: seq<Range>, octets: seq<Byte>) {
    |rs| <= |octets| && forall i :: 0 <= i < |rs| ==> rs[i].min <= octets[i] <= rs[i].max
  }

  // ---------------------------------------------------------------------------------------------
  // Octets of a block

  /** How many octets a prefix reaches into, and how many bits of the last of them it leaves free. */
  function Reach(p: nat): (n: nat) {
    (p + 7) / 8
  }

  function Free(p: nat): (e: nat)
    ensures e < 8
  {
    Reach(p) * 8 - p
  }

  /** The value around octet n: what comes before it, the octet, and t bits after it. */
  lemma AroundOctet(bs: seq<Byte>, n: nat, t: nat)
    requires 1 <= n <= |bs| && t == (|bs| - n) * 8
    ensures Num(8, bs[..n]) == Num(8, bs[..n - 1]) * 256 + bs[n - 1]
    ensures Num(8, bs) == Num(8, bs[..n]) * Pow2(t) + Num(8, bs[n..]) && Num(8, bs[n..]) < Pow2(t)
  {
    SplitTail(bs, n, t);
    NumSnoc(8, bs[..n - 1], bs[n - 1]);
    assert bs[..n] == bs[..n - 1] + [bs[n - 1]];
  }

  lemma RoundDownOctets(bs: seq<Byte>, n: nat, t: nat, e: nat)
    requires 1 <= n <= |bs| && t == (|bs| - n) * 8 && e < 8
    ensures RoundDown(Num(8, bs), t + e) == (Num(8, bs[..n - 1]) * 256 + RoundDown(bs[n - 1], e)) * Pow2(t)
  {
    assert Pow2(8) == 256;
    hide RoundDown, Num, Pow2;
    AroundOctet(bs, n, t);
    RoundDownParts(Num(8, bs), Num(8, bs[..n]), Num(8, bs[n..]), t, e);
    RoundDownHigh(Num(8, bs[..n - 1]), bs[n - 1], 8, e);
  }

  /** Two addresses share a network exactly when they share the octets before the last one the prefix
      reaches into, and the bits it covers there. */
  lemma SameNetworkOctets(a: seq<Byte>, b: seq<Byte>, n: nat, t: nat, e: nat)
    requires 1 <= n <= |a| == |b| && t == (|a| - n) * 8 && e < 8
    ensures (RoundDown(Num(8, a), t + e) == RoundDown(Num(8, b), t + e))
       <==> (a[..n - 1] == b[..n - 1] && RoundDown(a[n - 1], e) == RoundDown(b[n - 1], e))
  {
    RoundDownOctets(a, n, t, e);
    RoundDownOctets(b, n, t, e);
    var x := Num(8, a[..n - 1]) * 256 + RoundDown(a[n - 1], e);
    var y := Num(8, b[..n - 1]) * 256 + RoundDown(b[n - 1], e);
    if RoundDown(Num(8, a), t + e) == RoundDown(Num(8, b), t + e) {
      SameFactor(x, y, Pow2(t));
      NumInjective(8, a[..n - 1], b[..n - 1]);
    }
  }

  lemma AlignedTail(bs: seq<Byte>, n: nat, t: nat, e: nat)
    requires 1 <= n <= |bs| && t == (|bs| - n) * 8 && e < 8
    requires RoundDown(Num(8, bs), t + e) == Num(8, bs)
    ensures Num(8, bs[n..]) == 0
    ensures Num(8, bs[..n]) == Num(8, bs[..n - 1]) * 256 + RoundDown(bs[n - 1], e)
  {
    var m := Num(8, bs[..n - 1]) * 256 + RoundDown(bs[n - 1], e);
    SplitTail(bs, n, t);
    RoundDownOctets(bs, n, t, e);
    SameQuotient(Num(8, bs), Pow2(t), Num(8, bs[..n]), Num(8, bs[n..]), m, 0);
  }

  /** An aligned address is its leading octets, and its last octet is itself aligned. */
  lemma AlignedOctets(bs: seq<Byte>, n: nat, t: nat, e: nat)
    requires 1 <= n <= |bs| && t == (|bs| - n) * 8 && e < 8
    requires RoundDown(Num(8, bs), t + e) == Num(8, bs)
    ensures RoundDown(bs[n - 1], e) == bs[n - 1]
    ensures bs[n - 1] + Pow2(e) <= 256
    ensures Num(8, bs[..n]) * Pow2(t) == Num(8, bs)
  {
    AlignedTail(bs, n, t, e);
    AroundOctet(bs, n, t);
    AlignedBelow(bs[n - 1], 8, e);
  }

  /** The last address of the block has the top of the range in that octet. */
  lemma BroadcastOctet(bs: seq<Byte>, cs: seq<Byte>, n: nat, t: nat, e: nat)
    requires 1 <= n <= |bs| == |cs| && t == (|bs| - n) * 8 && e < 8
    requires RoundDown(Num(8, bs), t + e) == Num(8, bs)
    requires Num(8, cs) == Num(8, bs) + Pow2(t + e) - 1
    ensures cs[n - 1] == bs[n - 1] + Pow2(e) - 1
  {
    AlignedOctets(bs, n, t, e);
    AroundOctet(bs, n, t);
    AroundOctet(cs, n, t);
    LastQuotient(Num(8, bs[..n]), Num(8, cs), t, e, Num(8, cs[..n]), Num(8, cs[n..]));
    SameQuotient(Num(8, cs[..n]), 256, Num(8, cs[..n - 1]), cs[n - 1],
                 Num(8, bs[..n - 1]), bs[n - 1] + Pow2(e) - 1);
  }

  lemma LastQuotient(x: nat, h: nat, t: nat, e: nat, q: nat, r: nat)
    requires h == x * Pow2(t) + Pow2(t + e) - 1
    requires r < Pow2(t) && h == q * Pow2(t) + r
    ensures q == x + Pow2(e) - 1
  {
    Pow2Add(e, t);
    LastOfBlock(x, Pow2(e), Pow2(t));
    SameQuotient(h, Pow2(t), q, r, x + Pow2(e) - 1, Pow2(t) - 1);
  }

  lemma LastOfBlock(x: nat, u: nat, d: nat)
    requires u > 0 && d > 0
    ensures x * d + u * d - 1 == (x + u - 1) * d + (d - 1)
  {
  }

  // ---------------------------------------------------------------------------------------------
  // Text of the labels

  lemma DecimalText(n: nat)
    ensures '.' !in Decimal(n) && '-' !in Decimal(n)
    ensures ParseRange(Decimal(n)) == Range(n, n)
  {
    ParseDecimalOfDecimal(n);
    SplitPart('-', Decimal(n));
  }

  lemma RangeText(a: nat, b: nat)
    ensures '.' !in RangeLabel(a, b)
    ensures ParseRange(RangeLabel(a, b)) == Range(a, b)
  {
    DecimalText(a);
    DecimalText(b);
    ParseDecimalOfDecimal(a);
    ParseDecimalOfDecimal(b);
    SplitPart('-', Decimal(b));
    SplitAtSeparator('-', Decimal(a), Decimal(b));
  }

  /** The ranges of the block's octets. */
  function Ranges(network: seq<Byte>, n: nat, e: nat): (rs: seq<Range>)
    requires 1 <= n <= |network|
    ensures |rs| == n
  {
    seq(n, i requires 0 <= i < n =>
      if i < n - 1 then Range(network[i], network[i])
      else Range(network[i], network[i] + Pow2(e) - 1))
  }

  /** The first label is the last octet reached or its range; the others are the octets before it. */
  lemma LabelsShape(net: seq<Byte>, bcast: seq<Byte>, p: nat)
    requires |net| == |bcast| == 4
    ensures NameLabels(net, p, net, bcast).Some? <==> p >= 8
    ensures 8 <= p <= 32 ==>
      var labels, n := NameLabels(net, p, net, bcast).value, Reach(p);
      && |labels| == n
      && labels[0] == (if Free(p) == 0 then Decimal(net[n - 1]) else RangeLabel(net[n - 1], bcast[n - 1]))
      && forall k :: 1 <= k < n ==> labels[k] == Decimal(net[n - 1 - k])
  {
  }

  /** Every label parses to the range of its octet. */
  lemma RangesOfLabels(net: seq<Byte>, bcast: seq<Byte>, p: nat)
    requires |net| == |bcast| == 4 && 8 <= p <= 32
    requires bcast[Reach(p) - 1] == net[Reach(p) - 1] + Pow2(Free(p)) - 1
    ensures NameLabels(net, p, net, bcast).Some?
    ensures var labels := NameLabels(net, p, net, bcast).value;
            Separable('.', labels) && ParseLabels(labels) == Ranges(net, Reach(p), Free(p))
  {
    LabelsShape(net, bcast, p);
    var n := Reach(p);
    RangeText(net[n - 1], bcast[n - 1]);
    DecimalText(net[n - 1]);
    assert Pow2(0) == 1;
    LabelsText(NameLabels(net, p, net, bcast).value, net, n, Free(p));
  }

  lemma LabelsText(labels: seq<string>, net: seq<Byte>, n: nat, e: nat)
    requires 1 <= n == |labels| <= |net|
    requires '.' !in labels[0] && ParseRange(labels[0]) == Range(net[n - 1], net[n - 1] + Pow2(e) - 1)
    requires forall k :: 1 <= k < n ==> labels[k] == Decimal(net[n - 1 - k])
    ensures Separable('.', labels) && ParseLabels(labels) == Ranges(net, n, e)
  {
    forall k | 1 <= k < n
      ensures '.' !in labels[k] && ParseRange(labels[k]) == Range(net[n - 1 - k], net[n - 1 - k])
    {
      DecimalText(net[n - 1 - k]);
    }
    forall i | 0 <= i < n
      ensures ParseLabels(labels)[i] == Ranges(net, n, e)[i]
    {
      assert ParseLabels(labels)[i] == ParseRange(labels[n - 1 - i]);
    }
  }

  /** Parsing the printed name gives the parsed labels. */
  lemma ParsePrinted(labels: seq<string>)
    requires Separable('.', labels)
    ensures ParseName(Join('.', labels + SUFFIX)) == ParseLabels(labels)
  {
    SplitJoin('.', labels + SUFFIX);
    assert (labels + SUFFIX)[..|labels|] == labels;
  }

  lemma {:induction false} Log2OfPow2(k: nat)
    ensures Log2(Pow2(k)) == k
  {
    if k > 0 {
      Log2OfPow2(k - 1);
    }
  }

  // ---------------------------------------------------------------------------------------------
  // What a name says

  lemma NetworkOctets(o: ByteOrder, ip: Word32, p: nat, net: seq<Byte>)
    requires p <= 32 && net == Octets(Ntohl(o, CalcNetwork(o, ip, p)))
    ensures Num(8, net) == RoundDown(Num(8, net), 32 - p) == Ntohl(o, CalcNetwork(o, ip, p))
  {
    OctetsValue(Ntohl(o, CalcNetwork(o, ip, p)));
    NetworkAligned(o, ip, p);
  }

  lemma BroadcastOctets(o: ByteOrder, ip: Word32, p: nat, net: seq<Byte>, bcast: seq<Byte>)
    requires 8 <= p <= 32
    requires net == Octets(Ntohl(o, CalcNetwork(o, ip, p)))
    requires bcast == Octets(Ntohl(o, CalcBroadcast(o, ip, p)))
    ensures bcast[Reach(p) - 1] == net[Reach(p) - 1] + Pow2(Free(p)) - 1
  {
    hide Ntohl, CalcNetwork, CalcBroadcast, Num, RoundDown, Octets;
    NetworkOctets(o, ip, p, net);
    OctetsValue(Ntohl(o, CalcBroadcast(o, ip, p)));
    BroadcastValue(o, ip, p);
    BroadcastOctet(net, bcast, Reach(p), (4 - Reach(p)) * 8, Free(p));
  }

  lemma NetworkAligned(o: ByteOrder, ip: Word32, p: nat)
    requires p <= 32
    ensures var net := Ntohl(o, CalcNetwork(o, ip, p)); RoundDown(net, 32 - p) == net
  {
    NetworkValue(o, ip, p);
    RoundDownTwice(Ntohl(o, ip), 32 - p, 32 - p);
  }

  /** Prefixes below 8 have no name; from 8 on, the name parses to the octet ranges of the block. */
  lemma NameParses(o: ByteOrder, ip: Word32, p: nat, net: seq<Byte>)
    requires p <= 32 && net == Octets(Ntohl(o, CalcNetwork(o, ip, p)))
    ensures ReverseName(o, ip, p).Some? <==> p >= 8
    ensures p >= 8 ==> ParseName(ReverseName(o, ip, p).value) == Ranges(net, Reach(p), Free(p))
  {
    if p >= 8 {
      var bcast := Octets(Ntohl(o, CalcBroadcast(o, ip, p)));
      BroadcastOctets(o, ip, p, net, bcast);
      RangesOfLabels(net, bcast, p);
      ParsePrinted(NameLabels(net, p, net, bcast).value);
    }
  }

  /** The name decodes back to the network and the prefix. */
  lemma NameRoundTrip(o: ByteOrder, ip: Word32, p: nat)
    requires 8 <= p <= 32
    ensures ReverseName(o, ip, p).Some?
    ensures BlockOfRanges(ParseName(ReverseName(o, ip, p).value))
         == Some(Block(Ntohl(o, CalcNetwork(o, ip, p)), p))
  {
    var net := Octets(Ntohl(o, CalcNetwork(o, ip, p)));
    NameParses(o, ip, p, net);
    NetworkOctets(o, ip, p, net);
    BlockOfOctets(net, p);
  }

  /** The name, label by label: the last octet reached or its range, the octets before it in reverse, and
      the zone. */
  lemma LabelsOfName(o: ByteOrder, ip: Word32, p: nat)
    requires 8 <= p <= 32
    ensures ReverseName(o, ip, p).Some?
    ensures var labels, n := Split('.', ReverseName(o, ip, p).value), (p + 7) / 8;
            var net, bcast := Octets(Ntohl(o, CalcNetwork(o, ip, p))), Octets(Ntohl(o, CalcBroadcast(o, ip, p)));
            && |labels| == n + 3 && labels[n..] == ["in-addr", "arpa", ""]
            && labels[0] == (if p % 8 == 0 then Decimal(net[n - 1])
                             else Decimal(net[n - 1]) + "-" + Decimal(bcast[n - 1]))
            && forall k :: 1 <= k < n ==> labels[k] == Decimal(net[n - 1 - k])
  {
    hide Decimal, CalcNetwork, CalcBroadcast, Octets, Ntohl, Join, Split;
    var net, bcast := Octets(Ntohl(o, CalcNetwork(o, ip, p))), Octets(Ntohl(o, CalcBroadcast(o, ip, p)));
    BroadcastOctets(o, ip, p, net, bcast);
    RangesOfLabels(net, bcast, p);
    LabelsShape(net, bcast, p);
    var labels := NameLabels(net, p, net, bcast).value;
    ZoneSeparable();
    SplitJoin('.', labels + SUFFIX);
    assert (labels + SUFFIX)[|labels|..] == SUFFIX;
  }

  lemma ZoneSeparable()
    ensures Separable('.', SUFFIX)
  {
  }

  /** 10.1.2.3/8. */
  lemma NameOfTen(o: ByteOrder, ip: Word32)
    requires Ntohl(o, ip) == 0x0a01_0203
    ensures ReverseName(o, ip, 8) == Some("10.in-addr.arpa.")
  {
    hide Num, CalcNetwork, CalcBroadcast, Ntohl, Join, RoundDown, Decimal, Octets;
    Pow2Small();
    NetworkValue(o, ip, 8);
    RoundDownQuotient(0x0a01_0203, 24, 10, 0x1_0203);
    OctetsOfTen();
    SmallDecimals();
    JoinOne("10");
    assert "10" + ".in-addr.arpa." == "10.in-addr.arpa.";
  }

  /** 192.0.2.77/25. */
  lemma NameOfRange(o: ByteOrder, ip: Word32)
    requires Ntohl(o, ip) == 0xc000_024d
    ensures ReverseName(o, ip, 25) == Some("0-127.2.0.192.in-addr.arpa.")
  {
    hide Num, CalcNetwork, CalcBroadcast, Ntohl, Join, RoundDown, Decimal, Octets;
    Pow2Small();
    NetworkValue(o, ip, 25);
    BroadcastValue(o, ip, 25);
    RoundDownQuotient(0xc000_024d, 7, 0x180_0004, 77);
    OctetsOfRange();
    SmallDecimals();
    assert RangeLabel(0, 127) == "0-127";
    RangeInZone(["0-127", "2", "0", "192"]);
  }

  lemma OctetsOfTen()
    ensures Octets(0x0a00_0000) == [10, 0, 0, 0]
  {
  }

  lemma OctetsOfRange()
    ensures Octets(0xc000_0200) == [192, 0, 2, 0] && Octets(0xc000_027f) == [192, 0, 2, 127]
  {
  }

  lemma RangeInZone(labels: seq<string>)
    requires labels == ["0-127", "2", "0", "192"]
    ensures Join('.', labels + SUFFIX) == "0-127.2.0.192.in-addr.arpa."
  {
    hide Join;
    assert labels + SUFFIX == ["0-127"] + (["2"] + (["0"] + (["192"] + SUFFIX)));
    JoinOne("192");
    JoinMore("0", ["192"] + SUFFIX);
    JoinMore("2", ["0"] + (["192"] + SUFFIX));
    JoinMore("0-127", ["2"] + (["0"] + (["192"] + SUFFIX)));
  }

  lemma SmallDecimals()
    ensures Decimal(10) == "10" && Decimal(0) == "0" && Decimal(2) == "2"
    ensures Decimal(127) == "127" && Decimal(192) == "192"
  {
    assert Decimal(1) == "1" && Decimal(12) == "12" && Decimal(19) == "19";
  }

  lemma JoinMore(first: string, rest: seq<string>)
    requires rest != []
    ensures Join('.', [first] + rest) == first + "." + Join('.', rest)
  {
    assert ([first] + rest)[1..] == rest;
  }

  lemma JoinedZone()
    ensures Join('.', SUFFIX) == "in-addr.arpa."
  {
    assert SUFFIX == ["in-addr"] + (["arpa"] + [""]);
    JoinMore("arpa", [""]);
    JoinMore("in-addr", ["arpa"] + [""]);
  }

  lemma JoinOne(first: string)
    ensures Join('.', [first] + SUFFIX) == first + ".in-addr.arpa."
  {
    JoinedZone();
    JoinMore(first, SUFFIX);
  }

  lemma BlockOfOctets(net: seq<Byte>, p: nat)
    requires |net| == 4 && 8 <= p <= 32 && RoundDown(Num(8, net), 32 - p) == Num(8, net)
    ensures BlockOfRanges(Ranges(net, Reach(p), Free(p))) == Some(Block(Num(8, net), p))
  {
    var n, e := Reach(p), Free(p);
    hide RoundDown, Pow2, Log2, Num;
    var rs := Ranges(net, n, e);
    AlignedOctets(net, n, (4 - n) * 8, e);
    Log2OfPow2(e);
    assert Lower(rs) == net[..n];
    assert rs[n - 1].max - rs[n - 1].min + 1 == Pow2(e);
  }

  /** Names are the same exactly when the networks and prefixes are. */
  lemma NamesInjective(o: ByteOrder, a: Word32, p: nat, b: Word32, q: nat)
    requires 8 <= p <= 32 && 8 <= q <= 32
    ensures ReverseName(o, a, p) == ReverseName(o, b, q)
       <==> p == q && CalcNetwork(o, a, p) == CalcNetwork(o, b, q)
  {
    NameRoundTrip(o, a, p);
    NameRoundTrip(o, b, q);
    NtohlInjective(o, CalcNetwork(o, a, p), CalcNetwork(o, b, q));
  }

  /** An address lies in the block exactly when its octets lie within the ranges of the name. */
  lemma NameCoversBlock(o: ByteOrder, ip: Word32, p: nat, addr: Word32)
    requires 8 <= p <= 32
    ensures ReverseName(o, ip, p).Some?
    ensures InBlock(o, addr, ip, p)
       <==> WithinRanges(ParseName(ReverseName(o, ip, p).value), Octets(Ntohl(o, addr)))
  {
    var net, a := Octets(Ntohl(o, CalcNetwork(o, ip, p))), Octets(Ntohl(o, addr));
    NameParses(o, ip, p, net);
    NetworkOctets(o, ip, p, net);
    OctetsValue(Ntohl(o, addr));
    NetworkOfNetwork(o, ip, p, p);
    NetworksEqual(o, addr, p, CalcNetwork(o, ip, p), p);
    RangesCover(net, a, p);
  }

  lemma RangesCover(net: seq<Byte>, a: seq<Byte>, p: nat)
    requires |net| == |a| == 4 && 8 <= p <= 32 && RoundDown(Num(8, net), 32 - p) == Num(8, net)
    ensures RoundDown(Num(8, a), 32 - p) == RoundDown(Num(8, net), 32 - p)
       <==> WithinRanges(Ranges(net, Reach(p), Free(p)), a)
  {
    var n, e := Reach(p), Free(p);
    AlignedOctets(net, n, (4 - n) * 8, e);
    SameNetworkOctets(a, net, n, (4 - n) * 8, e);
    SameBlock(a[n - 1], net[n - 1], e);
    RangesMeaning(net, a, n, e);
  }

  lemma RangesMeaning(net: seq<Byte>, a: seq<Byte>, n: nat, e: nat)
    requires 1 <= n <= |net| == |a|
    ensures WithinRanges(Ranges(net, n, e), a)
       <==> a[..n - 1] == net[..n - 1] && net[n - 1] <= a[n - 1] <= net[n - 1] + Pow2(e) - 1
  {
  }
}
