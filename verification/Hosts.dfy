/**
 The address arithmetic of get_ipv4_info and get_ipv6_info: host ranges and host counts.
 */
module Hosts {
  import opened Numbers
  import opened Options
  import opened Words
  import opened Masks
  import opened PrefixReaders

  /** The number that p2_table prints; its table ends at 2^127. */
  function P2Table(pow: nat): Option<nat> {
    if pow <= 127 then Some(Pow2(pow)) else None
  }

  // ---------------------------------------------------------------------------------------------
  // IPv4

  /** Addresses are s_addr fields. hosts is None where the C shift has no defined value. */
  datatype Ipv4Info = Ipv4Info(prefix: nat, netmask: Word32, broadcast: Word32, network: Word32,
                               hostMin: Word32, hostMax: Word32, hosts: Option<nat>)

  function DefaultIpv4Prefix(o: ByteOrder, net: Word32): nat {
    var byte1 := Ntohl(o, net) / 0x100_0000;
    if byte1 < 128 then 8 else if byte1 < 192 then 16 else 24
  }

  /** The class prefix grows by one octet for each of the first two leading ones of the address. */
  lemma ClassByLeadingOnes(o: ByteOrder, net: Word32)
    ensures Ntohl(o, net) < Pow2(32)
    ensures DefaultIpv4Prefix(o, net) == 8 + 8 * Min(LeadingOnes(32, Ntohl(o, net)), 2)
  {
    hide Ntohl;
    Pow2Small();
    var h := Ntohl(o, net);
    LeadingOnesMeaning(32, h, 1);
    LeadingOnesMeaning(32, h, 2);
    assert Pow2(31) == 0x8000_0000 && Pow2(30) == 0x4000_0000;
  }

  function Decrement(h: Word32): Word32 {
    if h == 0 then 0xffff_ffff else h - 1
  }

  function HostCount4(prefix: nat): Option<nat>
    requires prefix <= 32
  {
    if prefix >= 31 then P2Table(32 - prefix)
    else if prefix == 0 then None
    else
      Pow2Monotone(1, 32 - prefix);
      Some(Pow2(32 - prefix) - 2)
  }

  function HostMin(o: ByteOrder, network: Word32, p: nat): Word32 {
    if p <= 30 then Htonl(o, Or32(Ntohl(o, network), 1)) else network
  }

  function HostMax(o: ByteOrder, network: Word32, netmask: Word32, p: nat): Word32 {
    var filled := Or32(network, Not32(netmask));
    if p <= 30 then Htonl(o, Decrement(Ntohl(o, filled))) else filled
  }

  function GetIpv4Info(o: ByteOrder, ip: Word32, prefix: int, assumeClass: bool): (r: Option<Ipv4Info>) {
    var p := if prefix >= 0 then prefix else if assumeClass then DefaultIpv4Prefix(o, ip) else 32;
    if p > 32 then None
    else
      var netmask, network := Prefix2Mask(o, p), CalcNetwork(o, ip, p);
      Some(Ipv4Info(p, netmask, CalcBroadcast(o, ip, p), network,
                    if p < 32 then HostMin(o, network, p) else network,
                    if p < 32 then HostMax(o, network, netmask, p) else network,
                    HostCount4(p)))
  }

  lemma SetLowestBit(h: nat, k: nat)
    requires k > 0
    ensures Or(RoundDown(h, k), 1) == RoundDown(h, k) + 1
  {
    var q, r := Divide(h, Pow2(k));
    RoundDownQuotient(h, k, q, r);
    Pow2Monotone(1, k);
    OrLow(q, 1, k);
  }

  /** What the other fields are: no answer above 32; the prefix given, or without one 32 or the class
      prefix; and its mask, network and broadcast around the address. */
  lemma Ipv4InfoValues(o: ByteOrder, ip: Word32, prefix: int, assumeClass: bool)
    ensures var r := GetIpv4Info(o, ip, prefix, assumeClass);
            && (r.None? <==> prefix > 32)
            && (r.Some? ==>
                  var i, h := r.value, Ntohl(o, ip);
                  && h < Pow2(32)
                  && i.prefix == (if prefix >= 0 then prefix
                                  else if assumeClass then 8 + 8 * Min(LeadingOnes(32, h), 2)
                                  else 32)
                  && Ntohl(o, i.netmask) == 0x1_0000_0000 - Pow2(32 - i.prefix)
                  && Ntohl(o, i.network) == h - h % Pow2(32 - i.prefix)
                  && Ntohl(o, i.broadcast) == h - h % Pow2(32 - i.prefix) + Pow2(32 - i.prefix) - 1)
  {
    hide Ntohl, CalcNetwork, CalcBroadcast, Prefix2Mask, HostMin, HostMax, HostCount4, DefaultIpv4Prefix, LeadingOnes;
    ClassByLeadingOnes(o, ip);
    var p := if prefix >= 0 then prefix else if assumeClass then DefaultIpv4Prefix(o, ip) else 32;
    if p <= 32 {
      MaskValue(o, p);
      NetworkValue(o, ip, p);
      BroadcastValue(o, ip, p);
      RoundDownValue(Ntohl(o, ip), 32 - p);
    }
  }

  /** The host range sits inside the block, leaves out exactly the network and the broadcast up to
      prefix 30 and nothing from 31 on, and has as many addresses as the host count says. */
  lemma HostRange4(o: ByteOrder, ip: Word32, prefix: int, assumeClass: bool, i: Ipv4Info)
    requires GetIpv4Info(o, ip, prefix, assumeClass) == Some(i)
    ensures var lo, hi := Ntohl(o, i.hostMin), Ntohl(o, i.hostMax);
            var net, bcast := Ntohl(o, i.network), Ntohl(o, i.broadcast);
            && net <= lo <= hi <= bcast
            && (i.prefix <= 30 ==> lo == net + 1 && hi == bcast - 1)
            && (i.prefix > 30 ==> lo == net && hi == bcast)
            && (i.hosts.None? <==> i.prefix == 0)
            && (i.hosts.Some? ==> i.hosts.value == hi - lo + 1)
  {
    HostEnds(o, ip, i.prefix);
    assert i.prefix == 31 ==> BlockSize(i.prefix) == 2;
  }

  lemma HostEnds(o: ByteOrder, ip: Word32, p: nat)
    requires p <= 32
    ensures var network := CalcNetwork(o, ip, p);
            var net, bcast := Ntohl(o, network), Ntohl(o, CalcBroadcast(o, ip, p));
            var lo := Ntohl(o, HostMin(o, network, p));
            var hi := Ntohl(o, HostMax(o, network, Prefix2Mask(o, p), p));
            && bcast == net + BlockSize(p) - 1
            && (p <= 30 ==> net + 3 <= bcast && lo == net + 1 && hi == bcast - 1)
            && (p > 30 ==> lo == net && hi == bcast)
            && (p == 31 ==> bcast == net + 1)
            && (p == 32 ==> bcast == net)
  {
    BroadcastValue(o, ip, p);
    if p <= 30 {
      InnerHosts(o, ip, p);
    } else {
      Pow2Small();
    }
  }

  /** The first and last host of a block of at least four addresses. */
  lemma InnerHosts(o: ByteOrder, ip: Word32, p: nat)
    requires p <= 30
    ensures var net, bcast := Ntohl(o, CalcNetwork(o, ip, p)), Ntohl(o, CalcBroadcast(o, ip, p));
            && net + 3 <= bcast == net + BlockSize(p) - 1
            && Ntohl(o, Htonl(o, Or32(net, 1))) == net + 1
            && Ntohl(o, Htonl(o, Decrement(bcast))) == bcast - 1
  {
    hide And, Or, Ntohl, Htonl, CalcNetwork, CalcBroadcast;
    var net, bcast := Ntohl(o, CalcNetwork(o, ip, p)), Ntohl(o, CalcBroadcast(o, ip, p));
    NetworkValue(o, ip, p);
    BroadcastValue(o, ip, p);
    Pow2Monotone(2, 32 - p);
    SetLowestBit(Ntohl(o, ip), 32 - p);
    NtohlHtonl(o, Or32(net, 1));
    NtohlHtonl(o, Decrement(bcast));
  }

  // ---------------------------------------------------------------------------------------------
  // IPv6

  datatype Ipv6Info = Ipv6Info(prefix: nat, mask: seq<Byte>, network: seq<Byte>,
                               hostMin: seq<Byte>, hostMax: seq<Byte>, hosts: Option<nat>)

  lemma ShiftedOnes(i: nat)
    requires 0 < i < 8
    ensures (0xff * Pow2(8 - i)) % 256 == 256 - Pow2(8 - i)
  {
    Pow2Small();
  }

  /** The byte for the next eight positions when i ones remain; the shifted byte is truncated. */
  function MaskByte(i: nat): Byte
    requires i > 0
  {
    if i >= 8 then 0xff else (0xff * Pow2(8 - i)) % 256
  }

  /** The bytes before the cursor hold the first bits of the mask, where i bits remain to be set. */
  ghost predicate MaskSoFar(bs: seq<Byte>, i: int) {
    Num(8, bs) == Pow2(|bs| * 8) - Pow2(if i >= 0 then 0 else -i)
  }

  lemma NextMaskByte(bs: seq<Byte>, i: nat)
    requires i > 0 && MaskSoFar(bs, i)
    ensures MaskSoFar(bs + [MaskByte(i)], i - 8)
  {
    if i < 8 {
      ShiftedOnes(i);
    }
    NumSnoc(8, bs, MaskByte(i));
    Pow2Add(|bs| * 8, 8);
    Pow2Small();
    MulDist(Pow2(|bs| * 8), 1, 256);
  }

  /** The bytes that the loop leaves at zero complete the mask. */
  lemma MaskComplete(bs: seq<Byte>, n: nat, w: nat, prefix: nat)
    requires w == |bs| * 8 && prefix <= w && MaskSoFar(bs, prefix - w)
    ensures Num(8, bs + Zeros(n)) == Mask(w + n * 8, prefix)
  {
    ZeroTail(bs, n);
    ScaledMask(w, n * 8, prefix);
  }

  lemma ScaledMask(w: nat, k: nat, p: nat)
    requires p <= w
    ensures (Pow2(w) - Pow2(w - p)) * Pow2(k) == Mask(w + k, p)
  {
    Pow2Add(w, k);
    Pow2Add(w - p, k);
    MulDist(Pow2(w), Pow2(w - p), Pow2(k));
  }

  lemma NoMaskYet(prefix: nat)
    ensures MaskSoFar([], prefix)
  {
  }

  /** The mask bytes read big-endian are 2^128 - 2^(128 - prefix). */
  method Ipv6PrefixToMask(prefix: nat) returns (mask: Option<seq<Byte>>)
    ensures mask.None? <==> prefix > 128
    ensures mask.Some? ==> |mask.value| == 16 && Num(8, mask.value) == Mask(128, prefix)
  {
    hide Num, Mask, MaskByte, MaskSoFar;
    if prefix > 128 {
      return None;
    }
    NoMaskYet(prefix);
    var in6 := new Byte[16](_ => 0);
    var i, j := prefix as int, 0;
    while i > 0
      invariant 0 <= j <= 16 && i == prefix - j * 8
      invariant MaskSoFar(in6[..j], i)
      invariant in6[j..] == Zeros(16 - j)
    {
      ghost var done := in6[..j];
      in6[j] := MaskByte(i);
      NextMaskByte(done, i);
      assert in6[..j + 1] == done + [in6[j]];
      i, j := i - 8, j + 1;
    }
    assert in6[..] == in6[..j] + in6[j..];
    MaskComplete(in6[..j], 16 - j, j * 8, prefix);
    mask := Some(in6[..]);
  }

  /** The two in-place passes of get_ipv6_info over the network bytes. */
  method NetworkAndLast(ip6: seq<Byte>, mask: seq<Byte>) returns (first: seq<Byte>, last: seq<Byte>)
    requires |ip6| == |mask| == 16
    ensures first == AndBytes(ip6, mask)
    ensures last == OrBytes(first, NotBytes(mask))
  {
    var network := new Byte[16](_ => 0);
    for i := 0 to 16
      invariant network[..i] == AndBytes(ip6, mask)[..i]
    {
      network[i] := AndByte(ip6[i], mask[i]);
    }
    first := network[..];
    for i := 0 to 16
      invariant network[..i] == OrBytes(first, NotBytes(mask))[..i]
      invariant network[i..] == first[i..]
    {
      network[i] := OrByte(network[i], 255 - mask[i]);
    }
    last := network[..];
  }

  /** The network and the last address are the ends of the aligned block around the address, and
      the host count, where the table has it, is the number of addresses between them. */
  method GetIpv6Info(ip6: seq<Byte>, prefix: int) returns (r: Option<Ipv6Info>)
    requires |ip6| == 16
    ensures r.None? <==> prefix > 128
    ensures r.Some? ==>
              var i, a := r.value, Num(8, ip6);
              && i.prefix == (if prefix < 0 then 128 else prefix)
              && |i.mask| == |i.network| == |i.hostMin| == |i.hostMax| == 16
              && Num(8, i.mask) == Mask(128, i.prefix)
              && Num(8, i.network) == Num(8, i.hostMin) == RoundDown(a, 128 - i.prefix)
              && Num(8, i.hostMax) == RoundDown(a, 128 - i.prefix) + Pow2(128 - i.prefix) - 1
              && (i.hosts.None? <==> i.prefix == 0)
              && (i.hosts.Some? ==> i.hosts.value == Num(8, i.hostMax) - Num(8, i.hostMin) + 1)
  {
    if prefix > 128 {
      return None;
    }
    var p: nat := if prefix < 0 then 128 else prefix;
    var m := Ipv6PrefixToMask(p);
    var mask := m.value;
    var first, last := NetworkAndLast(ip6, mask);
    BlockOfBytes(ip6, mask, 128, p);
    r := Some(Ipv6Info(p, mask, first, first, if p < 128 then last else first, P2Table(128 - p)));
  }

  lemma BlockOfWord(a: nat, w: nat, p: nat)
    requires p <= w && a < Pow2(w)
    ensures And(a, Mask(w, p)) == RoundDown(a, w - p)
    ensures Or(And(a, Mask(w, p)), Not(w, Mask(w, p))) == RoundDown(a, w - p) + Pow2(w - p) - 1
  {
    AndMask(a, w, p);
    FillLowBits(a, w - p);
  }

  lemma BlockOfBytes(ip: seq<Byte>, mask: seq<Byte>, w: nat, p: nat)
    requires w == |ip| * 8 && |ip| == |mask| && p <= w && Num(8, mask) == Mask(w, p)
    ensures Num(8, AndBytes(ip, mask)) == RoundDown(Num(8, ip), w - p)
    ensures Num(8, OrBytes(AndBytes(ip, mask), NotBytes(mask)))
         == RoundDown(Num(8, ip), w - p) + Pow2(w - p) - 1
  {
    NumBound(8, ip);
    NumAndBytes(ip, mask);
    NumNotBytes(mask);
    NumOrBytes(AndBytes(ip, mask), NotBytes(mask));
    BlockOfWord(Num(8, ip), w, p);
  }

}
