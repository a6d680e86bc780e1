/**
 generate_ip_network (ipcalc -r) and the address-space classifiers that the generated network is
 then shown with.
 */
module Generate {
  import opened Numbers
  import opened Words
  import opened Masks

  function Ipv4NetToType(net: seq<Byte>): string
    requires |net| == 4
  {
    var byte1, byte2, byte3, byte4 := net[0], net[1], net[2], net[3];
    if byte1 == 0 then "This host on this network"
    else if byte1 == 10 then "Private Use"
    else if byte1 == 100 && And(byte2, 0xc0) == 64 then "Shared Address Space"
    else if byte1 == 127 then "Loopback"
    else if byte1 == 169 && byte2 == 254 then "Link Local"
    else if byte1 == 172 && And(byte2, 0xf0) == 16 then "Private Use"
    else if byte1 == 192 && byte2 == 0 && byte3 == 0 then "IETF Protocol Assignments"
    else if byte1 == 192 && byte2 == 2 && byte3 == 0 then "Documentation (TEST-NET-1)"
    else if byte1 == 192 && byte2 == 51 && byte3 == 100 then "Documentation (TEST-NET-2)"
    else if byte1 == 203 && byte2 == 0 && byte3 == 113 then "Documentation (TEST-NET-3)"
    else if byte1 == 192 && byte2 == 88 && byte3 == 99 then "6 to 4 Relay Anycast (Deprecated)"
    else if byte1 == 192 && byte2 == 52 && byte3 == 193 then "AMT"
    else if byte1 == 192 && byte2 == 168 then "Private Use"
    else if byte1 == 255 && byte2 == 255 && byte3 == 255 && byte4 == 255 then "Limited Broadcast"
    else if byte1 == 198 && And(byte2, 0xfe) == 18 then "Benchmarking"
    else if 224 <= byte1 <= 239 then "Multicast"
    else if And(byte1, 0xf0) == 240 then "Reserved"
    else "Internet"
  }

  function Ipv6NetToType(net: seq<Byte>, prefix: nat): string
    requires |net| == 16
  {
    var word1, word2 := net[0] as int * 256 + net[1], net[2] as int * 256 + net[3];
    var zeros := seq(16, _ => 0);
    if prefix == 128 && net == zeros[15 := 1] then "Loopback Address"
    else if prefix == 128 && net == zeros then "Unspecified Address"
    else if prefix >= 96 && net[..12] == zeros[..10] + [0xff, 0xff] then "IPv4-mapped Address"
    else if prefix >= 96 && net[..12] == [0x00, 0x64, 0xff, 0x9b] + zeros[..8] then "IPv4-IPv6 Translat."
    else if prefix >= 96 && net[..12] == [0x10] + zeros[..11] then "Discard-Only Address Block"
    else if And(word1, 0xfffe) == 0x2001 && word2 == 0 then "IETF Protocol Assignments"
    else if And(word1, 0xe000) == 0x2000 then "Global Unicast"
    else if And(net[0], 0xfe) == 0xfc then "Unique Local Unicast"
    else if And(word1, 0xffc0) == 0xfe80 then "Link-Scoped Unicast"
    else if net[0] == 0xff then "Multicast"
    else if And(word1, 0xfffe) == 0x2002 then "6to4"
    else "Reserved"
  }

  /** The blocks of private use that a network of this prefix may be drawn from: 10/8, and from prefix 16
      on also 172.16/12 and 192.168/16. */
  predicate InPrivateSpace(net: seq<Byte>, prefix: nat)
    requires |net| == 4
  {
    net[0] == 10 || (prefix >= 16 && ((net[0] == 172 && 16 <= net[1] < 32) || (net[0] == 192 && net[1] == 168)))
  }

  /** The IPv4 branch: four random bytes, overwritten at the front according to the clock. The address
      lies in private space, the clock alone chooses the block and the twelve-bit block inside 172.16/12,
      the bytes behind stay random, and the network shown for it is of private use exactly from prefix 7
      on. */
  method GenerateIpv4(prefix: nat, random: seq<Byte>, nsec: nat) returns (net: seq<Byte>)
    requires |random| == 4
    ensures |net| == 4 && InPrivateSpace(net, prefix)
    ensures net[0] == 192 <==> prefix >= 16 && nsec % 4 == 1
    ensures net[0] == 172 <==> prefix >= 16 && nsec % 4 == 0
    ensures net[0] == 172 ==> net[1] == 16 + nsec / 16 % 16
    ensures net[2..] == random[2..] && (net[0] == 10 ==> net[1] == random[1])
    ensures prefix <= 32 ==>
              forall masked: seq<Byte> :: IsNetworkOf(masked, net, prefix) ==>
                (Ipv4NetToType(masked) == "Private Use" <==> prefix >= 7)
  {
    var c := nsec % 4;
    var bytes := new Byte[4](i requires 0 <= i < 4 => random[i]);
    if prefix >= 16 && c < 2 {
      if c == 1 {
        bytes[0] := 192;
        bytes[1] := 168;
      } else {
        bytes[0] := 172;
        bytes[1] := OrByte(16, nsec / 16 % 16);
      }
    } else {
      bytes[0] := 10;
    }
    net := bytes[..];
    assert net[2..] == random[2..];
    LowNibbleOf16(nsec / 16 % 16);
    if prefix <= 32 {
      forall masked: seq<Byte> | IsNetworkOf(masked, net, prefix)
        ensures Ipv4NetToType(masked) == "Private Use" <==> prefix >= 7
      {
        GeneratedIpv4IsPrivate(prefix, net, masked);
      }
    }
  }

  ghost predicate IsNetworkOf(masked: seq<Byte>, net: seq<Byte>, prefix: nat)
    requires prefix <= 32
  {
    |masked| == 4 && Num(8, masked) == RoundDown(Num(8, net), 32 - prefix)
  }

  /** The IPv6 branch: the lowest clock bit chooses fc00::/8 or fd00::/8, and the fifteen bytes behind are
      the random ones. */
  function Generated6(random: seq<Byte>, nsec: nat): (net: seq<Byte>)
    requires |random| == 15
    ensures |net| == 16 && net[1..] == random
    ensures net[0] == if nsec % 2 == 0 then 0xfc else 0xfd
  {
    LowestBitOfFc(nsec % 2);
    [OrByte(0xfc, nsec % 2)] + random
  }

  // ---------------------------------------------------------------------------------------------
  // What masking does to the leading bytes

  /** Bytes that the prefix covers whole survive masking. */
  lemma CoveredBytes(x: seq<Byte>, y: seq<Byte>, w: nat, n: nat, p: nat)
    requires |x| == |y| && w == |x| * 8 && n <= |x| && n * 8 <= p <= w
    requires Num(8, y) == RoundDown(Num(8, x), w - p)
    ensures y[..n] == x[..n]
  {
    hide Num, RoundDown;
    var t := (|x| - n) * 8;
    SplitTail(x, n, t);
    SplitTail(y, n, t);
    var q, r := Num(8, x[..n]), Num(8, x[n..]);
    RoundDownHigh(q, r, t, w - p);
    SameQuotient(Num(8, y), Pow2(t), Num(8, y[..n]), Num(8, y[n..]), q, RoundDown(r, w - p));
    NumInjective(8, y[..n], x[..n]);
  }

  /** A prefix that ends in the first byte masks that byte. */
  lemma FirstByte(x: seq<Byte>, y: seq<Byte>, w: nat, p: nat)
    requires |x| == |y| > 0 && w == |x| * 8 && p <= 8
    requires Num(8, y) == RoundDown(Num(8, x), w - p)
    ensures y[0] == RoundDown(x[0], 8 - p)
  {
    var t := (|x| - 1) * 8;
    OneByte(x, t);
    OneByte(y, t);
    hide Num, RoundDown;
    RoundDownParts(Num(8, x), x[0], Num(8, x[1..]), t, 8 - p);
    SameQuotient(Num(8, y), Pow2(t), y[0], Num(8, y[1..]), RoundDown(x[0], 8 - p), 0);
  }

  lemma OneByte(x: seq<Byte>, t: nat)
    requires |x| > 0 && t == (|x| - 1) * 8
    ensures Num(8, x) == x[0] * Pow2(t) + Num(8, x[1..]) && Num(8, x[1..]) < Pow2(t)
  {
    SplitTail(x, 1, t);
    assert x[..1] == [] + [x[0]];
    NumSnoc(8, [], x[0]);
  }

  // ---------------------------------------------------------------------------------------------
  // The generated networks stay in the private spaces

  /** Masked to its prefix, an address of the private space is of private use exactly from prefix 7 on. */
  lemma GeneratedIpv4IsPrivate(prefix: nat, g: seq<Byte>, net: seq<Byte>)
    requires prefix <= 32 && |g| == 4 && InPrivateSpace(g, prefix) && IsNetworkOf(net, g, prefix)
    ensures Ipv4NetToType(net) == "Private Use" <==> prefix >= 7
  {
    if prefix >= 16 {
      CoveredBytes(g, net, 32, 2, prefix);
      assert net[0] == g[0] && net[1] == g[1] by {
        assert net[0] == net[..2][0] && g[0] == g[..2][0];
        assert net[1] == net[..2][1] && g[1] == g[..2][1];
      }
      if g[0] == 172 {
        HighNibbleOf16(g[1] - 16);
      }
    } else if prefix > 8 {
      CoveredBytes(g, net, 32, 1, prefix);
      assert net[0] == net[..1][0] && g[0] == g[..1][0];
    } else {
      FirstByte(g, net, 32, prefix);
      TenRounded(prefix);
    }
  }

  lemma LowNibbleOf16(x: nat)
    requires x < 16
    ensures OrByte(16, x) == 16 + x
  {
    Pow2Small();
    OrLow(1, x, 4);
  }

  lemma HighNibbleOf16(x: nat)
    requires x < 16
    ensures And(16 + x, 0xf0) == 16
  {
    Pow2Small();
    AndMask(16 + x, 8, 4);
    RoundDownQuotient(16 + x, 4, 1, x);
  }

  lemma TenRounded(p: nat)
    requires p <= 8
    ensures RoundDown(10, 8 - p) == if p >= 7 then 10 else if p >= 5 then 8 else 0
  {
  }

  /** The same with the word that memcpy makes of the bytes and the network that calc_network makes of
      the word. */
  lemma GeneratedIpv4Network(o: ByteOrder, prefix: nat, g: seq<Byte>, addr: Word32)
    requires prefix <= 32 && |g| == 4 && InPrivateSpace(g, prefix) && addr == Load(o, g)
    ensures Ipv4NetToType(Octets(Ntohl(o, CalcNetwork(o, addr, prefix)))) == "Private Use" <==> prefix >= 7
  {
    hide Ipv4NetToType, And, Num, RoundDown, Octets, CalcNetwork, InPrivateSpace;
    StoreLoad(o, g);
    assert Ntohl(o, addr) == Num(8, g);
    NetworkValue(o, addr, prefix);
    OctetsValue(Ntohl(o, CalcNetwork(o, addr, prefix)));
    GeneratedIpv4IsPrivate(prefix, g, Octets(Ntohl(o, CalcNetwork(o, addr, prefix))));
  }

  /** What the bit tests before the unique local one, and that one, say about the first byte. */
  lemma BitTests(b: Byte, word1: nat)
    requires b * 256 <= word1 < b * 256 + 256
    ensures And(word1, 0xfffe) != 0x2001
    ensures b >= 0xfc ==> And(word1, 0xe000) != 0x2000
    ensures And(b, 0xfe) == 0xfc <==> b == 0xfc || b == 0xfd
  {
    hide And;
    Pow2Small();
    assert Pow2(13) == 8192;
    AndMask(word1, 16, 15);
    AndMask(word1, 16, 3);
    AndMask(b, 8, 7);
    assert RoundDown(word1, 1) == word1 / 2 * 2 && RoundDown(b, 1) == b / 2 * 2;
    if b >= 0xfc {
      RoundDownAtLeast(word1, 7, 13);
    }
  }

  /** The first byte alone decides: no earlier branch takes 0xfc or 0xfd, and no other byte passes. */
  lemma UniqueLocalByFirstByte(net: seq<Byte>, prefix: nat)
    requires |net| == 16
    ensures Ipv6NetToType(net, prefix) == "Unique Local Unicast" <==> net[0] == 0xfc || net[0] == 0xfd
  {
    hide And;
    BitTests(net[0], net[0] as int * 256 + net[1]);
  }

  /** Rounding down does not go below a multiple. */
  lemma {:induction false} RoundDownAtLeast(h: nat, q: nat, k: nat)
    requires q * Pow2(k) <= h
    ensures q * Pow2(k) <= RoundDown(h, k)
  {
    if k > 0 {
      MulTwice(q, Pow2(k - 1));
      RoundDownAtLeast(h / 2, q, k - 1);
    }
  }

  /** Masked to its prefix, a generated IPv6 address is unique local exactly from prefix 6 on. */
  lemma GeneratedIpv6IsUniqueLocal(prefix: nat, random: seq<Byte>, nsec: nat, net: seq<Byte>)
    requires prefix <= 128 && |random| == 15 && |net| == 16
    requires Num(8, net) == RoundDown(Num(8, Generated6(random, nsec)), 128 - prefix)
    ensures Ipv6NetToType(net, prefix) == "Unique Local Unicast" <==> prefix >= 6
  {
    hide Ipv6NetToType, Num;
    var g := Generated6(random, nsec);
    LowestBitOfFc(nsec % 2);
    UniqueLocalByFirstByte(net, prefix);
    if prefix > 8 {
      CoveredBytes(g, net, 128, 1, prefix);
      assert net[0] == net[..1][0] && g[0] == g[..1][0];
    } else {
      FirstByte(g, net, 128, prefix);
      FcRounded(nsec % 2, prefix);
    }
  }

  lemma LowestBitOfFc(b: nat)
    requires b < 2
    ensures OrByte(0xfc, b) == 0xfc + b
  {
    assert Pow2(1) == 2;
    OrLow(126, b, 1);
  }

  lemma FcRounded(b: nat, p: nat)
    requires b < 2 && p <= 8
    ensures RoundDown(0xfc + b, 8 - p) == 0xfc || RoundDown(0xfc + b, 8 - p) == 0xfd <==> p >= 6
  {
    var x := 0xfc + b;
    Pow2Small();
    if p >= 6 {
      assert RoundDown(x, 0) == x;
      RoundDownQuotient(x, 1, 126, b);
      RoundDownQuotient(x, 2, 63, b);
    } else {
      RoundDownQuotient(x, 3, 31, 4 + b);
      RoundDownTwice(x, 8 - p, 3);
      assert RoundDown(x, 8 - p) <= 0xf8;
    }
  }
}
