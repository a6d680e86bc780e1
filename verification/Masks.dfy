/**
 IPv4 masks, networks and broadcasts (section 3.1 of RFC 4632). An address is the s_addr field: a
 32-bit word in network byte order, whatever the host's own order is. Ntohl gives its value.
 */
module Masks {
  import opened Numbers
  import opened Words

  function Prefix2Mask(o: ByteOrder, prefix: nat): Word32
    requires prefix <= 32
  {
    if prefix != 0 then
      Pow2Small();
      Pow2Monotone(32 - prefix, 32);
      Htonl(o, Not32(Pow2(32 - prefix) - 1))
    else
      Htonl(o, 0)
  }

  function CalcNetwork(o: ByteOrder, addr: Word32, prefix: nat): Word32
    requires prefix <= 32
  {
    And32(addr, Prefix2Mask(o, prefix))
  }

  function CalcBroadcast(o: ByteOrder, addr: Word32, prefix: nat): Word32
    requires prefix <= 32
  {
    var mask := Prefix2Mask(o, prefix);
    Or32(And32(addr, mask), Not32(mask))
  }

  /** The number of addresses in a block. */
  function BlockSize(prefix: nat): (n: nat)
    requires prefix <= 32
    ensures 1 <= n <= 0x1_0000_0000
  {
    Pow2Small();
    Pow2Monotone(32 - prefix, 32);
    Pow2(32 - prefix)
  }

  lemma MaskValue(o: ByteOrder, prefix: nat)
    requires prefix <= 32
    ensures Ntohl(o, Prefix2Mask(o, prefix)) == Mask(32, prefix) == 0x1_0000_0000 - BlockSize(prefix)
  {
    Pow2Small();
    NtohlHtonl(o, Mask(32, prefix));
  }

  /** The network is the largest multiple of the block size that is not above the address. */
  lemma NetworkValue(o: ByteOrder, addr: Word32, prefix: nat)
    requires prefix <= 32
    ensures Ntohl(o, CalcNetwork(o, addr, prefix)) == RoundDown(Ntohl(o, addr), 32 - prefix)
  {
    hide And, Ntohl, Htonl;
    Pow2Small();
    var mask := Prefix2Mask(o, prefix);
    MaskValue(o, prefix);
    NtohlBitwise(o, addr, mask);
    assert Ntohl(o, CalcNetwork(o, addr, prefix)) == And(Ntohl(o, addr), Mask(32, prefix));
    AndMask(Ntohl(o, addr), 32, prefix);
  }

  lemma HostMaskValue(o: ByteOrder, prefix: nat)
    requires prefix <= 32
    ensures Ntohl(o, Not32(Prefix2Mask(o, prefix))) == BlockSize(prefix) - 1
  {
    MaskValue(o, prefix);
    NtohlBitwise(o, Prefix2Mask(o, prefix), 0);
  }

  /** The broadcast is the last address before the next block. */
  lemma BroadcastValue(o: ByteOrder, addr: Word32, prefix: nat)
    requires prefix <= 32
    ensures Ntohl(o, CalcBroadcast(o, addr, prefix))
         == Ntohl(o, CalcNetwork(o, addr, prefix)) + BlockSize(prefix) - 1
  {
    hide And, Or, Ntohl, RoundDown, Prefix2Mask;
    HostMaskValue(o, prefix);
    NetworkValue(o, addr, prefix);
    NtohlBitwise(o, CalcNetwork(o, addr, prefix), Not32(Prefix2Mask(o, prefix)));
    FillLowBits(Ntohl(o, addr), 32 - prefix);
  }

  /** Masking word by word in either host order is the same computation up to the byte swap. */
  lemma HostOrderDoesNotMatter(o: ByteOrder, h: Word32, prefix: nat)
    requires prefix <= 32
    ensures CalcNetwork(o, Htonl(o, h), prefix) == Htonl(o, CalcNetwork(BigEndian, h, prefix))
    ensures CalcBroadcast(o, Htonl(o, h), prefix) == Htonl(o, CalcBroadcast(BigEndian, h, prefix))
  {
    var n, b := CalcNetwork(BigEndian, h, prefix), CalcBroadcast(BigEndian, h, prefix);
    NtohlHtonl(o, h);
    NtohlHtonl(o, n);
    NtohlHtonl(o, b);
    NtohlHtonl(BigEndian, h);
    BigEndianIsIdentity(h);
    BigEndianIsIdentity(n);
    BigEndianIsIdentity(b);
    NetworkValue(o, Htonl(o, h), prefix);
    NetworkValue(BigEndian, h, prefix);
    BroadcastValue(o, Htonl(o, h), prefix);
    BroadcastValue(BigEndian, h, prefix);
    NtohlInjective(o, CalcNetwork(o, Htonl(o, h), prefix), Htonl(o, n));
    NtohlInjective(o, CalcBroadcast(o, Htonl(o, h), prefix), Htonl(o, b));
  }

  lemma BigEndianIsIdentity(h: Word32)
    ensures Ntohl(BigEndian, h) == h
  {
    Pow2Small();
    LoadStore(BigEndian, 4, h);
  }

  /** Networks are compared by value. */
  lemma NetworksEqual(o: ByteOrder, a: Word32, p: nat, b: Word32, q: nat)
    requires p <= 32 && q <= 32
    ensures CalcNetwork(o, a, p) == CalcNetwork(o, b, q)
       <==> RoundDown(Ntohl(o, a), 32 - p) == RoundDown(Ntohl(o, b), 32 - q)
  {
    NetworkValue(o, a, p);
    NetworkValue(o, b, q);
    NtohlInjective(o, CalcNetwork(o, a, p), CalcNetwork(o, b, q));
  }

  /** Masking twice is masking once, with the shorter prefix. */
  lemma NetworkOfNetwork(o: ByteOrder, addr: Word32, p: nat, q: nat)
    requires p <= 32 && q <= 32
    ensures CalcNetwork(o, CalcNetwork(o, addr, q), p) == CalcNetwork(o, addr, Min(p, q))
  {
    hide CalcNetwork, RoundDown, Ntohl;
    NetworkValue(o, addr, q);
    RoundDownMin(Ntohl(o, addr), 32, p, q);
    NetworksEqual(o, CalcNetwork(o, addr, q), p, addr, Min(p, q));
  }

  /** Two addresses have the same network exactly when one lies between the other's network and
      broadcast. */
  lemma SameNetworkIffInRange(o: ByteOrder, a: Word32, b: Word32, prefix: nat)
    requires prefix <= 32
    ensures CalcNetwork(o, a, prefix) == CalcNetwork(o, b, prefix)
       <==> Ntohl(o, CalcNetwork(o, b, prefix)) <= Ntohl(o, a) <= Ntohl(o, CalcBroadcast(o, b, prefix))
  {
    NetworkValue(o, b, prefix);
    BroadcastValue(o, b, prefix);
    NetworksEqual(o, a, prefix, b, prefix);
    SameBlock(Ntohl(o, a), Ntohl(o, b), 32 - prefix);
  }

  ghost predicate InBlock(o: ByteOrder, x: Word32, net: Word32, prefix: nat)
    requires prefix <= 32
  {
    CalcNetwork(o, x, prefix) == CalcNetwork(o, net, prefix)
  }

  /** Blocks nest: any two are disjoint, or one lies inside the other. */
  lemma BlocksNest(o: ByteOrder, a: Word32, p: nat, b: Word32, q: nat)
    requires p <= 32 && q <= 32
    ensures || (forall x: Word32 :: !(InBlock(o, x, a, p) && InBlock(o, x, b, q)))
            || (forall x: Word32 :: InBlock(o, x, b, q) ==> InBlock(o, x, a, p))
            || (forall x: Word32 :: InBlock(o, x, a, p) ==> InBlock(o, x, b, q))
  {
    if p <= q {
      ShorterPrefixCoarser(o, a, p, b, q);
    } else {
      ShorterPrefixCoarser(o, b, q, a, p);
    }
  }

  lemma ShorterPrefixCoarser(o: ByteOrder, a: Word32, p: nat, b: Word32, q: nat)
    requires p <= q <= 32
    ensures forall x: Word32 :: InBlock(o, x, b, q) ==> (InBlock(o, x, a, p) <==> InBlock(o, b, a, p))
  {
    forall x: Word32 | InBlock(o, x, b, q)
      ensures InBlock(o, x, a, p) <==> InBlock(o, b, a, p)
    {
      NetworkOfNetwork(o, x, p, q);
      NetworkOfNetwork(o, b, p, q);
    }
  }
}
