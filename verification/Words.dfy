/**
 How multi-byte integers sit in memory. The sources are compiled for one host byte order; every
 statement here is for both.
 */
module Words {
  import opened Numbers

  datatype ByteOrder = BigEndian | LittleEndian

  function Reversed(bs: seq<Byte>): (r: seq<Byte>)
    ensures |r| == |bs|
  {
    seq(|bs|, i requires 0 <= i < |bs| => bs[|bs| - 1 - i])
  }

  lemma ReversedTwice(bs: seq<Byte>)
    ensures Reversed(Reversed(bs)) == bs
  {
  }

  /** The integer that the host reads from the bytes. */
  function Load(o: ByteOrder, bs: seq<Byte>): (n: nat)
    ensures n < Pow2(|bs| * 8)
  {
    var be := if o.BigEndian? then bs else Reversed(bs);
    NumBound(8, be);
    Num(8, be)
  }

  /** The w bytes that the host writes for an integer. */
  function Store(o: ByteOrder, w: nat, n: nat): (bs: seq<Byte>)
    ensures |bs| == w
  {
    if o.BigEndian? then BytesOf(w, n) else Reversed(BytesOf(w, n))
  }

  lemma LoadStore(o: ByteOrder, w: nat, n: nat)
    requires n < Pow2(w * 8)
    ensures Load(o, Store(o, w, n)) == n
  {
    NumOfBytesOf(w, n);
    ReversedTwice(BytesOf(w, n));
  }

  lemma StoreLoad(o: ByteOrder, bs: seq<Byte>)
    ensures Store(o, |bs|, Load(o, bs)) == bs
  {
    BytesOfNum(bs);
    BytesOfNum(Reversed(bs));
    ReversedTwice(bs);
  }

  type Word32 = n: nat | n < 0x1_0000_0000

  function Htonl(o: ByteOrder, h: Word32): Word32 {
    Pow2Small();
    Load(o, Store(BigEndian, 4, h))
  }

  function Ntohl(o: ByteOrder, n: Word32): Word32 {
    Pow2Small();
    Load(BigEndian, Store(o, 4, n))
  }

  lemma NtohlHtonl(o: ByteOrder, h: Word32)
    ensures Ntohl(o, Htonl(o, h)) == h
  {
    Pow2Small();
    StoreLoad(o, Store(BigEndian, 4, h));
    LoadStore(BigEndian, 4, h);
  }

  lemma HtonlNtohl(o: ByteOrder, n: Word32)
    ensures Htonl(o, Ntohl(o, n)) == n
  {
    Pow2Small();
    StoreLoad(BigEndian, Store(o, 4, n));
    LoadStore(o, 4, n);
  }

  lemma NtohlInjective(o: ByteOrder, a: Word32, b: Word32)
    ensures Ntohl(o, a) == Ntohl(o, b) <==> a == b
  {
    HtonlNtohl(o, a);
    HtonlNtohl(o, b);
  }

  function And32(a: Word32, b: Word32): Word32 {
    AndAtMost(a, b);
    And(a, b)
  }

  function Or32(a: Word32, b: Word32): Word32 {
    Pow2Small();
    OrSplit(0, a, 0, b, 32);
    Or(a, b)
  }

  function Not32(a: Word32): Word32 {
    0xffff_ffff - a
  }

  // Swapping bytes commutes with the bitwise operators.

  lemma LoadAnd(o: ByteOrder, a: seq<Byte>, b: seq<Byte>)
    requires |a| == |b|
    ensures Load(o, AndBytes(a, b)) == And(Load(o, a), Load(o, b))
  {
    NumAndBytes(a, b);
    NumAndBytes(Reversed(a), Reversed(b));
    assert Reversed(AndBytes(a, b)) == AndBytes(Reversed(a), Reversed(b));
  }

  lemma LoadOr(o: ByteOrder, a: seq<Byte>, b: seq<Byte>)
    requires |a| == |b|
    ensures Load(o, OrBytes(a, b)) == Or(Load(o, a), Load(o, b))
  {
    NumOrBytes(a, b);
    NumOrBytes(Reversed(a), Reversed(b));
    assert Reversed(OrBytes(a, b)) == OrBytes(Reversed(a), Reversed(b));
  }

  lemma LoadNot(o: ByteOrder, a: seq<Byte>)
    ensures Load(o, NotBytes(a)) == Not(|a| * 8, Load(o, a))
  {
    hide Num, Pow2, Not;
    NumNotBytes(a);
    NumNotBytes(Reversed(a));
    assert Reversed(NotBytes(a)) == NotBytes(Reversed(a));
  }

  /** Converting the byte order commutes with AND, OR and complement. */
  lemma NtohlBitwise(o: ByteOrder, x: Word32, y: Word32)
    ensures Ntohl(o, And32(x, y)) == And32(Ntohl(o, x), Ntohl(o, y))
    ensures Ntohl(o, Or32(x, y)) == Or32(Ntohl(o, x), Ntohl(o, y))
    ensures Ntohl(o, Not32(x)) == Not32(Ntohl(o, x))
  {
    Pow2Small();
    var a, b := Store(o, 4, x), Store(o, 4, y);
    LoadStore(o, 4, x);
    LoadStore(o, 4, y);
    LoadAnd(o, a, b);
    LoadOr(o, a, b);
    LoadNot(o, a);
    StoreLoad(o, AndBytes(a, b));
    StoreLoad(o, OrBytes(a, b));
    StoreLoad(o, NotBytes(a));
    LoadAnd(BigEndian, a, b);
    LoadOr(BigEndian, a, b);
    LoadNot(BigEndian, a);
  }

  /** The four octets of an address value, most significant first, by shift and mask. */
  function Octets(h: Word32): (bs: seq<Byte>)
    ensures |bs| == 4
  {
    [h / 0x100_0000 % 256, h / 0x1_0000 % 256, h / 0x100 % 256, h % 256]
  }

  lemma OctetsAreBytes(h: Word32)
    ensures Octets(h) == BytesOf(4, h)
  {
    var q := h / 256;
    var r := q / 256;
    var s := r / 256;
    assert h / 0x1_0000 == r && h / 0x100_0000 == s;
    assert BytesOf(1, s) == [] + [s % 256];
    assert BytesOf(2, r) == BytesOf(1, s) + [r % 256];
    assert BytesOf(3, q) == BytesOf(2, r) + [q % 256];
  }

  lemma OctetsValue(h: Word32)
    ensures Num(8, Octets(h)) == h
  {
    Pow2Small();
    OctetsAreBytes(h);
    NumOfBytesOf(4, h);
  }

  /** Small integers in memory. */
  lemma StoreSmall(b: Byte)
    ensures Store(LittleEndian, 2, b) == [b, 0] && Store(BigEndian, 2, b) == [0, b]
    ensures Store(LittleEndian, 4, b) == [b, 0, 0, 0] && Store(BigEndian, 4, b) == [0, 0, 0, b]
  {
    assert BytesOf(1, 0) == [] + [0] && BytesOf(2, 0) == BytesOf(1, 0) + [0];
    assert BytesOf(3, 0) == BytesOf(2, 0) + [0];
    assert BytesOf(4, b) == BytesOf(3, 0) + [b] && BytesOf(2, b) == BytesOf(1, 0) + [b];
  }
}
