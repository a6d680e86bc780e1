/**
 The three independent ways back from a mask to its prefix length: counting a run of ones, counting
 the leading ones, and finding the last set bit. Each loop computes a recursive function on the
 value, and the functions are compared on every value.
 */
module PrefixReaders {
  import opened Numbers
  import opened Words
  import opened Masks

  // ---------------------------------------------------------------------------------------------
  // bit_count

  ghost predicate IsRun(m: nat, c: nat) {
    exists s: nat :: m == RunAt(c, s)
  }

  /** c ones, shifted left by s: (2^c - 1) * 2^s. */
  ghost function RunAt(c: nat, s: nat): nat {
    if s == 0 then Pow2(c) - 1 else 2 * RunAt(c, s - 1)
  }

  lemma {:induction false} RunValue(c: nat, s: nat)
    ensures RunAt(c, s) == (Pow2(c) - 1) * Pow2(s)
    ensures c > 0 ==> RunAt(c, s) > 0 && RunAt(c, 0) % 2 == 1
    ensures c == 0 ==> RunAt(c, s) == 0
  {
    if s > 0 {
      RunValue(c, s - 1);
      MulTwice(Pow2(c) - 1, Pow2(s - 1));
    }
  }

  /** The length of a run of ones that starts at bit 0 and has nothing above it, or -1. */
  function OnesLength(m: nat): (c: int)
    ensures c >= -1
  {
    if m == 0 then 0
    else if m % 2 == 0 then -1
    else var c := OnesLength(m / 2); if c < 0 then -1 else c + 1
  }

  /** The length of the only run of ones in m, or -1 when m has more than one run. */
  function RunLength(m: nat): (c: int)
    ensures c >= -1
  {
    if m == 0 then 0 else if m % 2 == 0 then RunLength(m / 2) else OnesLength(m)
  }

  lemma {:induction false} OnesLengthMeaning(m: nat, c: nat)
    ensures OnesLength(m) == c <==> m == Pow2(c) - 1
  {
    if m > 0 && m % 2 == 1 && c > 0 {
      OnesLengthMeaning(m / 2, c - 1);
    }
  }

  lemma RunOfEven(m: nat, c: nat)
    requires m > 0 && m % 2 == 0
    ensures IsRun(m, c) <==> IsRun(m / 2, c)
  {
    RunValue(c, 0);
    if s: nat :| m == RunAt(c, s) {
      assert s > 0 && m / 2 == RunAt(c, s - 1);
    }
    if s: nat :| m / 2 == RunAt(c, s) {
      assert m == RunAt(c, s + 1);
    }
  }

  lemma RunOfOdd(m: nat, c: nat)
    requires m % 2 == 1
    ensures IsRun(m, c) <==> m == Pow2(c) - 1
  {
    assert RunAt(c, 0) == Pow2(c) - 1;
  }

  lemma RunOfZero(c: nat)
    ensures IsRun(0, c) <==> c == 0
  {
    RunValue(0, 0);
    if s: nat :| 0 == RunAt(c, s) {
      RunValue(c, s);
    }
  }

  lemma {:induction false} RunLengthMeaning(m: nat, c: nat)
    ensures RunLength(m) == c <==> IsRun(m, c)
  {
    if m == 0 {
      RunOfZero(c);
    } else if m % 2 == 1 {
      RunOfOdd(m, c);
      OnesLengthMeaning(m, c);
    } else {
      RunOfEven(m, c);
      RunLengthMeaning(m / 2, c);
    }
  }

  method BitCount(m: Word32) returns (c: int)
    ensures c == RunLength(m)
  {
    c := 0;
    var seenOne := false;
    var i: nat := m;
    while i > 0
      invariant c >= 0
      invariant !seenOne ==> c == 0 && RunLength(m) == RunLength(i)
      invariant seenOne ==> RunLength(m) == if OnesLength(i) < 0 then -1 else c + OnesLength(i)
    {
      AndUnit(i);
      if And(i, 1) != 0 {
        seenOne := true;
        c := c + 1;
      } else if seenOne {
        return -1;
      }
      i := i / 2;
    }
  }

  method Mask2Prefix(o: ByteOrder, mask: Word32) returns (prefix: int)
    ensures prefix == RunLength(Ntohl(o, mask))
  {
    prefix := BitCount(Ntohl(o, mask));
  }

  /** mask2prefix undoes prefix2mask. */
  lemma Mask2PrefixOfPrefix2Mask(o: ByteOrder, p: nat)
    requires p <= 32
    ensures RunLength(Ntohl(o, Prefix2Mask(o, p))) == p
  {
    MaskValue(o, p);
    RunLengthOfMask(32, p);
  }

  lemma RunLengthOfMask(w: nat, p: nat)
    requires p <= w
    ensures RunLength(Mask(w, p)) == p
  {
    MaskAsProduct(w, p);
    RunValue(p, w - p);
    RunLengthMeaning(Mask(w, p), p);
  }

  // ---------------------------------------------------------------------------------------------
  // Leading ones

  /** The number of ones before the first zero, from the top bit of a w-bit value. */
  function LeadingOnes(w: nat, m: nat): (p: nat)
    requires m < Pow2(w)
    ensures p <= w
  {
    if w == 0 || m < Pow2(w - 1) then 0 else 1 + LeadingOnes(w - 1, m - Pow2(w - 1))
  }

  lemma {:induction false} LeadingOnesMeaning(w: nat, m: nat, p: nat)
    requires m < Pow2(w) && p <= w
    ensures LeadingOnes(w, m) >= p <==> m >= Mask(w, p)
  {
    if p > 0 {
      Pow2Monotone(w - p, w - 1);
      if m >= Pow2(w - 1) {
        LeadingOnesMeaning(w - 1, m - Pow2(w - 1), p - 1);
      }
    }
  }

  /** With p leading ones known, the bit test on the next position decides whether there are p + 1. */
  lemma NextBit(w: nat, m: nat, p: nat)
    requires p < w && m < Pow2(w) && m >= Mask(w, p)
    ensures And(m, Pow2(w - 1 - p)) != 0 <==> m >= Mask(w, p + 1)
  {
    var d, ones, r := Pow2(w - 1 - p), Pow2(p) - 1, m - Mask(w, p);
    MaskAsProduct(w, p);
    MulTwice(ones, d);
    MulAssoc(2, ones, d);
    if m >= Mask(w, p + 1) {
      MulDist(2 * ones, 1, d);
      AndOneBitParts(m, 2 * ones + 1, r - d, w - 1 - p);
    } else {
      AndOneBitParts(m, 2 * ones, r, w - 1 - p);
    }
  }

  /** The loop of the IPv4 branch, over the low end of a w-bit value. */
  method CountLeadingOnes(w: nat, m: nat) returns (prefixLen: nat)
    requires m < Pow2(w)
    ensures prefixLen == LeadingOnes(w, m)
  {
    prefixLen := 0;
    while prefixLen < w && And(m, Pow2(w - 1 - prefixLen)) != 0
      invariant prefixLen <= w && m >= Mask(w, prefixLen)
    {
      NextBit(w, m, prefixLen);
      prefixLen := prefixLen + 1;
    }
    LeadingOnesMeaning(w, m, prefixLen);
    if prefixLen < w {
      NextBit(w, m, prefixLen);
      LeadingOnesMeaning(w, m, prefixLen + 1);
    }
  }

  method NetmaskToPrefix4(o: ByteOrder, netmask: Word32) returns (prefixLen: nat)
    ensures Ntohl(o, netmask) < Pow2(32)
    ensures prefixLen == LeadingOnes(32, Ntohl(o, netmask))
  {
    Pow2Small();
    prefixLen := CountLeadingOnes(32, Ntohl(o, netmask));
  }

  /** The leading ones of a value in two parts. */
  lemma {:induction false} LeadingOnesConcat(a: nat, x: nat, b: nat, y: nat)
    requires x < Pow2(a) && y < Pow2(b)
    ensures x * Pow2(b) + y < Pow2(a + b)
    ensures LeadingOnes(a + b, x * Pow2(b) + y)
         == if x == Pow2(a) - 1 then a + LeadingOnes(b, y) else LeadingOnes(a, x)
  {
    Pow2Add(a, b);
    MulMono(x + 1, Pow2(a), Pow2(b));
    MulDist(x, 1, Pow2(b));
    if a > 0 {
      Pow2Add(a - 1, b);
      MulDist(x, Pow2(a - 1), Pow2(b));
      if x < Pow2(a - 1) {
        MulMono(x + 1, Pow2(a - 1), Pow2(b));
      } else {
        MulMono(Pow2(a - 1), x, Pow2(b));
        LeadingOnesConcat(a - 1, x - Pow2(a - 1), b, y);
      }
    }
  }

  lemma LeadingOnesParts(w: nat, m: nat, a: nat, x: nat, b: nat, y: nat)
    requires x < Pow2(a) && y < Pow2(b)
    requires w == a + b && m == x * Pow2(b) + y
    ensures m < Pow2(w)
    ensures LeadingOnes(w, m) == if x == Pow2(a) - 1 then a + LeadingOnes(b, y) else LeadingOnes(a, x)
  {
    LeadingOnesConcat(a, x, b, y);
  }

  lemma OnesGrow(netmask: seq<Byte>, i: nat)
    requires i < |netmask| && netmask[i] == 0xff && Num(8, netmask[..i]) == Pow2(i * 8) - 1
    ensures Num(8, netmask[..i + 1]) == Pow2((i + 1) * 8) - 1
  {
    NumSnoc(8, netmask[..i], 0xff);
    assert netmask[..i + 1] == netmask[..i] + [0xff];
    Pow2Add(i * 8, 8);
    assert Pow2(8) == 256;
  }

  /** After i bytes of ones, the ones of the next byte decide, unless there is no next byte. */
  lemma LeadingOnesAtByte(netmask: seq<Byte>, i: nat)
    requires i < |netmask| && netmask[i] != 0xff && Num(8, netmask[..i]) == Pow2(i * 8) - 1
    ensures Num(8, netmask) < Pow2(|netmask| * 8)
    ensures netmask[i] < Pow2(8)
    ensures LeadingOnes(|netmask| * 8, Num(8, netmask)) == i * 8 + LeadingOnes(8, netmask[i])
  {
    var ones, rest := Num(8, netmask[..i]), Num(8, netmask[i..]);
    SplitBytes(netmask, i);
    LeadByteOnes(netmask, i);
    LeadingOnesParts(|netmask| * 8, Num(8, netmask), i * 8, ones, (|netmask| - i) * 8, rest);
  }

  lemma LeadByteOnes(netmask: seq<Byte>, i: nat)
    requires i < |netmask| && netmask[i] != 0xff
    ensures netmask[i] < Pow2(8) && Num(8, netmask[i..]) < Pow2((|netmask| - i) * 8)
    ensures LeadingOnes((|netmask| - i) * 8, Num(8, netmask[i..])) == LeadingOnes(8, netmask[i])
  {
    var tail := Num(8, netmask[i..][1..]);
    LeadByte(netmask, i);
    NumBound(8, netmask[i..][1..]);
    LeadingOnesParts((|netmask| - i) * 8, Num(8, netmask[i..]), 8, netmask[i], (|netmask| - i - 1) * 8, tail);
  }

  lemma LeadByte(netmask: seq<Byte>, i: nat)
    requires i < |netmask|
    ensures netmask[i] < Pow2(8) == 256
    ensures Num(8, netmask[i..]) == netmask[i] * Pow2((|netmask| - i - 1) * 8) + Num(8, netmask[i..][1..])
  {
    var rest := netmask[i..];
    SplitBytes(rest, 1);
    assert rest[..1] == [netmask[i]] && Num(8, [netmask[i]]) == netmask[i];
  }

  method NetmaskToPrefix6(netmask: seq<Byte>) returns (prefixLen: nat)
    requires |netmask| == 16
    ensures Num(8, netmask) < Pow2(128)
    ensures prefixLen == LeadingOnes(128, Num(8, netmask))
  {
    prefixLen := 0;
    var i := 0;
    NumBound(8, netmask);
    while i < 16 && netmask[i] == 0xff
      invariant i <= 16 && prefixLen == i * 8
      invariant Num(8, netmask[..i]) == Pow2(i * 8) - 1
    {
      OnesGrow(netmask, i);
      prefixLen := prefixLen + 8;
      i := i + 1;
    }
    if i < 16 {
      LeadingOnesAtByte(netmask, i);
      var t := CountLeadingOnes(8, netmask[i]);
      prefixLen := prefixLen + t;
    } else {
      assert netmask[..16] == netmask;
      LeadingOnesMeaning(128, Num(8, netmask), 128);
    }
  }

  // ---------------------------------------------------------------------------------------------
  // Last set bit

  /** The position after the last set bit of a w-bit value, counted from the top; 0 for zero. */
  function LastSetBit(w: nat, m: nat): (p: nat)
    requires m < Pow2(w)
    ensures p <= w
  {
    if m == 0 then 0 else if m % 2 == 1 then w else LastSetBit(w - 1, m / 2)
  }

  lemma {:induction false} LastSetBitSuffix(p: nat, k: nat, m: nat)
    requires m < Pow2(p + k)
    ensures LastSetBit(p + k, m) <= p <==> m % Pow2(k) == 0
  {
    if k > 0 {
      LastSetBitHalves(m, k - 1);
      if m % 2 == 0 {
        LastSetBitSuffix(p, k - 1, m / 2);
      }
    }
  }

  /** LastSetBit is the least p such that clearing every bit after the first p changes nothing. */
  lemma LastSetBitMeaning(w: nat, m: nat, p: nat)
    requires m < Pow2(w) && p <= w
    ensures LastSetBit(w, m) <= p <==> m % Pow2(w - p) == 0
  {
    LastSetBitSuffix(p, w - p, m);
  }

  lemma LastSetBitHalves(m: nat, k: nat)
    ensures m % Pow2(k + 1) == 0 <==> m % 2 == 0 && (m / 2) % Pow2(k) == 0
  {
    var d := Pow2(k);
    var q, r := Divide(m, Pow2(k + 1));
    MulTwice(q, d);
    assert m == 2 * (q * d) + r;
    if m % 2 == 0 {
      DivModUnique(m / 2, d, q, r / 2);
    }
  }

  // ---------------------------------------------------------------------------------------------
  // Agreement

  lemma MultipleInLastBlock(m: nat, w: nat, p: nat)
    requires p <= w && Mask(w, p) <= m < Pow2(w) && m % Pow2(w - p) == 0
    ensures m == Mask(w, p)
  {
    var d := Pow2(w - p);
    MaskAsProduct(w, p);
    DivModUnique(m, d, Pow2(p) - 1, m - Mask(w, p));
  }

  /** On a real mask every reader gives its prefix. */
  lemma ReadersOnMask(w: nat, p: nat)
    requires p <= w
    ensures LeadingOnes(w, Mask(w, p)) == LastSetBit(w, Mask(w, p)) == RunLength(Mask(w, p)) == p
  {
    var m := Mask(w, p);
    RunLengthOfMask(w, p);
    LeadingOnesMeaning(w, m, p);
    MaskAsProduct(w, p);
    DivModUnique(m, Pow2(w - p), Pow2(p) - 1, 0);
    LastSetBitMeaning(w, m, p);
    if p < w {
      Pow2Monotone(w - p - 1, w - p);
      LeadingOnesMeaning(w, m, p + 1);
    }
    if p > 0 {
      Pow2Monotone(w - p, w);
      assert Pow2(w - p + 1) == 2 * Pow2(w - p);
      MulTwice(Pow2(p - 1) - 1, Pow2(w - p));
      MulAssoc(2, Pow2(p - 1) - 1, Pow2(w - p));
      MulDist(2 * (Pow2(p - 1) - 1), 1, Pow2(w - p));
      DivModUnique(m, Pow2(w - p + 1), Pow2(p - 1) - 1, Pow2(w - p));
      LastSetBitMeaning(w, m, p - 1);
    }
  }

  /** The leading ones and the last set bit agree exactly on the masks. */
  lemma LeadingOnesVersusLastSetBit(w: nat, m: nat)
    requires m < Pow2(w)
    ensures LeadingOnes(w, m) == LastSetBit(w, m) <==> exists p :: 0 <= p <= w && m == Mask(w, p)
  {
    var p := LeadingOnes(w, m);
    if p == LastSetBit(w, m) {
      LeadingOnesMeaning(w, m, p);
      LastSetBitMeaning(w, m, p);
      MultipleInLastBlock(m, w, p);
    }
    if p :| 0 <= p <= w && m == Mask(w, p) {
      ReadersOnMask(w, p);
    }
  }

  /** The run length and the leading ones agree exactly on the masks. */
  lemma RunLengthVersusLeadingOnes(w: nat, m: nat)
    requires m < Pow2(w)
    ensures RunLength(m) == LeadingOnes(w, m) <==> exists p :: 0 <= p <= w && m == Mask(w, p)
  {
    var p := LeadingOnes(w, m);
    if p == RunLength(m) {
      RunLengthMeaning(m, p);
      var s: nat :| m == RunAt(p, s);
      LeadingOnesMeaning(w, m, p);
      RunWithTopBit(w, p, s);
    }
    if p :| 0 <= p <= w && m == Mask(w, p) {
      ReadersOnMask(w, p);
    }
  }

  /** A run of ones that is no mask: bit_count takes it, the leading ones do not. */
  lemma RunInTheMiddle()
    ensures 0x00ff_ff00 < Pow2(32)
    ensures RunLength(0x00ff_ff00) == 16 && LeadingOnes(32, 0x00ff_ff00) == 0
  {
    Pow2Small();
    assert Pow2(31) == 0x8000_0000;
    RunValue(16, 8);
    RunLengthMeaning(0x00ff_ff00, 16);
  }

  /** A run of p ones that fits in w bits and reaches as high as the mask of p is that mask. */
  lemma RunWithTopBit(w: nat, p: nat, s: nat)
    requires p <= w && Mask(w, p) <= RunAt(p, s) < Pow2(w)
    ensures RunAt(p, s) == Mask(w, p)
  {
    MaskAsProduct(w, p);
    RunValue(p, w - p);
    if p > 0 {
      if s < w - p {
        RunGrows(p, s, w - p);
      } else if s > w - p {
        RunTooHigh(w, p, s);
      }
    }
  }

  lemma RunTooHigh(w: nat, p: nat, s: nat)
    requires 0 < p <= w && s > w - p
    ensures RunAt(p, s) >= Pow2(w)
  {
  }

  lemma RunGrows(c: nat, s: nat, t: nat)
    requires c > 0 && s <= t
    ensures RunAt(c, s) <= RunAt(c, t)
    ensures s < t ==> RunAt(c, s) < RunAt(c, t)
  {
  }
}
