/**
 Powers of two, digit sequences and bitwise operations on unsigned machine words.

 A w-bit unsigned word is a natural number below Pow2(w); the bitwise operators of C are defined
 bit by bit, from the least significant bit up.
 */
module Numbers {

  type Byte = b: nat | b < 256

  function Min(a: nat, b: nat): nat {
    if a <= b then a else b
  }

  function Pow2(k: nat): (r: nat)
    ensures r > 0
  {
    if k == 0 then 1 else 2 * Pow2(k - 1)
  }

  lemma {:induction false} Pow2Add(a: nat, b: nat)
    ensures Pow2(a + b) == Pow2(a) * Pow2(b)
  {
    if a > 0 {
      Pow2Add(a - 1, b);
      assert Pow2(a + b) == 2 * (Pow2(a - 1) * Pow2(b));
    }
  }

  lemma {:induction false} Pow2Monotone(a: nat, b: nat)
    requires a <= b
    ensures Pow2(a) <= Pow2(b)
    ensures a < b ==> Pow2(a) < Pow2(b)
    decreases b
  {
    if a < b {
      Pow2Monotone(a, b - 1);
    }
  }

  lemma Pow2Small()
    ensures Pow2(0) == 1 && Pow2(1) == 2 && Pow2(2) == 4 && Pow2(3) == 8 && Pow2(4) == 16
    ensures Pow2(5) == 32 && Pow2(6) == 64 && Pow2(7) == 128 && Pow2(8) == 256
    ensures Pow2(16) == 0x1_0000 && Pow2(24) == 0x100_0000 && Pow2(32) == 0x1_0000_0000
  {
    assert Pow2(8) == 256;
    Pow2Add(8, 8);
    Pow2Add(8, 16);
    Pow2Add(16, 16);
  }

  // Products of plain numbers: the arithmetic steps that later proofs cite.

  lemma MulAssoc(a: int, b: int, c: int)
    ensures a * (b * c) == (a * b) * c
  {
  }

  lemma MulDist(a: int, b: int, c: int)
    ensures (a + b) * c == a * c + b * c
    ensures (a - b) * c == a * c - b * c
  {
  }

  lemma MulMono(a: int, b: int, c: int)
    requires a <= b && 0 <= c
    ensures a * c <= b * c
  {
  }

  /** The only way to write n as q * d + r with r below d. */
  lemma DivModUnique(n: nat, d: nat, q: nat, r: nat)
    requires r < d && n == q * d + r
    ensures n / d == q && n % d == r
  {
    DivMod(n, d);
    MulDist(n / d, q, d);
    if n / d > q {
      MulMono(1, n / d - q, d);
    } else if n / d < q {
      MulMono(n / d - q, -1, d);
    }
  }

  lemma SameQuotient(h: nat, d: nat, q: nat, r: nat, q': nat, r': nat)
    requires r < d && r' < d && h == q * d + r == q' * d + r'
    ensures q == q' && r == r'
  {
    DivModUnique(h, d, q, r);
    DivModUnique(h, d, q', r');
  }

  lemma DivMod(n: nat, d: nat)
    requires d > 0
    ensures n == (n / d) * d + n % d && 0 <= n % d < d
  {
  }

  lemma Divide(n: nat, d: nat) returns (q: nat, r: nat)
    requires d > 0
    ensures q == n / d && r == n % d && r < d && n == q * d + r
  {
    q, r := n / d, n % d;
  }

  lemma SameFactor(x: nat, y: nat, d: nat)
    requires d > 0 && x * d == y * d
    ensures x == y
  {
  }

  lemma DivBelowProduct(n: nat, d: nat, q: nat)
    requires d > 0 && n < q * d
    ensures n / d < q
  {
  }

  lemma DivBelow(n: nat, k: nat, w: nat)
    requires k <= w && n < Pow2(w)
    ensures n / Pow2(k) < Pow2(w - k)
  {
    Pow2Add(w - k, k);
    DivBelowProduct(n, Pow2(k), Pow2(w - k));
  }

  /** Clearing the low k bits: the largest multiple of Pow2(k) that is not above h. */
  function RoundDown(h: nat, k: nat): (r: nat)
    ensures r <= h
  {
    if k == 0 then h else 2 * RoundDown(h / 2, k - 1)
  }

  lemma {:induction false} RoundDownQuotient(h: nat, k: nat, q: nat, r: nat)
    requires r < Pow2(k) && h == q * Pow2(k) + r
    ensures RoundDown(h, k) == q * Pow2(k) == h - r
  {
    if k > 0 {
      Halve(q, r, k);
      RoundDownQuotient(h / 2, k - 1, q, r / 2);
      MulTwice(q, Pow2(k - 1));
    }
  }

  lemma RoundDownValue(h: nat, k: nat)
    ensures RoundDown(h, k) == h - h % Pow2(k)
  {
    var q, r := Divide(h, Pow2(k));
    RoundDownQuotient(h, k, q, r);
  }

  lemma RoundDownTwice(h: nat, j: nat, k: nat)
    ensures RoundDown(RoundDown(h, k), j) == RoundDown(h, if j <= k then k else j)
  {
    hide RoundDown, Pow2;
    var q, r := Divide(h, Pow2(k));
    RoundDownQuotient(h, k, q, r);
    if j <= k {
      Pow2Add(k - j, j);
      MulAssoc(q, Pow2(k - j), Pow2(j));
      RoundDownQuotient(h - r, j, q * Pow2(k - j), 0);
    } else {
      var q', r' := Divide(q, Pow2(j - k));
      Pow2Add(j - k, k);
      MulDist(q' * Pow2(j - k), r', Pow2(k));
      MulAssoc(q', Pow2(j - k), Pow2(k));
      MulMono(r' + 1, Pow2(j - k), Pow2(k));
      MulDist(r', 1, Pow2(k));
      RoundDownQuotient(h - r, j, q', r' * Pow2(k));
      RoundDownQuotient(h, j, q', r' * Pow2(k) + r);
    }
  }

  lemma {:induction false} RoundDownParts(h: nat, x: nat, y: nat, t: nat, e: nat)
    requires h == x * Pow2(t) + y && y < Pow2(t)
    ensures RoundDown(h, t + e) == RoundDown(x, e) * Pow2(t)
  {
    if t > 0 {
      Halve(x, y, t);
      RoundDownParts(h / 2, x, y / 2, t - 1, e);
      MulTwice(RoundDown(x, e), Pow2(t - 1));
    }
  }

  lemma {:induction false} RoundDownHigh(x: nat, y: nat, w: nat, e: nat)
    requires y < Pow2(w) && e <= w
    ensures RoundDown(x * Pow2(w) + y, e) == x * Pow2(w) + RoundDown(y, e)
  {
    if e > 0 {
      Halve(x, y, w);
      RoundDownHigh(x, y / 2, w - 1, e - 1);
      MulTwice(x, Pow2(w - 1));
    }
  }

  /** A multiple of Pow2(e) below Pow2(w) leaves room for its whole block. */
  lemma {:induction false} AlignedBelow(h: nat, w: nat, e: nat)
    requires e <= w && h < Pow2(w) && RoundDown(h, e) == h
    ensures h + Pow2(e) <= Pow2(w)
  {
    if e > 0 {
      AlignedBelow(h / 2, w - 1, e - 1);
    }
  }

  lemma RoundDownMin(h: nat, w: nat, p: nat, q: nat)
    requires p <= w && q <= w
    ensures RoundDown(RoundDown(h, w - q), w - p) == RoundDown(h, w - Min(p, q))
  {
    RoundDownTwice(h, w - p, w - q);
  }

  /** Two numbers round down to the same multiple exactly when one lies in the other's block. */
  lemma SameBlock(a: nat, b: nat, k: nat)
    ensures RoundDown(a, k) == RoundDown(b, k) <==> RoundDown(b, k) <= a < RoundDown(b, k) + Pow2(k)
  {
  }

  // ---------------------------------------------------------------------------------------------
  // Bitwise operators

  function And(a: nat, b: nat): nat {
    if a == 0 || b == 0 then 0
    else 2 * And(a / 2, b / 2) + if a % 2 == 1 && b % 2 == 1 then 1 else 0
  }

  function Or(a: nat, b: nat): nat
    decreases a + b
  {
    if a == 0 && b == 0 then 0
    else 2 * Or(a / 2, b / 2) + if a % 2 == 1 || b % 2 == 1 then 1 else 0
  }

  /** Bit j, counted from the lowest. */
  function Bit(a: nat, j: nat): (b: nat)
    ensures b < 2
  {
    if j == 0 then a % 2 else Bit(a / 2, j - 1)
  }

  lemma {:induction false} BitsOfAndOr(a: nat, b: nat, j: nat)
    ensures Bit(And(a, b), j) == 1 <==> Bit(a, j) == 1 && Bit(b, j) == 1
    ensures Bit(Or(a, b), j) == 1 <==> Bit(a, j) == 1 || Bit(b, j) == 1
  {
    NoBits(j);
    if j > 0 {
      BitsOfAndOr(a / 2, b / 2, j - 1);
    }
  }

  lemma {:induction false} NoBits(j: nat)
    ensures Bit(0, j) == 0
  {
    if j > 0 {
      NoBits(j - 1);
    }
  }

  /** Complement of a w-bit word. */
  function Not(w: nat, a: nat): (r: nat)
    requires a < Pow2(w)
    ensures r < Pow2(w)
  {
    Pow2(w) - 1 - a
  }

  lemma {:induction false} AndAtMost(a: nat, b: nat)
    ensures And(a, b) <= a && And(a, b) <= b
  {
    if a > 0 && b > 0 {
      AndAtMost(a / 2, b / 2);
    }
  }

  /** Operators act independently on the bits above and below any position. */
  lemma {:induction false} AndSplit(x: nat, y: nat, x': nat, y': nat, k: nat)
    requires y < Pow2(k) && y' < Pow2(k)
    ensures And(x * Pow2(k) + y, x' * Pow2(k) + y') == And(x, x') * Pow2(k) + And(y, y')
  {
    if k > 0 {
      var a, b := x * Pow2(k) + y, x' * Pow2(k) + y';
      var a', b' := x * Pow2(k - 1) + y / 2, x' * Pow2(k - 1) + y' / 2;
      Halve(x, y, k);
      Halve(x', y', k);
      AndStep(a, b, a', b');
      AndStep(y, y', y / 2, y' / 2);
      AndSplit(x, y / 2, x', y' / 2, k - 1);
      MulTwice(And(x, x'), Pow2(k - 1));
    }
  }

  lemma AndStep(a: nat, b: nat, a': nat, b': nat)
    requires a' == a / 2 && b' == b / 2
    ensures And(a, b) == 2 * And(a', b') + if a % 2 == 1 && b % 2 == 1 then 1 else 0
  {
  }

  lemma OrStep(a: nat, b: nat, a': nat, b': nat)
    requires a' == a / 2 && b' == b / 2
    ensures Or(a, b) == 2 * Or(a', b') + if a % 2 == 1 || b % 2 == 1 then 1 else 0
  {
  }

  lemma MulTwice(a: int, b: int)
    ensures a * (2 * b) == 2 * (a * b)
  {
  }

  lemma Halve(x: nat, y: nat, k: nat)
    requires k > 0 && y < Pow2(k)
    ensures (x * Pow2(k) + y) / 2 == x * Pow2(k - 1) + y / 2
    ensures (x * Pow2(k) + y) % 2 == y % 2
    ensures y / 2 < Pow2(k - 1)
  {
  }

  lemma {:induction false} OrSplit(x: nat, y: nat, x': nat, y': nat, k: nat)
    requires y < Pow2(k) && y' < Pow2(k)
    ensures Or(x * Pow2(k) + y, x' * Pow2(k) + y') == Or(x, x') * Pow2(k) + Or(y, y')
    ensures Or(y, y') < Pow2(k)
  {
    if k > 0 {
      var a, b := x * Pow2(k) + y, x' * Pow2(k) + y';
      var a', b' := x * Pow2(k - 1) + y / 2, x' * Pow2(k - 1) + y' / 2;
      Halve(x, y, k);
      Halve(x', y', k);
      OrStep(a, b, a', b');
      OrStep(y, y', y / 2, y' / 2);
      OrSplit(x, y / 2, x', y' / 2, k - 1);
      MulTwice(Or(x, x'), Pow2(k - 1));
    }
  }

  lemma {:induction false} AndOnes(a: nat, k: nat)
    requires a < Pow2(k)
    ensures And(a, Pow2(k) - 1) == a
  {
    if k > 0 {
      AndOnes(a / 2, k - 1);
      AndStep(a, Pow2(k) - 1, a / 2, Pow2(k - 1) - 1);
    }
  }

  lemma {:induction false} OrZero(a: nat)
    ensures Or(a, 0) == a && Or(0, a) == a
  {
    if a > 0 {
      OrZero(a / 2);
    }
  }

  /** The number whose w bits are p ones followed by zeros. */
  function Mask(w: nat, p: nat): (r: nat)
    requires p <= w
    ensures r < Pow2(w)
  {
    Pow2Monotone(w - p, w);
    Pow2(w) - Pow2(w - p)
  }

  /** A mask is its p ones shifted into place. */
  lemma MaskAsProduct(w: nat, p: nat)
    requires p <= w
    ensures Mask(w, p) == (Pow2(p) - 1) * Pow2(w - p)
  {
    Pow2Add(p, w - p);
  }

  lemma AndMask(a: nat, w: nat, p: nat)
    requires p <= w && a < Pow2(w)
    ensures And(a, Mask(w, p)) == RoundDown(a, w - p)
  {
    var q, r := Divide(a, Pow2(w - p));
    DivBelow(a, w - p, w);
    AndMaskParts(a, q, r, w, p);
    RoundDownQuotient(a, w - p, q, r);
  }

  lemma AndMaskParts(a: nat, q: nat, r: nat, w: nat, p: nat)
    requires p <= w && r < Pow2(w - p) && q < Pow2(p) && a == q * Pow2(w - p) + r
    ensures And(a, Mask(w, p)) == q * Pow2(w - p)
  {
    MaskAsProduct(w, p);
    AndSplit(q, r, Pow2(p) - 1, 0, w - p);
    AndOnes(q, p);
    assert And(r, 0) == 0;
  }

  /** Setting the low k bits of a number that has none of them set. */
  lemma OrLow(q: nat, y: nat, k: nat)
    requires y < Pow2(k)
    ensures Or(q * Pow2(k), y) == q * Pow2(k) + y
  {
    hide Or, Pow2;
    OrSplit(q, 0, 0, y, k);
    OrZero(q);
    OrZero(y);
  }

  lemma FillLowBits(h: nat, k: nat)
    ensures Or(RoundDown(h, k), Pow2(k) - 1) == RoundDown(h, k) + Pow2(k) - 1
  {
    var q, r := Divide(h, Pow2(k));
    RoundDownQuotient(h, k, q, r);
    OrLow(q, Pow2(k) - 1, k);
  }

  lemma AndUnit(q: nat)
    ensures And(q, 1) == q % 2
  {
  }

  /** Testing one bit: the word with only bit j set keeps bit j of q * 2^j + r and nothing else. */
  lemma AndOneBitParts(a: nat, q: nat, r: nat, j: nat)
    requires r < Pow2(j) && a == q * Pow2(j) + r
    ensures And(a, Pow2(j)) == (q % 2) * Pow2(j)
  {
    AndSplit(q, r, 1, 0, j);
    AndUnit(q);
    var d := Pow2(j);
    assert 1 * d + 0 == d;
    assert And(r, 0) == 0;
  }

  // ---------------------------------------------------------------------------------------------
  // Digit sequences, most significant first, of k bits a digit

  ghost predicate Digits(k: nat, ds: seq<nat>) {
    forall i :: 0 <= i < |ds| ==> ds[i] < Pow2(k)
  }

  function Num(k: nat, ds: seq<nat>): nat {
    if ds == [] then 0 else Num(k, ds[..|ds| - 1]) * Pow2(k) + ds[|ds| - 1]
  }

  lemma NumSnoc(k: nat, ds: seq<nat>, d: nat)
    ensures Num(k, ds + [d]) == Num(k, ds) * Pow2(k) + d
  {
  }

  lemma {:induction false} NumBound(k: nat, ds: seq<nat>)
    requires Digits(k, ds)
    ensures Num(k, ds) < Pow2(|ds| * k)
  {
    if ds != [] {
      var n := |ds| - 1;
      NumBound(k, ds[..n]);
      MulDist(n, 1, k);
      Pow2Add(n * k, k);
      MulMono(Num(k, ds[..n]) + 1, Pow2(n * k), Pow2(k));
      MulDist(Num(k, ds[..n]), 1, Pow2(k));
    }
  }

  lemma {:induction false} NumAppend(k: nat, a: seq<nat>, b: seq<nat>)
    ensures Num(k, a + b) == Num(k, a) * Pow2(|b| * k) + Num(k, b)
  {
    if b == [] {
      assert a + b == a;
    } else {
      var n := |b| - 1;
      NumAppend(k, a, b[..n]);
      assert (a + b)[..|a| + n] == a + b[..n];
      MulDist(n, 1, k);
      Pow2Add(n * k, k);
      MulAssoc(Num(k, a), Pow2(n * k), Pow2(k));
      MulDist(Num(k, a) * Pow2(n * k), Num(k, b[..n]), Pow2(k));
    }
  }

  /** Equally long digit sequences with the same value are the same. */
  lemma {:induction false} NumInjective(k: nat, a: seq<nat>, b: seq<nat>)
    requires |a| == |b| && Digits(k, a) && Digits(k, b) && Num(k, a) == Num(k, b)
    ensures a == b
  {
    if a != [] {
      var n := |a| - 1;
      DivModUnique(Num(k, a), Pow2(k), Num(k, a[..n]), a[n]);
      DivModUnique(Num(k, b), Pow2(k), Num(k, b[..n]), b[n]);
      NumInjective(k, a[..n], b[..n]);
      assert a == a[..n] + [a[n]] && b == b[..n] + [b[n]];
    }
  }

  /** Taking the value of bytes apart at byte i. */
  lemma SplitBytes(bs: seq<Byte>, i: nat)
    requires i <= |bs|
    ensures Num(8, bs[..i]) < Pow2(i * 8) && Num(8, bs[i..]) < Pow2((|bs| - i) * 8)
    ensures Num(8, bs) == Num(8, bs[..i]) * Pow2((|bs| - i) * 8) + Num(8, bs[i..])
  {
    var a, b := bs[..i], bs[i..];
    assert Pow2(8) == 256 && bs == a + b;
    hide Num, Pow2;
    NumBound(8, a);
    NumBound(8, b);
    NumAppend(8, a, b);
  }

  lemma SplitTail(bs: seq<Byte>, n: nat, t: nat)
    requires n <= |bs| && t == (|bs| - n) * 8
    ensures Num(8, bs) == Num(8, bs[..n]) * Pow2(t) + Num(8, bs[n..]) && Num(8, bs[n..]) < Pow2(t)
  {
    SplitBytes(bs, n);
  }

  /** Bytewise AND and OR of byte sequences. */
  function AndBytes(a: seq<Byte>, b: seq<Byte>): (r: seq<Byte>)
    requires |a| == |b|
    ensures |r| == |a|
  {
    seq(|a|, i requires 0 <= i < |a| => AndByte(a[i], b[i]))
  }

  function AndByte(a: Byte, b: Byte): Byte {
    AndAtMost(a, b);
    And(a, b)
  }

  function OrByte(a: Byte, b: Byte): Byte {
    OrSplit(0, a, 0, b, 8);
    Or(a, b)
  }

  lemma {:induction false} NumAndBytes(a: seq<Byte>, b: seq<Byte>)
    requires |a| == |b|
    ensures Num(8, AndBytes(a, b)) == And(Num(8, a), Num(8, b))
  {
    if a != [] {
      var n := |a| - 1;
      NumAndBytes(a[..n], b[..n]);
      assert AndBytes(a, b)[..n] == AndBytes(a[..n], b[..n]);
      AndSplit(Num(8, a[..n]), a[n], Num(8, b[..n]), b[n], 8);
    }
  }

  function OrBytes(a: seq<Byte>, b: seq<Byte>): (r: seq<Byte>)
    requires |a| == |b|
    ensures |r| == |a|
  {
    seq(|a|, i requires 0 <= i < |a| => OrByte(a[i], b[i]))
  }

  lemma {:induction false} NumOrBytes(a: seq<Byte>, b: seq<Byte>)
    requires |a| == |b|
    ensures Num(8, OrBytes(a, b)) == Or(Num(8, a), Num(8, b))
  {
    if a != [] {
      var n := |a| - 1;
      NumOrBytes(a[..n], b[..n]);
      assert OrBytes(a, b)[..n] == OrBytes(a[..n], b[..n]);
      OrSplit(Num(8, a[..n]), a[n], Num(8, b[..n]), b[n], 8);
    }
  }

  function NotBytes(a: seq<Byte>): (r: seq<Byte>)
    ensures |r| == |a|
  {
    seq(|a|, i requires 0 <= i < |a| => 255 - a[i])
  }

  lemma Complement(p: int, x: int, d: int, y: int)
    ensures (p - 1 - x) * d + (d - 1 - y) == p * d - 1 - (x * d + y)
  {
  }

  lemma {:induction false} NumNotBytes(a: seq<Byte>)
    ensures Num(8, a) < Pow2(|a| * 8)
    ensures Num(8, NotBytes(a)) == Not(|a| * 8, Num(8, a))
  {
    NumBound(8, a);
    if a != [] {
      var n := |a| - 1;
      NumNotBytes(a[..n]);
      assert NotBytes(a)[..n] == NotBytes(a[..n]);
      Pow2Add(n * 8, 8);
      Complement(Pow2(n * 8), Num(8, a[..n]), Pow2(8), a[n]);
    }
  }

  /** The last w base-256 digits of a number. */
  function BytesOf(w: nat, n: nat): (bs: seq<Byte>)
    ensures |bs| == w
  {
    if w == 0 then [] else BytesOf(w - 1, n / 256) + [n % 256]
  }

  lemma {:induction false} NumOfBytesOf(w: nat, n: nat)
    requires n < Pow2(w * 8)
    ensures Num(8, BytesOf(w, n)) == n
  {
    if w > 0 {
      var q, r := Divide(n, 256);
      assert w * 8 == (w - 1) * 8 + 8;
      Pow2Add((w - 1) * 8, 8);
      DivBelowProduct(n, Pow2(8), Pow2((w - 1) * 8));
      NumOfBytesOf(w - 1, q);
      NumSnoc(8, BytesOf(w - 1, q), r);
    }
  }

  lemma BytesOfNum(bs: seq<Byte>)
    ensures BytesOf(|bs|, Num(8, bs)) == bs
  {
    NumBound(8, bs);
    NumOfBytesOf(|bs|, Num(8, bs));
    NumInjective(8, BytesOf(|bs|, Num(8, bs)), bs);
  }

  function Zeros(n: nat): (r: seq<Byte>)
    ensures |r| == n
  {
    seq(n, _ => 0)
  }

  lemma {:induction false} NumOfZeros(n: nat)
    ensures Num(8, Zeros(n)) == 0
  {
    if n > 0 {
      assert Zeros(n) == Zeros(n - 1) + [0];
      NumOfZeros(n - 1);
      NumSnoc(8, Zeros(n - 1), 0);
    }
  }

  lemma ZeroTail(bs: seq<Byte>, n: nat)
    ensures Num(8, bs + Zeros(n)) == Num(8, bs) * Pow2(n * 8)
  {
    NumAppend(8, bs, Zeros(n));
    NumOfZeros(n);
  }
}
