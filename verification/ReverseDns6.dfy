/**
 The IP6.ARPA zone name of an IPv6 network (section 2.5 of RFC 3596).
 */
module ReverseDns6 {
  import opened Numbers
  import opened Options
  import opened Labels

  /** The nibbles of a byte sequence, most significant first. */
  function Nibbles(bs: seq<Byte>): (ns: seq<nat>)
    ensures |ns| == 2 * |bs|
    ensures Digits(4, ns)
  {
    if bs == [] then []
    else
      Pow2Small();
      Nibbles(bs[..|bs| - 1]) + [bs[|bs| - 1] / 16, bs[|bs| - 1] % 16]
  }

  lemma {:induction false} NibblesAt(bs: seq<Byte>, i: nat)
    requires i < |bs|
    ensures Nibbles(bs)[2 * i] == bs[i] / 16 && Nibbles(bs)[2 * i + 1] == bs[i] % 16
  {
    if i < |bs| - 1 {
      NibblesAt(bs[..|bs| - 1], i);
    }
  }

  lemma {:induction false} NumNibbles(bs: seq<Byte>)
    ensures Num(4, Nibbles(bs)) == Num(8, bs)
  {
    if bs != [] {
      var n, b := |bs| - 1, bs[|bs| - 1];
      NumNibbles(bs[..n]);
      NumSnoc(4, Nibbles(bs[..n]), b / 16);
      NumSnoc(4, Nibbles(bs[..n]) + [b / 16], b % 16);
      assert Nibbles(bs) == Nibbles(bs[..n]) + [b / 16] + [b % 16];
      TwoNibbles(Num(8, bs[..n]), b);
    }
  }

  lemma TwoNibbles(x: nat, b: Byte)
    ensures (x * Pow2(4) + b / 16) * Pow2(4) + b % 16 == x * Pow2(8) + b
  {
  }

  /** Each nibble as a hexadecimal digit and a dot, the last nibble first. */
  function Dotted(ns: seq<nat>): (s: string)
    requires Digits(4, ns)
    ensures |s| == 2 * |ns|
  {
    if ns == [] then "" else Dotted(ns[1..]) + [HexLower(ns[0]), '.']
  }

  lemma {:induction false} DottedAt(ns: seq<nat>, i: nat)
    requires Digits(4, ns) && i < |ns|
    ensures Dotted(ns)[2 * (|ns| - 1 - i)] == HexLower(ns[i])
    ensures Dotted(ns)[2 * (|ns| - 1 - i) + 1] == '.'
  {
    if i > 0 {
      DottedAt(ns[1..], i - 1);
    }
  }

  lemma DottedInjective(a: seq<nat>, b: seq<nat>)
    requires Digits(4, a) && Digits(4, b) && |a| == |b| && Dotted(a) == Dotted(b)
    ensures a == b
  {
    forall i | 0 <= i < |a|
      ensures a[i] == b[i]
    {
      DottedAt(a, i);
      DottedAt(b, i);
    }
  }

  const SUFFIX := "ip6.arpa."

  /** The name is the first prefix / 4 nibbles, last first, then the suffix; it is missing when the
      prefix is not on a nibble boundary. */
  method CalcReverseDns6(ip: seq<Byte>, prefix: nat) returns (name: Option<string>)
    requires |ip| == 16 && prefix <= 128
    ensures name.None? <==> prefix % 4 != 0
    ensures name.Some? ==> name.value == Dotted(Nibbles(ip)[..prefix / 4]) + SUFFIX
    ensures name.Some? ==> |name.value| == 2 * (prefix / 4) + 9 < 256
  {
    hide HexLower, Nibbles, Dotted;
    var str := new char[256];
    var max, j := prefix / 8, 0;
    if prefix % 4 != 0 {
      return None;
    }
    ghost var n := prefix / 4;
    NibbleCount(prefix);
    assert Nibbles(ip)[..n][n..] == [];
    if prefix % 8 == 4 {
      HighNibble(ip, max);
      j := PutDigit(str, j, ip[(prefix + 4) / 8 - 1] / 16);
    }
    for i := 0 to max
      invariant j == 2 * (n - 2 * (max - i))
      invariant str[..j] == DottedFrom(ip, n, 2 * (max - i))
    {
      BothNibbles(ip, n, max - 1 - i);
      j := PutDigit(str, j, ip[max - 1 - i] % 16);
      j := PutDigit(str, j, ip[max - 1 - i] / 16);
    }
    PutSuffix(str, j);
    assert Nibbles(ip)[..n][0..] == Nibbles(ip)[..n];
    name := Some(str[..j + |SUFFIX|]);
  }

  lemma NibbleCount(prefix: nat)
    requires prefix % 4 == 0 && prefix <= 128
    ensures prefix / 4 == 2 * (prefix / 8) + (if prefix % 8 == 4 then 1 else 0) <= 32
    ensures prefix % 8 == 4 ==> (prefix + 4) / 8 - 1 == prefix / 8 < 16
  {
  }

  /** What has been printed when the nibbles before position k are still to come. */
  ghost function DottedFrom(ip: seq<Byte>, n: nat, k: nat): string
    requires k <= n <= 2 * |ip|
  {
    Dotted(Nibbles(ip)[..n][k..])
  }

  lemma HighNibble(ip: seq<Byte>, b: nat)
    requires b < |ip|
    ensures DottedFrom(ip, 2 * b + 1, 2 * b) == [HexLower(ip[b] / 16), '.']
  {
    var ns := Nibbles(ip)[..2 * b + 1];
    NibblesAt(ip, b);
    DottedStep(ns, 2 * b);
    assert ns[2 * b + 1..] == [];
  }

  /** The two nibbles of byte b come out low nibble first. */
  lemma BothNibbles(ip: seq<Byte>, n: nat, b: nat)
    requires 2 * b + 2 <= n <= 2 * |ip|
    ensures DottedFrom(ip, n, 2 * b) == DottedFrom(ip, n, 2 * b + 2) + [HexLower(ip[b] % 16), '.']
                                        + [HexLower(ip[b] / 16), '.']
  {
    var ns := Nibbles(ip)[..n];
    NibblesAt(ip, b);
    DottedStep(ns, 2 * b);
    DottedStep(ns, 2 * b + 1);
  }

  method PutDigit(str: array<char>, j: nat, d: nat) returns (next: nat)
    requires j + 2 <= str.Length && d < 16
    modifies str
    ensures next == j + 2
    ensures str[..next] == old(str[..j]) + [HexLower(d), '.']
  {
    str[j] := HexLower(d);
    str[j + 1] := '.';
    next := j + 2;
  }

  /** strcpy of the suffix with its terminator. */
  method PutSuffix(str: array<char>, j: nat)
    requires j + |SUFFIX| < str.Length
    modifies str
    ensures str[..j + |SUFFIX|] == old(str[..j]) + SUFFIX
  {
    for k := 0 to |SUFFIX|
      invariant str[..j + k] == old(str[..j]) + SUFFIX[..k]
    {
      str[j + k] := SUFFIX[k];
    }
    str[j + |SUFFIX|] := '\0';
  }

  lemma DottedStep(ns: seq<nat>, i: nat)
    requires Digits(4, ns) && i < |ns|
    ensures Dotted(ns[i..]) == Dotted(ns[i + 1..]) + [HexLower(ns[i]), '.']
  {
  }

  /** One label for each nibble, the last nibble first. */
  function DigitLabels(ns: seq<nat>): (labels: seq<string>)
    requires Digits(4, ns)
    ensures |labels| == |ns|
  {
    seq(|ns|, i requires 0 <= i < |ns| => [HexLower(ns[|ns| - 1 - i])])
  }

  lemma {:induction false} LabelsOfDotted(ns: seq<nat>, rest: string)
    requires Digits(4, ns)
    ensures Split('.', Dotted(ns) + rest) == DigitLabels(ns) + Split('.', rest)
    decreases |ns|
  {
    if ns == [] {
      assert Dotted(ns) + rest == rest;
    } else {
      var digit := [HexLower(ns[0])];
      var rest' := digit + ['.'] + rest;
      calc {
        Split('.', Dotted(ns) + rest);
        { assert Dotted(ns) + rest == Dotted(ns[1..]) + rest'; }
        Split('.', Dotted(ns[1..]) + rest');
        { LabelsOfDotted(ns[1..], rest'); }
        DigitLabels(ns[1..]) + Split('.', rest');
        { SplitAtSeparator('.', digit, rest); }
        DigitLabels(ns[1..]) + ([digit] + Split('.', rest));
        { assert DigitLabels(ns) == DigitLabels(ns[1..]) + [digit]; }
        DigitLabels(ns) + Split('.', rest);
      }
    }
  }

  /** The labels of the zone name: the nibbles right to left, then ip6, arpa and the root. */
  lemma LabelsOfName(ip: seq<Byte>, prefix: nat)
    requires |ip| == 16 && prefix <= 128
    ensures var n := prefix / 4;
            var labels := Split('.', Dotted(Nibbles(ip)[..n]) + SUFFIX);
            && |labels| == n + 3 && labels[n..] == ["ip6", "arpa", ""]
            && forall i :: 0 <= i < n ==> labels[n - 1 - i] == [HexLower(Nibbles(ip)[i])]
  {
    var ns := Nibbles(ip)[..prefix / 4];
    LabelsOfDotted(ns, SUFFIX);
    LabelsOfSuffix();
    var labels := Split('.', Dotted(ns) + SUFFIX);
    forall i | 0 <= i < |ns|
      ensures labels[|ns| - 1 - i] == [HexLower(Nibbles(ip)[i])]
    {
      assert ns[i] == Nibbles(ip)[i];
    }
  }

  lemma LabelsOfSuffix()
    ensures Split('.', SUFFIX) == ["ip6", "arpa", ""]
  {
    SplitPart('.', "");
    SplitAtSeparator('.', "arpa", "");
    SplitAtSeparator('.', "ip6", "arpa.");
    assert "arpa" + ['.'] + "" == "arpa.";
    assert "ip6" + ['.'] + "arpa." == SUFFIX;
  }

  /** The first p / 4 nibbles are the network's bits. */
  lemma NibblesOfNetwork(ip: seq<Byte>, w: nat, n: nat)
    requires w == |ip| * 8 && 4 * n <= w
    ensures RoundDown(Num(8, ip), w - 4 * n) == Num(4, Nibbles(ip)[..n]) * Pow2(w - 4 * n)
  {
    var ns := Nibbles(ip);
    NumNibbles(ip);
    assert ns == ns[..n] + ns[n..];
    NumAppend(4, ns[..n], ns[n..]);
    NumBound(4, ns[n..]);
    assert |ns[n..]| * 4 == w - 4 * n;
    RoundDownQuotient(Num(8, ip), w - 4 * n, Num(4, ns[..n]), Num(4, ns[n..]));
  }

  /** Two names are the same exactly when the prefixes and the networks are. */
  lemma NamesInjective(a: seq<Byte>, p: nat, b: seq<Byte>, q: nat)
    requires |a| == |b| == 16 && p <= 128 && q <= 128 && p % 4 == 0 && q % 4 == 0
    ensures Dotted(Nibbles(a)[..p / 4]) + SUFFIX == Dotted(Nibbles(b)[..q / 4]) + SUFFIX
       <==> p == q && RoundDown(Num(8, a), 128 - p) == RoundDown(Num(8, b), 128 - q)
  {
    var ns, bs := Nibbles(a)[..p / 4], Nibbles(b)[..q / 4];
    NibblesOfNetwork(a, 128, p / 4);
    NibblesOfNetwork(b, 128, q / 4);
    if Dotted(ns) + SUFFIX == Dotted(bs) + SUFFIX {
      assert |Dotted(ns) + SUFFIX| == 2 * (p / 4) + 9;
      assert |Dotted(bs) + SUFFIX| == 2 * (q / 4) + 9;
      assert Dotted(ns) == (Dotted(ns) + SUFFIX)[..2 * (p / 4)];
      assert Dotted(bs) == (Dotted(bs) + SUFFIX)[..2 * (p / 4)];
      DottedInjective(ns, bs);
    }
    if p == q && RoundDown(Num(8, a), 128 - p) == RoundDown(Num(8, b), 128 - p) {
      SameFactor(Num(4, ns), Num(4, bs), Pow2(128 - p));
      NumInjective(4, ns, bs);
    }
  }
}
