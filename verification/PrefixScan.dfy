/**
 Net_inet_pton after the address has been accepted: the groups of the text joined as hexadecimal
 digits, and the position of the last set bit among them. Also expand_ipv6, which prints the full
 text of an address.
 */
module PrefixScan {
  import opened Numbers
  import opened Labels
  import opened PrefixReaders
  import opened Ipv6Text
  import opened ColonFields
  import Hosts

  // ---------------------------------------------------------------------------------------------
  // Printing groups

  /** "%02X%02X" of the two bytes of a group. */
  function Hex4(v: nat): (s: string)
    ensures |s| == 4
  {
    var hi, lo := v / 256 % 256, v % 256;
    [HexUpper(hi / 16), HexUpper(hi % 16), HexUpper(lo / 16), HexUpper(lo % 16)]
  }

  lemma Hex4Value(v: nat)
    requires v < Pow2(16)
    ensures IsGroup(Hex4(v)) && HexValue(Hex4(v)) == v
  {
    hide Hex4, HexValue, HexDigits;
    Pow2Small();
    var hi, lo := v / 256, v % 256;
    Hex4Digits(v, hi, lo);
    HexOfFour(Hex4(v), hi / 16, hi % 16, lo / 16, lo % 16);
    TwoNibbles(hi);
    TwoNibbles(lo);
  }

  lemma Hex4Digits(v: nat, hi: nat, lo: nat)
    requires hi == v / 256 < 256 && lo == v % 256
    ensures AllHex(Hex4(v)) && HexDigits(Hex4(v)) == [hi / 16, hi % 16, lo / 16, lo % 16]
  {
  }

  lemma TwoNibbles(b: nat)
    ensures b == b / 16 * 16 + b % 16
  {
  }

  lemma HexOfFour(s: string, a: nat, b: nat, c: nat, d: nat)
    requires |s| == 4 && AllHex(s) && HexDigits(s) == [a, b, c, d]
    ensures HexValue(s) == a * 4096 + b * 256 + c * 16 + d
  {
    Pow2Small();
    assert Num(4, []) == 0;
    hide Num, Pow2;
    NumSnoc(4, [], a);
    NumSnoc(4, [a], b);
    NumSnoc(4, [a, b], c);
    NumSnoc(4, [a, b, c], d);
    assert [] + [a] == [a] && [a] + [b] == [a, b] && [a, b] + [c] == [a, b, c];
    assert [a, b, c] + [d] == [a, b, c, d];
  }

  /** Groups of four digits each, one after the other. */
  function Concat(vs: seq<nat>): (s: string)
    ensures |s| == 4 * |vs|
  {
    if vs == [] then "" else Concat(vs[..|vs| - 1]) + Hex4(vs[|vs| - 1])
  }

  lemma HexConcat(a: string, b: string)
    requires AllHex(a) && AllHex(b)
    ensures AllHex(a + b) && HexValue(a + b) == HexValue(a) * Pow2(|b| * 4) + HexValue(b)
  {
    hide Num;
    var x, y := HexDigits(a), HexDigits(b);
    assert HexDigits(a + b) == x + y;
    NumAppend(4, x, y);
  }

  lemma {:induction false} ConcatValue(vs: seq<nat>)
    requires Digits(16, vs)
    ensures AllHex(Concat(vs)) && HexValue(Concat(vs)) == Num(16, vs)
  {
    hide Hex4, HexValue, HexDigits;
    if vs == [] {
      assert HexValue("") == 0 by {
        EmptyHex();
      }
    } else {
      var n, v := |vs| - 1, vs[|vs| - 1];
      ConcatValue(vs[..n]);
      Hex4Value(v);
      HexConcat(Concat(vs[..n]), Hex4(v));
    }
  }

  lemma EmptyHex()
    ensures HexValue("") == 0
  {
  }

  function FullParts(vs: seq<nat>): (parts: seq<string>)
    ensures |parts| == |vs|
  {
    seq(|vs|, i requires 0 <= i < |vs| => Hex4(vs[i]))
  }

  lemma FullText(vs: seq<nat>)
    requires |vs| == 8 && Digits(16, vs)
    ensures Valid(Plain(FullParts(vs))) && Groups(Plain(FullParts(vs))) == vs
  {
    forall i | 0 <= i < 8
      ensures IsGroup(Hex4(vs[i])) && HexValue(Hex4(vs[i])) == vs[i]
    {
      Hex4Value(vs[i]);
    }
  }

  lemma {:induction false} JoinSnoc(sep: char, parts: seq<string>, last: string)
    requires parts != []
    ensures Join(sep, parts + [last]) == Join(sep, parts) + [sep] + last
  {
    if |parts| == 1 {
      assert (parts + [last])[1..] == [last];
    } else {
      assert (parts + [last])[1..] == parts[1..] + [last];
      JoinSnoc(sep, parts[1..], last);
    }
  }

  /** Eight times four digits of one table of digits, with colons between them. */
  ghost predicate IsFullText(s: string, table: string) {
    |s| == 39 && forall i :: 0 <= i < 39 ==> if i % 5 == 4 then s[i] == ':' else s[i] in table
  }

  ghost predicate FourOf(part: string, table: string) {
    |part| == 4 && forall j :: 0 <= j < 4 ==> part[j] in table
  }

  lemma {:induction false} JoinedFours(parts: seq<string>, table: string)
    requires parts != [] && forall i :: 0 <= i < |parts| ==> FourOf(parts[i], table)
    ensures var s := Join(':', parts);
            && |s| == 5 * |parts| - 1
            && forall i :: 0 <= i < |s| ==> if i % 5 == 4 then s[i] == ':' else s[i] in table
  {
    if |parts| > 1 {
      var s, rest := Join(':', parts), Join(':', parts[1..]);
      JoinedFours(parts[1..], table);
      assert s == parts[0] + ([':'] + rest);
      forall i | 5 <= i < |s|
        ensures s[i] == rest[i - 5] && i % 5 == (i - 5) % 5
      {
      }
    }
  }

  lemma UpperDigits(v: nat)
    ensures FourOf(Hex4(v), "0123456789ABCDEF")
  {
    var hi, lo := v / 256 % 256, v % 256;
    HexTables(hi / 16);
    HexTables(hi % 16);
    HexTables(lo / 16);
    HexTables(lo % 16);
  }

  lemma FullTextIsUpper(vs: seq<nat>)
    requires |vs| == 8
    ensures IsFullText(Render(Plain(FullParts(vs))), "0123456789ABCDEF")
  {
    forall i | 0 <= i < 8
      ensures FourOf(FullParts(vs)[i], "0123456789ABCDEF")
    {
      UpperDigits(vs[i]);
    }
    JoinedFours(FullParts(vs), "0123456789ABCDEF");
  }

  // ---------------------------------------------------------------------------------------------
  // Net_inet_pton

  /** The text rewritten in full, and its digits alone. The eight calls of getcolon all come back exactly
      when the text has no IPv4 tail. */
  method JoinFields(addr: string) returns (ok: bool, strOutput: string, str: string)
    requires IsIpv6Text(addr) || IsMixedText(addr)
    ensures ok <==> IsV6TypeStandard(addr)
    ensures ok <==> IsIpv6Text(addr)
    ensures ok ==> str == Concat(Groups(Reading(addr)))
    ensures ok ==> strOutput == Render(Plain(FullParts(Groups(Reading(addr)))))
  {
    hide Hex4, Concat, Fields, Valid, IsV6TypeStandard, Render;
    KindOfText(addr);
    if IsMixedText(addr) {
      TailWithinEight(addr);
    }
    ghost var vs := if IsIpv6Text(addr) then Groups(Reading(addr)) else Zeros(8);
    NoFields(vs);
    strOutput, str := "", "";
    for ii := 0 to 8
      invariant IsIpv6Text(addr) ==> str == Concat(vs[..ii]) && strOutput == Fields(vs, ii)
      invariant IsMixedText(addr) ==> ii <= TailPosition(addr) <= 6
    {
      var value := GetColon(addr, ii);
      if value.None? {
        return false, "", "";
      }
      FieldsStep(vs, ii);
      strOutput := strOutput + Hex4(value.value) + if ii < 7 then ":" else "";
      str := str + Hex4(value.value);
    }
    ok := true;
    AllFieldsPrinted(vs);
  }

  lemma NoFields(vs: seq<nat>)
    requires |vs| == 8
    ensures vs[..0] == [] && Concat(vs[..0]) == "" == Fields(vs, 0)
  {
  }

  lemma AllFieldsPrinted(vs: seq<nat>)
    requires |vs| == 8
    ensures vs[..8] == vs && Fields(vs, 8) == Render(Plain(FullParts(vs)))
  {
  }

  /** The first n groups in full, with the separator that follows them. */
  ghost function Fields(vs: seq<nat>, n: nat): string
    requires n <= |vs|
  {
    JoinAll(FullParts(vs[..n])) + if 0 < n < |vs| then ":" else ""
  }

  lemma FieldsStep(vs: seq<nat>, n: nat)
    requires n < |vs|
    ensures Fields(vs, n + 1) == Fields(vs, n) + Hex4(vs[n]) + if n + 1 < |vs| then ":" else ""
    ensures Concat(vs[..n + 1]) == Concat(vs[..n]) + Hex4(vs[n])
  {
    assert vs[..n + 1][..n] == vs[..n];
    assert FullParts(vs[..n + 1]) == FullParts(vs[..n]) + [Hex4(vs[n])];
    if n > 0 {
      JoinSnoc(':', FullParts(vs[..n]), Hex4(vs[n]));
    }
  }

  /** One more bit of the quotient. */
  lemma QuotientBit(c: nat, k: nat)
    ensures c / Pow2(k) == 2 * (c / Pow2(k + 1)) + (if And(c, Pow2(k)) != 0 then 1 else 0)
  {
    var q, r := Divide(c, Pow2(k + 1));
    var b, r' := Divide(r, Pow2(k));
    DivBelowProduct(r, Pow2(k), 2);
    MulTwice(q, Pow2(k));
    MulAssoc(2, q, Pow2(k));
    MulDist(2 * q, b, Pow2(k));
    DivModUnique(c, Pow2(k), 2 * q + b, r');
    AndOneBitParts(c, 2 * q + b, r', k);
    assert (2 * q + b) % 2 == b;
  }

  /** Appending one bit moves the last set bit to the end or leaves it. */
  lemma LastSetBitSnoc(w: nat, m: nat, b: nat)
    requires m < Pow2(w) && b < 2
    ensures 2 * m + b < Pow2(w + 1)
    ensures LastSetBit(w + 1, 2 * m + b) == if b == 1 then w + 1 else LastSetBit(w, m)
  {
  }

  /** The scan over the digits, four bits each. */
  method ScanNibbles(str: string) returns (vNbBit: nat)
    requires AllHex(str)
    ensures HexValue(str) < Pow2(|str| * 4)
    ensures vNbBit == LastSetBit(|str| * 4, HexValue(str))
  {
    ghost var ds := HexDigits(str);
    vNbBit := 0;
    for ii := 0 to |str|
      invariant Num(4, ds[..ii]) < Pow2(ii * 4)
      invariant vNbBit == LastSetBit(ii * 4, Num(4, ds[..ii]))
    {
      var vChar := HexDigit(str[ii]);
      vNbBit := ScanDigit(vChar, ii * 4, vNbBit, Num(4, ds[..ii]));
      assert ds[..ii + 1] == ds[..ii] + [vChar];
      NumSnoc(4, ds[..ii], vChar);
    }
    assert ds[..|str|] == ds;
  }

  /** The value of the digits so far and the first jj bits of the next digit. */
  ghost function Partial(before: nat, c: nat, jj: nat): nat
    requires jj <= 4
  {
    MulMono(0, before, Pow2(jj));
    before * Pow2(jj) + c / Pow2(4 - jj)
  }

  lemma PartialStep(before: nat, c: nat, jj: nat)
    requires jj < 4
    ensures Partial(before, c, jj + 1)
         == 2 * Partial(before, c, jj) + (if And(c, Pow2(3 - jj)) != 0 then 1 else 0)
  {
    QuotientBit(c, 3 - jj);
    MulTwice(before, Pow2(jj));
  }

  /** The four bits of one digit, after digits with the value before. */
  method ScanDigit(vChar: nat, vBase: nat, found: nat, ghost before: nat) returns (vNbBit: nat)
    requires vChar < 16 && before < Pow2(vBase) && found == LastSetBit(vBase, before)
    ensures before * Pow2(4) + vChar < Pow2(vBase + 4)
    ensures vNbBit == LastSetBit(vBase + 4, before * Pow2(4) + vChar)
  {
    hide LastSetBit, And;
    vNbBit := found;
    assert Partial(before, vChar, 0) == before && Partial(before, vChar, 4) == before * Pow2(4) + vChar;
    for jj := 0 to 4
      invariant Partial(before, vChar, jj) < Pow2(vBase + jj)
      invariant vNbBit == LastSetBit(vBase + jj, Partial(before, vChar, jj))
    {
      var vDecalage := 3 - jj;
      PartialStep(before, vChar, jj);
      LastSetBitSnoc(vBase + jj, Partial(before, vChar, jj), if And(vChar, Pow2(vDecalage)) != 0 then 1 else 0);
      if And(vChar, Pow2(vDecalage)) != 0 {
        vNbBit := vBase + jj + 1;
      }
    }
  }

  /** On every text that inet_pton accepts. Without an IPv4 tail: the full text of the same address, and
      the least prefix length whose mask leaves the address unchanged. With one there is no answer,
      because getcolon writes out of its buffer. */
  method NetInetPton(addr: string) returns (ok: bool, strOutput: string, vNbBit: nat)
    requires IsIpv6Text(addr) || IsMixedText(addr)
    ensures ok <==> '.' !in addr
    ensures ok ==> IsIpv6Text(addr) && Denotes(strOutput, Address(addr))
    ensures ok ==> IsFullText(strOutput, "0123456789ABCDEF")
    ensures ok ==> Address(addr) < Pow2(128) && vNbBit == LastSetBit(128, Address(addr))
  {
    var str: string;
    ok, strOutput, str := JoinFields(addr);
    vNbBit := 0;
    if ok {
      ghost var vs := Groups(Reading(addr));
      GroupsFit(Reading(addr));
      ConcatValue(vs);
      FullText(vs);
      FullTextIsUpper(vs);
      ReadingOfRender(Plain(FullParts(vs)));
      vNbBit := ScanNibbles(str);
    }
  }

  /** An accepted text that has no answer. */
  method TailHasNoAnswer() returns (ok: bool)
    ensures IsMixedText("::1.2.3.4") && !ok
  {
    TextsWithTail();
    assert "::1.2.3.4"[3] == '.';
    var strOutput, vNbBit;
    ok, strOutput, vNbBit := NetInetPton("::1.2.3.4");
  }

  /** An address of which fifteen bits are needed. */
  method PrefixOfFffe() returns (vNbBit: nat)
    ensures vNbBit == 15
  {
    var addr := "FFFE::";
    Fffe(addr);
    var ok, strOutput;
    ok, strOutput, vNbBit := NetInetPton(addr);
    TopGroupOnly(Address(addr), Groups(Reading(addr)));
  }

  lemma TopGroupOnly(a: nat, vs: seq<nat>)
    requires vs == [0xfffe, 0, 0, 0, 0, 0, 0, 0] && a == Num(16, vs)
    ensures a < Pow2(128) && LastSetBit(128, a) == 15
  {
    hide LastSetBit, Pow2;
    TopGroup(a, vs);
    OddLastSetBit(15, 0x7fff);
    LastSetBitShift(15, 0x7fff, 113);
  }

  lemma TopGroup(a: nat, vs: seq<nat>)
    requires |vs| == 8 && vs[0] == 0xfffe && (forall i :: 1 <= i < 8 ==> vs[i] == 0) && a == Num(16, vs)
    ensures a == 0x7fff * Pow2(113)
  {
    hide Num;
    assert vs == vs[..1] + vs[1..] && vs[..1] == [] + [0xfffe];
    NumAppend(16, vs[..1], vs[1..]);
    NumSnoc(16, [], 0xfffe);
    NoDigits(16);
    AllZeroDigits(16, vs[1..]);
    MulTwice(0x7fff, Pow2(112));
  }

  lemma NoDigits(k: nat)
    ensures Num(k, []) == 0
  {
  }

  lemma OddLastSetBit(w: nat, m: nat)
    requires w == 15 && m == 0x7fff
    ensures m < Pow2(w) && LastSetBit(w, m) == w
  {
    assert Pow2(15) == 0x8000;
  }

  lemma {:induction false} AllZeroDigits(k: nat, ds: seq<nat>)
    requires forall i :: 0 <= i < |ds| ==> ds[i] == 0
    ensures Num(k, ds) == 0
  {
    if ds != [] {
      AllZeroDigits(k, ds[..|ds| - 1]);
    }
  }

  lemma {:induction false} LastSetBitShift(w: nat, m: nat, k: nat)
    requires m < Pow2(w)
    ensures m * Pow2(k) < Pow2(w + k) && LastSetBit(w + k, m * Pow2(k)) == LastSetBit(w, m)
  {
    if k > 0 {
      LastSetBitShift(w, m, k - 1);
      MulTwice(m, Pow2(k - 1));
      LastSetBitSnoc(w + k - 1, m * Pow2(k - 1), 0);
    }
  }

  // ---------------------------------------------------------------------------------------------
  // expand_ipv6

  function Word16(hi: Byte, lo: Byte): nat {
    256 * (hi as int) + lo
  }

  /** The group made of bytes 2i and 2i + 1. */
  function GroupsOfBytes(bs: seq<Byte>): (vs: seq<nat>)
    requires |bs| % 2 == 0
    ensures |vs| == |bs| / 2
  {
    seq(|bs| / 2, i requires 0 <= i < |bs| / 2 => Word16(bs[2 * i], bs[2 * i + 1]))
  }

  lemma TwoBytes(x: nat, a: Byte, b: Byte)
    ensures (x * Pow2(8) + a) * Pow2(8) + b == x * Pow2(16) + Word16(a, b)
    ensures Word16(a, b) < Pow2(16)
  {
    Pow2Small();
  }

  lemma GroupsSnoc(bs: seq<Byte>)
    requires |bs| % 2 == 0 && bs != []
    ensures var n := |bs| - 2; GroupsOfBytes(bs) == GroupsOfBytes(bs[..n]) + [Word16(bs[n], bs[n + 1])]
  {
  }

  lemma NumTwoMore(bs: seq<Byte>)
    requires |bs| >= 2
    ensures var n := |bs| - 2; Num(8, bs) == (Num(8, bs[..n]) * Pow2(8) + bs[n]) * Pow2(8) + bs[n + 1]
  {
    hide Pow2, Num;
    var n := |bs| - 2;
    assert bs == bs[..n + 1] + [bs[n + 1]] && bs[..n + 1] == bs[..n] + [bs[n]];
    NumSnoc(8, bs[..n + 1], bs[n + 1]);
    NumSnoc(8, bs[..n], bs[n]);
  }

  lemma {:induction false} GroupsOfBytesValue(bs: seq<Byte>)
    requires |bs| % 2 == 0
    ensures Digits(16, GroupsOfBytes(bs)) && Num(16, GroupsOfBytes(bs)) == Num(8, bs)
  {
    hide Word16, GroupsOfBytes;
    if bs != [] {
      var n := |bs| - 2;
      GroupsOfBytesValue(bs[..n]);
      GroupsSnoc(bs);
      NumSnoc(16, GroupsOfBytes(bs[..n]), Word16(bs[n], bs[n + 1]));
      NumTwoMore(bs);
      TwoBytes(Num(8, bs[..n]), bs[n], bs[n + 1]);
    }
  }

  /** "%.2x". */
  function Hex2(b: Byte): (s: string)
    ensures |s| == 2
  {
    [HexLower(b / 16), HexLower(b % 16)]
  }

  function LowerParts(bs: seq<Byte>): (parts: seq<string>)
    requires |bs| % 2 == 0
    ensures |parts| == |bs| / 2
  {
    seq(|bs| / 2, i requires 0 <= i < |bs| / 2 => Hex2(bs[2 * i]) + Hex2(bs[2 * i + 1]))
  }

  lemma LowerText(bs: seq<Byte>)
    requires |bs| == 16
    ensures Valid(Plain(LowerParts(bs))) && Groups(Plain(LowerParts(bs))) == GroupsOfBytes(bs)
  {
    forall i | 0 <= i < 8
      ensures IsGroup(LowerParts(bs)[i]) && HexValue(LowerParts(bs)[i]) == GroupsOfBytes(bs)[i]
    {
      var b, c := bs[2 * i], bs[2 * i + 1];
      HexOfFour(Hex2(b) + Hex2(c), b / 16, b % 16, c / 16, c % 16);
    }
  }

  ghost function FullForm(bs: seq<Byte>): string
    requires |bs| == 16
  {
    Render(Plain(LowerParts(bs)))
  }

  lemma LowerPair(b: Byte, c: Byte)
    ensures FourOf(Hex2(b) + Hex2(c), "0123456789abcdef")
  {
    HexTables(b / 16);
    HexTables(b % 16);
    HexTables(c / 16);
    HexTables(c % 16);
  }

  lemma LowerTextIsLower(bs: seq<Byte>)
    requires |bs| == 16
    ensures IsFullText(FullForm(bs), "0123456789abcdef")
  {
    forall i | 0 <= i < 8
      ensures FourOf(LowerParts(bs)[i], "0123456789abcdef")
    {
      LowerPair(bs[2 * i], bs[2 * i + 1]);
    }
    JoinedFours(LowerParts(bs), "0123456789abcdef");
  }

  /** What has been printed after i bytes. */
  ghost function Printed(bs: seq<Byte>, i: nat): string
    requires i <= |bs|
  {
    if i == 0 then ""
    else Printed(bs, i - 1) + Hex2(bs[i - 1]) + if i % 2 == 0 && i < |bs| then ":" else ""
  }

  lemma PrintedPair(bs: seq<Byte>, n: nat)
    requires 1 <= n && 2 * n <= |bs|
    ensures Printed(bs, 2 * n) == Printed(bs, 2 * n - 2) + (Hex2(bs[2 * n - 2]) + Hex2(bs[2 * n - 1]))
                                  + if 2 * n < |bs| then ":" else ""
  {
    assert Printed(bs, 2 * n - 1) == Printed(bs, 2 * n - 2) + Hex2(bs[2 * n - 2]);
  }

  /** Everything printed after n groups is those groups joined, with the separator that follows. */
  lemma {:induction false} PrintedParts(bs: seq<Byte>, n: nat)
    requires |bs| % 2 == 0 && 1 <= n <= |bs| / 2
    ensures Printed(bs, 2 * n) == Join(':', LowerParts(bs)[..n]) + if 2 * n < |bs| then ":" else ""
  {
    hide Join, Printed;
    var parts := LowerParts(bs);
    PrintedPair(bs, n);
    if n == 1 {
      FirstPart(bs);
    } else {
      PrintedParts(bs, n - 1);
      JoinSnoc(':', parts[..n - 1], parts[n - 1]);
      assert parts[..n] == parts[..n - 1] + [parts[n - 1]];
    }
  }

  lemma FirstPart(bs: seq<Byte>)
    requires |bs| % 2 == 0 && bs != []
    ensures Printed(bs, 0) == ""
    ensures Join(':', LowerParts(bs)[..1]) == Hex2(bs[0]) + Hex2(bs[1])
  {
  }

  /** sprintf of one byte at the moving pointer. */
  method PutByte(buf: array<char>, p: nat, b: Byte) returns (next: nat)
    requires p + 2 <= buf.Length
    modifies buf
    ensures next == p + 2 && buf[..next] == old(buf[..p]) + Hex2(b)
  {
    buf[p], buf[p + 1] := HexLower(b / 16), HexLower(b % 16);
    next := p + 2;
  }

  /** The text printed into the buffer reads back as the address. */
  method ExpandIpv6(ip6: seq<Byte>) returns (text: string)
    requires |ip6| == 16
    ensures text == FullForm(ip6)
    ensures Denotes(text, Num(8, ip6))
    ensures IsFullText(text, "0123456789abcdef")
  {
    hide Hex2, Num;
    var buf := new char[128];
    var p := 0;
    for i := 0 to 16
      invariant 2 * i <= p <= 3 * i && buf[..p] == Printed(ip6, i)
    {
      p := PutByte(buf, p, ip6[i]);
      if i % 2 != 0 && i != 15 {
        ghost var before := buf[..p];
        buf[p] := ':';
        p := p + 1;
        assert buf[..p] == before + ":";
      }
    }
    text := buf[..p];
    PrintedParts(ip6, 8);
    assert LowerParts(ip6)[..8] == LowerParts(ip6);
    LowerText(ip6);
    LowerTextIsLower(ip6);
    ReadingOfRender(Plain(LowerParts(ip6)));
    GroupsOfBytesValue(ip6);
  }

  /** A prefix length survives being made a mask, printed, and scanned back. */
  method PrefixThroughText(prefix: nat) returns (vNbBit: nat)
    requires prefix <= 128
    ensures vNbBit == prefix
  {
    var mask := Hosts.Ipv6PrefixToMask(prefix);
    var text := ExpandIpv6(mask.value);
    TextIsStandard(Reading(text));
    var ok, _, n := NetInetPton(text);
    ReadersOnMask(128, prefix);
    vNbBit := n;
  }
}
