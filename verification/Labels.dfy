/**
 Text built from parts with separators between them, and the decimal and hexadecimal numerals that
 the printers write.
 */
module Labels {
  import opened Numbers

  function Join(sep: char, parts: seq<string>): string
    requires parts != []
  {
    if |parts| == 1 then parts[0] else parts[0] + [sep] + Join(sep, parts[1..])
  }

  function Split(sep: char, s: string): (parts: seq<string>)
    ensures parts != []
  {
    if s == "" then [""]
    else if s[0] == sep then [""] + Split(sep, s[1..])
    else var rest := Split(sep, s[1..]); [[s[0]] + rest[0]] + rest[1..]
  }

  ghost predicate Separable(sep: char, parts: seq<string>) {
    forall i :: 0 <= i < |parts| ==> sep !in parts[i]
  }

  lemma {:induction false} SplitPart(sep: char, part: string)
    requires sep !in part
    ensures Split(sep, part) == [part]
  {
    if part != "" {
      SplitPart(sep, part[1..]);
      assert [part[0]] + part[1..] == part;
    }
  }

  lemma {:induction false} SplitAtSeparator(sep: char, part: string, rest: string)
    requires sep !in part
    ensures Split(sep, part + [sep] + rest) == [part] + Split(sep, rest)
  {
    var s := part + [sep] + rest;
    if part == "" {
      assert s[1..] == rest;
    } else {
      assert s[1..] == part[1..] + [sep] + rest;
      SplitAtSeparator(sep, part[1..], rest);
      assert [part[0]] + part[1..] == part;
    }
  }

  /** Splitting undoes joining when no part holds the separator. */
  lemma {:induction false} SplitJoin(sep: char, parts: seq<string>)
    requires parts != [] && Separable(sep, parts)
    ensures Split(sep, Join(sep, parts)) == parts
  {
    if |parts| == 1 {
      SplitPart(sep, parts[0]);
    } else {
      SplitJoin(sep, parts[1..]);
      SplitAtSeparator(sep, parts[0], Join(sep, parts[1..]));
    }
  }

  // ---------------------------------------------------------------------------------------------
  // Decimal numerals

  function DecimalDigit(d: nat): char
    requires d < 10
  {
    '0' + d as char
  }

  /** What "%u" prints. */
  function Decimal(n: nat): (s: string)
    ensures s != ""
  {
    if n < 10 then [DecimalDigit(n)] else Decimal(n / 10) + [DecimalDigit(n % 10)]
  }

  function DigitValue(c: char): nat {
    if '0' <= c <= '9' then (c - '0') as nat else 0
  }

  function ParseDecimal(s: string): nat {
    if s == "" then 0 else ParseDecimal(s[..|s| - 1]) * 10 + DigitValue(s[|s| - 1])
  }

  lemma {:induction false} ParseDecimalOfDecimal(n: nat)
    ensures ParseDecimal(Decimal(n)) == n
    ensures forall i :: 0 <= i < |Decimal(n)| ==> '0' <= Decimal(n)[i] <= '9'
  {
    if n >= 10 {
      ParseDecimalOfDecimal(n / 10);
      assert Decimal(n)[..|Decimal(n)| - 1] == Decimal(n / 10);
    }
  }

  lemma DecimalTable(d: nat)
    requires d < 10
    ensures DecimalDigit(d) == "0123456789"[d] && DigitValue("0123456789"[d]) == d
  {
  }

  /** A numeral has no leading zero. */
  lemma {:induction false} NoLeadingZero(n: nat)
    ensures Decimal(0) == "0"
    ensures n > 0 ==> Decimal(n)[0] != '0'
  {
    DecimalTable(n % 10);
    if n >= 10 {
      NoLeadingZero(n / 10);
    }
  }

  // ---------------------------------------------------------------------------------------------
  // Hexadecimal numerals

  predicate IsHex(c: char) {
    '0' <= c <= '9' || 'a' <= c <= 'f' || 'A' <= c <= 'F'
  }

  function HexDigit(c: char): (d: nat)
    requires IsHex(c)
    ensures d < 16
  {
    if '0' <= c <= '9' then (c - '0') as nat
    else if 'a' <= c <= 'f' then (c - 'a') as nat + 10
    else (c - 'A') as nat + 10
  }

  predicate AllHex(s: string) {
    forall i :: 0 <= i < |s| ==> IsHex(s[i])
  }

  function HexDigits(s: string): (ds: seq<nat>)
    requires AllHex(s)
    ensures |ds| == |s|
    ensures Digits(4, ds)
  {
    seq(|s|, i requires 0 <= i < |s| => HexDigit(s[i]))
  }

  /** The number a hexadecimal numeral stands for, of either letter case. */
  function HexValue(s: string): nat
    requires AllHex(s)
  {
    Num(4, HexDigits(s))
  }

  /** hexchar, and one digit of "%x". */
  function HexLower(d: nat): (c: char)
    requires d < 16
    ensures IsHex(c) && HexDigit(c) == d && c != '.' && c != ':'
  {
    if d < 10 then '0' + d as char else 'a' + (d - 10) as char
  }

  /** One digit of "%X". */
  function HexUpper(d: nat): (c: char)
    requires d < 16
    ensures IsHex(c) && HexDigit(c) == d && c != '.' && c != ':'
  {
    if d < 10 then '0' + d as char else 'A' + (d - 10) as char
  }

  /** The place of a character in either table of digits. */
  predicate IsDigit(c: char, d: nat) {
    d < 16 && (c == "0123456789abcdef"[d] || c == "0123456789ABCDEF"[d])
  }

  lemma HexTables(d: nat)
    requires d < 16
    ensures HexLower(d) == "0123456789abcdef"[d] && HexUpper(d) == "0123456789ABCDEF"[d]
    ensures forall c :: IsDigit(c, d) ==> IsHex(c) && HexDigit(c) == d
  {
  }

  /** Every hexadecimal digit stands for its place in the tables. */
  lemma PlaceOfDigit(c: char)
    requires IsHex(c)
    ensures IsDigit(c, HexDigit(c))
  {
    HexTables(HexDigit(c));
  }

  predicate Spells(s: string, places: seq<nat>) {
    |s| == |places| && forall i :: 0 <= i < |s| ==> IsDigit(s[i], places[i])
  }

  /** The places times the powers of 16. */
  function PlaceSum(places: seq<nat>): nat {
    if places == [] then 0 else places[0] * Pow2(4 * (|places| - 1)) + PlaceSum(places[1..])
  }

  lemma {:induction false} PlaceSumValue(places: seq<nat>)
    ensures PlaceSum(places) == Num(4, places)
  {
    if places != [] {
      PlaceSumValue(places[1..]);
      assert places == [places[0]] + places[1..];
      NumAppend(4, [places[0]], places[1..]);
      assert [] + [places[0]] == [places[0]];
      NumSnoc(4, [], places[0]);
    }
  }

  /** What a numeral of digits stands for. */
  lemma ValueByPlaces(s: string, places: seq<nat>)
    requires Spells(s, places)
    ensures AllHex(s) && HexValue(s) == PlaceSum(places)
  {
    forall i | 0 <= i < |s|
      ensures IsHex(s[i]) && HexDigit(s[i]) == places[i]
    {
      HexTables(places[i]);
    }
    assert HexDigits(s) == places;
    PlaceSumValue(places);
  }
}
