/**
 Texts of IPv6 addresses (section 2.2 of RFC 4291): in groups alone, and with an IPv4 address in the
 place of the last two groups.
 */
module Ipv6Text {
  import opened Numbers
  import opened Labels
  import opened Options

  // ---------------------------------------------------------------------------------------------
  // The texts and their groups

  /** Eight groups in full, or the groups on both sides of a "::". */
  datatype Text = Plain(groups: seq<string>) | Elided(left: seq<string>, right: seq<string>)

  predicate IsGroup(s: string) {
    1 <= |s| <= 4 && AllHex(s)
  }

  predicate AllGroups(parts: seq<string>) {
    forall i :: 0 <= i < |parts| ==> IsGroup(parts[i])
  }

  predicate Valid(t: Text) {
    match t
    case Plain(groups) => |groups| == 8 && AllGroups(groups)
    case Elided(left, right) => |left| + |right| <= 7 && AllGroups(left) && AllGroups(right)
  }

  function JoinAll(parts: seq<string>): string {
    if parts == [] then "" else Join(':', parts)
  }

  function Render(t: Text): string {
    match t
    case Plain(groups) => JoinAll(groups)
    case Elided(left, right) => JoinAll(left) + "::" + JoinAll(right)
  }

  function Values(parts: seq<string>): (vs: seq<nat>)
    requires AllGroups(parts)
    ensures |vs| == |parts|
  {
    seq(|parts|, i requires 0 <= i < |parts| => HexValue(parts[i]))
  }

  /** The eight groups of the address; "::" stands for the zero groups that are missing. */
  function Groups(t: Text): (vs: seq<nat>)
    requires Valid(t)
    ensures |vs| == 8
  {
    match t
    case Plain(groups) => Values(groups)
    case Elided(left, right) => Values(left) + seq(8 - |left| - |right|, _ => 0) + Values(right)
  }

  /** The text that a position takes its group from, if it is not one of the zero groups of a "::". */
  function TextAt(t: Text, k: nat): Option<string>
    requires Valid(t) && k < 8
  {
    match t
    case Plain(groups) => Some(groups[k])
    case Elided(left, right) =>
      if k < |left| then Some(left[k])
      else if k >= 8 - |right| then Some(right[k - (8 - |right|)])
      else None
  }

  /** Every group is the sum of its digits' places times the powers of 16. */
  lemma GroupByPlaces(t: Text, k: nat, places: seq<nat>)
    requires Valid(t) && k < 8
    ensures TextAt(t, k).None? ==> Groups(t)[k] == 0
    ensures TextAt(t, k).Some? && Spells(TextAt(t, k).value, places) ==> Groups(t)[k] == PlaceSum(places)
  {
    hide HexValue, PlaceSum;
    if TextAt(t, k).Some? && Spells(TextAt(t, k).value, places) {
      ValueByPlaces(TextAt(t, k).value, places);
    }
  }

  lemma GroupsFit(t: Text)
    requires Valid(t)
    ensures Digits(16, Groups(t))
  {
    forall s: string | IsGroup(s)
      ensures HexValue(s) < Pow2(16)
    {
      NumBound(4, HexDigits(s));
      Pow2Monotone(|s| * 4, 16);
    }
    assert Pow2(16) > 0;
  }

  // ---------------------------------------------------------------------------------------------
  // Colons

  predicate DoubleAt(s: string, i: nat) {
    i + 1 < |s| && s[i] == ':' && s[i + 1] == ':'
  }

  function Colons(s: string): nat {
    if s == "" then 0 else Colons(s[..|s| - 1]) + if s[|s| - 1] == ':' then 1 else 0
  }

  lemma {:induction false} ColonsAppend(a: string, b: string)
    ensures Colons(a + b) == Colons(a) + Colons(b)
  {
    if b == "" {
      assert a + b == a;
    } else {
      var n := |b| - 1;
      ColonsAppend(a, b[..n]);
      assert (a + b)[..|a| + n] == a + b[..n];
    }
  }

  lemma {:induction false} NoColons(s: string)
    requires ':' !in s
    ensures Colons(s) == 0
  {
    if s != "" {
      NoColons(s[..|s| - 1]);
    }
  }

  /** What stands between colons: a group or an IPv4 address. */
  predicate AllFields(parts: seq<string>) {
    forall i :: 0 <= i < |parts| ==> parts[i] != "" && ':' !in parts[i] && '\0' !in parts[i]
  }

  /** Joined fields have one colon between neighbours, none doubled, none at either end. */
  lemma {:induction false} JoinedFields(parts: seq<string>)
    requires parts != [] && AllFields(parts)
    ensures var s := Join(':', parts);
            && s != "" && s[0] != ':' && s[|s| - 1] != ':'
            && Colons(s) == |parts| - 1
            && forall i :: 0 <= i < |s| ==> !DoubleAt(s, i)
  {
    NoColons(parts[0]);
    if |parts| > 1 {
      var rest := Join(':', parts[1..]);
      JoinedFields(parts[1..]);
      var s := parts[0] + [':'] + rest;
      ColonsAppend(parts[0] + [':'], rest);
      ColonsAppend(parts[0], [':']);
      forall i | 0 <= i < |s|
        ensures !DoubleAt(s, i)
      {
        if i > |parts[0]| {
          assert !DoubleAt(rest, i - |parts[0]| - 1);
        }
      }
    }
  }

  lemma FieldsSeparable(parts: seq<string>)
    requires AllFields(parts)
    ensures Separable(':', parts)
  {
  }

  /** One less than the number of parts, but not below zero. */
  function Gaps(parts: seq<string>): nat {
    if parts == [] then 0 else |parts| - 1
  }

  /** Where the only doubled colon of an elided text is, and how many colons stand on each side. */
  lemma ElidedShape(left: seq<string>, right: seq<string>)
    requires AllFields(left) && AllFields(right)
    ensures var s, x := Render(Elided(left, right)), |JoinAll(left)|;
            && DoubleAt(s, x) && (forall i :: 0 <= i < x ==> !DoubleAt(s, i))
            && s[..x] == JoinAll(left) && s[x + 2..] == JoinAll(right)
            && Colons(s[..x]) == Gaps(left) && Colons(s[x + 2..]) == Gaps(right)
            && !(s[|s| - 1] == ':' && s[|s| - 2] != ':')
  {
    var s, l, r := Render(Elided(left, right)), JoinAll(left), JoinAll(right);
    if left != [] {
      JoinedFields(left);
    }
    if right != [] {
      JoinedFields(right);
    }
    assert s[..|l|] == l && s[|l| + 2..] == r;
    forall i | 0 <= i < |l|
      ensures !DoubleAt(s, i)
    {
      assert !DoubleAt(l, i);
    }
  }

  // ---------------------------------------------------------------------------------------------
  // A text has one reading

  lemma JoinAllInjective(a: seq<string>, b: seq<string>)
    requires AllFields(a) && AllFields(b) && JoinAll(a) == JoinAll(b)
    ensures a == b
  {
    if a != [] {
      JoinedFields(a);
      FieldsSeparable(a);
      SplitJoin(':', a);
    }
    if b != [] {
      JoinedFields(b);
      FieldsSeparable(b);
      SplitJoin(':', b);
    }
  }

  /** Fields on their own, or on both sides of a "::". */
  predicate Shaped(t: Text) {
    match t
    case Plain(fields) => fields != [] && AllFields(fields)
    case Elided(left, right) => AllFields(left) && AllFields(right)
  }

  lemma RenderInjective(t: Text, u: Text)
    requires Shaped(t) && Shaped(u) && Render(t) == Render(u)
    ensures t == u
  {
    match t
    case Plain(g) =>
      JoinedFields(g);
      match u {
        case Plain(h) => JoinAllInjective(g, h);
        case Elided(l, r) => ElidedShape(l, r);
      }
    case Elided(l, r) =>
      ElidedShape(l, r);
      match u {
        case Plain(h) => JoinedFields(h);
        case Elided(l', r') =>
          ElidedShape(l', r');
          var x, x' := |JoinAll(l)|, |JoinAll(l')|;
          assert x == x';
          JoinAllInjective(l, l');
          JoinAllInjective(r, r');
      }
  }

  ghost predicate IsIpv6Text(s: string) {
    exists t :: Valid(t) && Render(t) == s
  }

  ghost function Reading(s: string): (t: Text)
    requires IsIpv6Text(s)
    ensures Valid(t) && Render(t) == s
  {
    var t :| Valid(t) && Render(t) == s;
    t
  }

  lemma ValidIsShaped(t: Text)
    requires Valid(t)
    ensures Shaped(t)
  {
  }

  lemma ReadingOfRender(t: Text)
    requires Valid(t)
    ensures IsIpv6Text(Render(t)) && Reading(Render(t)) == t
  {
    ValidIsShaped(t);
    ValidIsShaped(Reading(Render(t)));
    RenderInjective(t, Reading(Render(t)));
  }

  /** The 128-bit address a text stands for. */
  ghost function Address(s: string): nat
    requires IsIpv6Text(s)
  {
    Num(16, Groups(Reading(s)))
  }

  ghost predicate Denotes(s: string, a: nat) {
    IsIpv6Text(s) && Address(s) == a
  }

  // ---------------------------------------------------------------------------------------------
  // Texts with an IPv4 tail, and an IPv4 address alone

  predicate IsOctet(s: string) {
    1 <= |s| <= 3 && (forall i :: 0 <= i < |s| ==> '0' <= s[i] <= '9') && ParseDecimal(s) <= 255
  }

  ghost predicate IsIpv4Text(s: string) {
    exists parts :: |parts| == 4 && (forall i :: 0 <= i < 4 ==> IsOctet(parts[i])) && s == Join('.', parts)
  }

  /** The last field is an IPv4 address, which stands for two groups or is all there is. */
  ghost predicate Mixed(t: Text) {
    match t
    case Plain(fields) =>
      && (|fields| == 7 || |fields| == 1)
      && AllGroups(fields[..|fields| - 1]) && IsIpv4Text(fields[|fields| - 1])
    case Elided(left, right) =>
      && |left| + |right| <= 6 && AllGroups(left)
      && right != [] && AllGroups(right[..|right| - 1]) && IsIpv4Text(right[|right| - 1])
  }

  /** The groups before the tail; "::" stands for the zero groups that are missing. */
  ghost function GroupsBeforeTail(t: Text): (vs: seq<nat>)
    requires Mixed(t)
    ensures |vs| == if t.Plain? && |t.groups| == 1 then 0 else 6
  {
    match t
    case Plain(fields) => Values(fields[..|fields| - 1])
    case Elided(left, right) =>
      Values(left) + seq(7 - |left| - |right|, _ => 0) + Values(right[..|right| - 1])
  }

  ghost predicate IsMixedText(s: string) {
    exists t :: Mixed(t) && Render(t) == s
  }

  ghost function MixedReading(s: string): (t: Text)
    requires IsMixedText(s)
    ensures Mixed(t) && Render(t) == s
  {
    var t :| Mixed(t) && Render(t) == s;
    t
  }

  lemma Ipv4TextShape(s: string)
    requires IsIpv4Text(s)
    ensures |s| >= 7 && '.' in s && ':' !in s && '\0' !in s
  {
    var parts :| |parts| == 4 && (forall i :: 0 <= i < 4 ==> IsOctet(parts[i])) && s == Join('.', parts);
    assert parts[1..][1..] == parts[2..] && parts[2..][1..] == parts[3..];
    assert Join('.', parts[3..]) == parts[3];
    assert Join('.', parts[2..]) == parts[2] + ['.'] + parts[3];
    assert Join('.', parts[1..]) == parts[1] + ['.'] + (parts[2] + ['.'] + parts[3]);
  }

  /** The last field of a text with a tail: too long for a group, and with dots. */
  function LastField(t: Text): string
    requires match t case Plain(f) => f != [] case Elided(_, r) => r != []
  {
    match t
    case Plain(fields) => fields[|fields| - 1]
    case Elided(_, right) => right[|right| - 1]
  }

  lemma MixedIsShaped(t: Text)
    requires Mixed(t)
    ensures Shaped(t) && |LastField(t)| >= 7 && '.' in LastField(t)
  {
    Ipv4TextShape(LastField(t));
    match t
    case Plain(fields) =>
      var n := |fields| - 1;
      forall i | 0 <= i <= n
        ensures fields[i] != "" && ':' !in fields[i] && '\0' !in fields[i]
      {
        assert i < n ==> fields[i] == fields[..n][i];
      }
    case Elided(left, right) =>
      var n := |right| - 1;
      forall i | 0 <= i <= n
        ensures right[i] != "" && ':' !in right[i] && '\0' !in right[i]
      {
        assert i < n ==> right[i] == right[..n][i];
      }
  }

  lemma MixedReadingOfRender(t: Text)
    requires Mixed(t)
    ensures IsMixedText(Render(t)) && MixedReading(Render(t)) == t
  {
    MixedIsShaped(t);
    MixedIsShaped(MixedReading(Render(t)));
    RenderInjective(t, MixedReading(Render(t)));
  }
}
