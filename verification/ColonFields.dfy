/**
 getcolon: one field of an IPv6 text, found by counting colons and copied into a five-character
 buffer. On a text with an IPv4 tail the loops can go behind the text, and the tail does not fit the
 buffer; the model stops there and says so.
 */
module ColonFields {
  import opened Labels
  import opened Numbers
  import opened Options
  import opened Ipv6Text

  // ---------------------------------------------------------------------------------------------
  // The loops

  method CountDoubles(addr: string) returns (compressed: nat)
    requires |addr| > 0
    ensures compressed > 0 <==> exists i :: 0 <= i < |addr| && DoubleAt(addr, i)
  {
    compressed := 0;
    var x := 0;
    while x < |addr| - 1
      invariant 0 <= x <= |addr| - 1
      invariant compressed > 0 <==> exists i :: 0 <= i < x && DoubleAt(addr, i)
    {
      if addr[x] == ':' && addr[x + 1] == ':' {
        assert DoubleAt(addr, x);
        compressed := compressed + 1;
      }
      x := x + 1;
    }
  }

  /** Stops at the first doubled colon, counting the colons before it. */
  method ScanToDouble(addr: string) returns (cstart: nat, x: nat)
    requires exists i :: 0 <= i < |addr| && DoubleAt(addr, i)
    ensures DoubleAt(addr, x) && forall i :: 0 <= i < x ==> !DoubleAt(addr, i)
    ensures cstart == Colons(addr[..x])
  {
    cstart, x := 0, 0;
    while x < |addr| - 1
      invariant 0 <= x <= |addr| - 1
      invariant forall i :: 0 <= i < x ==> !DoubleAt(addr, i)
      invariant cstart == Colons(addr[..x])
    {
      if addr[x] == ':' && addr[x + 1] == ':' {
        break;
      }
      assert addr[..x + 1] == addr[..x] + [addr[x]];
      if addr[x] == ':' {
        cstart := cstart + 1;
      }
      x := x + 1;
    }
  }

  method CountColonsFrom(addr: string, start: nat) returns (cend: nat)
    requires start <= |addr|
    ensures cend == Colons(addr[start..])
  {
    cend := 0;
    var x := start;
    while x < |addr|
      invariant start <= x <= |addr|
      invariant cend == Colons(addr[start..x])
    {
      assert addr[start..x + 1] == addr[start..x] + [addr[x]];
      if addr[x] == ':' {
        cend := cend + 1;
      }
      x := x + 1;
    }
    assert addr[start..x] == addr[start..];
  }

  /** The parts from the one after part x, each behind a colon, then the rest. */
  ghost function Following(parts: seq<string>, x: nat, rest: string): string
    requires x < |parts|
    decreases |parts| - x
  {
    if x + 1 == |parts| then rest else [':'] + parts[x + 1] + Following(parts, x + 1, rest)
  }

  lemma {:induction false} FollowingJoin(parts: seq<string>, x: nat, rest: string)
    requires x < |parts|
    ensures Join(':', parts[x..]) + rest == parts[x] + Following(parts, x, rest)
    decreases |parts| - x
  {
    if x + 1 < |parts| {
      FollowingJoin(parts, x + 1, rest);
      assert parts[x..][1..] == parts[x + 1..];
      assert Join(':', parts[x..]) + rest == parts[x] + ([':'] + (Join(':', parts[x + 1..]) + rest));
      var next := Following(parts, x + 1, rest);
      assert [':'] + (parts[x + 1] + next) == [':'] + parts[x + 1] + next;
    }
  }

  lemma FollowingStep(parts: seq<string>, x: nat, rest: string)
    requires x < |parts|
    ensures Following(parts, x, rest)
         == if x + 1 == |parts| then rest else [':'] + parts[x + 1] + Following(parts, x + 1, rest)
  {
  }

  /** Walks over pos - from colons, to the start of that part. When there is no such part the C loop goes
      on behind the text. */
  method SkipColons(addr: string, start: nat, from: int, pos: int, ghost parts: seq<string>, ghost rest: string)
    returns (found: bool, y: nat)
    requires start <= |addr| && parts != [] && Separable(':', parts)
    requires addr[start..] == parts[0] + Following(parts, 0, rest)
    requires from <= pos && (pos < from + |parts| || rest == "")
    ensures found <==> pos < from + |parts|
    ensures found ==> y <= |addr| && addr[y..] == parts[pos - from] + Following(parts, pos - from, rest)
  {
    hide Following, Join;
    y := start;
    var x := from;
    ghost var part := parts[0];
    while x < pos
      invariant from <= x <= pos && x < from + |parts| && start <= y <= |addr|
      invariant ':' !in part && (x == pos ==> part == parts[x - from])
      invariant addr[y..] == part + Following(parts, x - from, rest)
      decreases |addr| - y
    {
      FollowingStep(parts, x - from, rest);
      if y == |addr| {
        return false, y;
      }
      assert addr[y..] != "" && addr[y] == addr[y..][0];
      assert addr[y + 1..] == addr[y..][1..];
      if addr[y] == ':' {
        assert part == "";
        x := x + 1;
        part := parts[x - from];
      } else {
        assert part != "";
        part := part[1..];
      }
      y := y + 1;
    }
    found := true;
  }

  /** The characters before the first terminator. */
  function CString(s: seq<char>): string {
    if s == [] || s[0] == '\0' then "" else [s[0]] + CString(s[1..])
  }

  /** A five-character buffer with a text of at most four characters, and zeros behind it. */
  ghost predicate Holds(s: seq<char>, text: string) {
    |s| == 5 && |text| <= 4 && '\0' !in text && s[..|text|] == text
    && forall i :: |text| <= i < 5 ==> s[i] == '\0'
  }

  lemma {:induction false} CStringOf(s: seq<char>, n: nat)
    requires n < |s| && s[n] == '\0' && '\0' !in s[..n]
    ensures CString(s) == s[..n]
  {
    if n > 0 {
      assert s[..n][0] == s[0] && s[1..][..n - 1] == s[..n][1..];
      CStringOf(s[1..], n - 1);
    }
  }

  /** Copies one field into the zeroed buffer. It fits, with its terminator, exactly when it has at most
      four characters. */
  method CopyGroup(addr: string, start: nat, str: array<char>, ghost part: string, ghost rest: string)
    returns (fits: bool)
    requires str.Length == 5 && start <= |addr|
    requires addr[start..] == part + rest && ':' !in part && '\0' !in part
    requires rest != "" ==> rest[0] == ':'
    requires Holds(str[..], "")
    modifies str
    ensures fits <==> |part| <= 4
    ensures fits ==> Holds(str[..], part)
  {
    var x, y := 0, start;
    while y < |addr| && addr[y] != ':'
      invariant 0 <= x <= |part| && x <= 5 && y == start + x <= |addr|
      invariant addr[y..] == part[x..] + rest
      invariant str[..x] == part[..x]
      invariant forall i :: x <= i < 5 ==> str[i] == '\0'
      decreases |addr| - y
    {
      assert addr[y] == addr[y..][0] && addr[y + 1..] == addr[y..][1..];
      if x == str.Length {
        return false;
      }
      str[x] := addr[y];
      x := x + 1;
      y := y + 1;
    }
    fits := x < str.Length;
  }

  method Bzero(str: array<char>)
    requires str.Length == 5
    modifies str
    ensures Holds(str[..], "")
  {
    for i := 0 to 5
      invariant forall k :: 0 <= k < i ==> str[k] == '\0'
    {
      str[i] := '\0';
    }
  }

  /** strtol in base 16, on the digits that a group is made of. */
  function Strtol16(s: string): nat
    requires AllHex(s)
  {
    HexValue(s)
  }

  /** An empty buffer reads as "0". */
  method ReadGroup(str: array<char>, ghost part: string) returns (v: nat)
    requires str.Length == 5 && Holds(str[..], part) && AllHex(part)
    modifies str
    ensures v == HexValue(part)
  {
    ghost var text := if part == "" then "0" else part;
    if str[0] == '\0' {
      str[0] := '0';
    }
    ZeroGroup();
    CStringOf(str[..], |text|);
    assert str[..][..|text|] == text;
    v := Strtol16(CString(str[..]));
  }

  // ---------------------------------------------------------------------------------------------
  // getcolon

  predicate IsV6TypeStandard(addr: string) {
    '.' !in addr
  }

  lemma HexHasNoMarks(s: string)
    requires AllHex(s)
    ensures '.' !in s && ':' !in s && '\0' !in s
  {
  }

  lemma {:induction false} JoinHasNoDots(parts: seq<string>)
    requires parts != [] && AllGroups(parts)
    ensures '.' !in Join(':', parts)
  {
    HexHasNoMarks(parts[0]);
    if |parts| > 1 {
      JoinHasNoDots(parts[1..]);
    }
  }

  lemma TextIsStandard(t: Text)
    requires Valid(t)
    ensures IsV6TypeStandard(Render(t))
  {
    match t
    case Plain(g) =>
      JoinHasNoDots(g);
    case Elided(l, r) =>
      if l != [] {
        JoinHasNoDots(l);
      }
      if r != [] {
        JoinHasNoDots(r);
      }
  }

  lemma {:induction false} LastOfJoin(parts: seq<string>)
    requires parts != []
    ensures var s, last := Join(':', parts), parts[|parts| - 1]; |last| <= |s| && s[|s| - |last|..] == last
  {
    if |parts| > 1 {
      LastOfJoin(parts[1..]);
    }
  }

  lemma DotFromEnd(s: string, last: string)
    requires |last| <= |s| && s[|s| - |last|..] == last && '.' in last
    ensures '.' in s
  {
    assert forall c :: c in s[|s| - |last|..] ==> c in s;
  }

  lemma MixedIsNotStandard(t: Text)
    requires Mixed(t)
    ensures !IsV6TypeStandard(Render(t))
  {
    MixedIsShaped(t);
    var fields := match t case Plain(f) => f case Elided(_, r) => r;
    hide Mixed, Shaped, IsIpv4Text, Join, Valid;
    LastOfJoin(fields);
    DotFromEnd(Join(':', fields), LastField(t));
  }

  /** The fields of one side of the text; an empty side is one empty field. */
  ghost function Side(parts: seq<string>): (side: seq<string>)
    ensures side != [] && |side| == Gaps(parts) + 1 && JoinAll(parts) == Join(':', side)
  {
    if parts == [] then [""] else parts
  }

  lemma SideFields(parts: seq<string>)
    requires AllFields(parts)
    ensures Separable(':', Side(parts))
    ensures forall i :: 0 <= i < |Side(parts)| ==> ':' !in Side(parts)[i] && '\0' !in Side(parts)[i]
  {
  }

  lemma SideGroups(parts: seq<string>, i: nat)
    requires AllGroups(parts) && i < |Side(parts)|
    ensures var g := Side(parts)[i]; |g| <= 4 && AllHex(g)
    ensures HexValue(Side(parts)[i]) == if parts == [] then 0 else Values(parts)[i]
  {
  }

  /** Skips to one field of a side and copies it. */
  method CopyFromSide(addr: string, start: nat, from: int, pos: int, str: array<char>,
                      ghost parts: seq<string>, ghost rest: string)
    returns (ok: bool)
    requires start <= |addr| && str.Length == 5 && AllFields(parts)
    requires addr[start..] == JoinAll(parts) + rest && (rest != "" ==> rest[0] == ':')
    requires from <= pos && (pos < from + |Side(parts)| || rest == "")
    requires Holds(str[..], "")
    modifies str
    ensures ok <==> pos < from + |Side(parts)| && |Side(parts)[pos - from]| <= 4
    ensures ok ==> Holds(str[..], Side(parts)[pos - from])
  {
    ghost var side := Side(parts);
    SideFields(parts);
    FollowingJoin(side, 0, rest);
    assert side[0..] == side;
    var found, y := SkipColons(addr, start, from, pos, side, rest);
    if !found {
      return false;
    }
    FollowingStart(side, pos - from, rest);
    ok := CopyGroup(addr, y, str, side[pos - from], Following(side, pos - from, rest));
  }

  lemma FollowingStart(parts: seq<string>, x: nat, rest: string)
    requires x < |parts| && (rest != "" ==> rest[0] == ':')
    ensures var f := Following(parts, x, rest); f != "" ==> f[0] == ':'
  {
  }

  /** The field that getcolon looks for: a field of the text, a zero of the gap, or none when the count of
      colons leads behind the text. */
  ghost function Picked(t: Text, pos: nat, max: int): Option<string> {
    match t
    case Plain(fields) => if pos < |fields| then Some(fields[pos]) else None
    case Elided(left, right) =>
      var first := max - Gaps(right);
      if 0 <= pos - first < |Side(right)| then Some(Side(right)[pos - first])
      else if pos >= first then None
      else if pos <= Gaps(left) then Some(Side(left)[pos])
      else Some("0")
  }

  ghost predicate Fits(picked: Option<string>) {
    picked.Some? && |picked.value| <= 4
  }

  /** What the copies leave in the buffer, when it fits. */
  ghost predicate Copied(ok: bool, str: seq<char>, picked: Option<string>) {
    (ok <==> Fits(picked)) && (ok ==> Holds(str, picked.value))
  }

  /** The copy from the fields before the "::". */
  method CopyLeft(addr: string, pos: nat, str: array<char>, ghost t: Text) returns (ok: bool)
    requires t.Elided? && Shaped(t) && AllGroups(t.left) && addr == Render(t)
    requires pos <= Gaps(t.left) && str.Length == 5 && Holds(str[..], "")
    modifies str
    ensures ok && Holds(str[..], Side(t.left)[pos])
  {
    hide JoinAll, Holds;
    assert addr[0..] == JoinAll(t.left) + ("::" + JoinAll(t.right));
    SideGroups(t.left, pos);
    ok := CopyFromSide(addr, 0, 0, pos, str, t.left, "::" + JoinAll(t.right));
  }

  /** The copy from the fields behind the "::", which start at position first. */
  method CopyRight(addr: string, first: int, pos: int, str: array<char>, ghost t: Text) returns (ok: bool)
    requires t.Elided? && Shaped(t) && addr == Render(t) && str.Length == 5 && first <= pos
    modifies str
    ensures ok <==> pos - first < |Side(t.right)| && |Side(t.right)[pos - first]| <= 4
    ensures ok ==> Holds(str[..], Side(t.right)[pos - first])
  {
    hide Render, JoinAll, Colons, Holds;
    ElidedShape(t.left, t.right);
    var _, y := ScanToDouble(addr);
    assert y == |JoinAll(t.left)|;
    Bzero(str);
    assert addr[y + 2..] == JoinAll(t.right) + "";
    ok := CopyFromSide(addr, y + 2, first, pos, str, t.right, "");
  }

  /** The colons on both sides of the "::". */
  method CountColons(addr: string, ghost t: Text) returns (cstart: nat, cend: int)
    requires t.Elided? && Shaped(t) && addr == Render(t)
    ensures cstart == Gaps(t.left) && cend == Gaps(t.right)
  {
    hide Render, JoinAll, Colons;
    ElidedShape(t.left, t.right);
    var x;
    cstart, x := ScanToDouble(addr);
    assert x == |JoinAll(t.left)|;
    cend := CountColonsFrom(addr, x + 2);
    if addr[|addr| - 1] == ':' && addr[|addr| - 2] != ':' {
      cend := cend - 1;
    }
  }

  /** The branch for a text with a "::". */
  method ElidedGroup(addr: string, pos: nat, max: int, str: array<char>, ghost t: Text) returns (ok: bool)
    requires t.Elided? && Shaped(t) && AllGroups(t.left) && addr == Render(t)
    requires Gaps(t.left) < max - Gaps(t.right) || (t.left == [] && Gaps(t.right) <= max)
    requires str.Length == 5
    modifies str
    ensures Copied(ok, str[..], Picked(t, pos, max))
  {
    hide Render, Shaped;
    var cstart, cend := CountColons(addr, t);
    Bzero(str);
    ok := true;
    if pos <= cstart {
      ok := CopyLeft(addr, pos, str, t);
    }
    if pos > cstart && pos < max - cend {
      str[0] := '0';
    }
    if pos >= max - cend {
      ok := CopyRight(addr, max - cend, pos, str, t);
    }
  }

  lemma ZeroGroup()
    ensures AllHex("0") && HexValue("0") == 0
  {
  }

  /** On a text of groups, every position from 0 to 7 picks its group. */
  lemma PickedGroup(t: Text, pos: nat)
    requires Valid(t) && pos < 8
    ensures var p := Picked(t, pos, 7); Fits(p) && AllHex(p.value) && HexValue(p.value) == Groups(t)[pos]
  {
    hide HexValue;
    ZeroGroup();
    match t
    case Plain(groups) =>
    case Elided(left, right) =>
      var first := 7 - Gaps(right);
      if pos >= first {
        SideGroups(right, pos - first);
      } else if pos <= Gaps(left) {
        SideGroups(left, pos);
      }
  }

  /** The group that comes out at a position before the tail: behind a "::" the fields on the right are
      counted from the wrong end, so the groups there come out one position early. */
  ghost function Slipped(t: Text, pos: nat): nat
    requires Mixed(t)
  {
    var k := if t.Elided? && pos >= 6 - |t.right| then pos + 1 else pos;
    if k < |GroupsBeforeTail(t)| then GroupsBeforeTail(t)[k] else 0
  }

  /** Where getcolon comes to the tail. */
  function TailIndex(t: Text): int {
    match t
    case Plain(fields) => |fields| - 1
    case Elided(_, _) => 5
  }

  /** The tail itself is picked behind the groups of a full text, at position 5 when there is a "::", and
      at once when there is nothing else; it never fits. */
  lemma PickedTail(t: Text, pos: nat)
    requires Mixed(t)
    ensures Fits(Picked(t, pos, 5)) <==> pos < TailIndex(t)
    ensures Fits(Picked(t, pos, 5)) ==>
              var p := Picked(t, pos, 5).value; AllHex(p) && HexValue(p) == Slipped(t, pos)
  {
    hide HexValue, IsIpv4Text;
    ZeroGroup();
    MixedIsShaped(t);
    match t
    case Plain(fields) =>
      var n := |fields| - 1;
      assert pos < n ==> fields[pos] == fields[..n][pos] && Values(fields[..n])[pos] == HexValue(fields[pos]);
    case Elided(left, right) =>
      var n, first := |right| - 1, 6 - |right|;
      if first <= pos < 5 {
        assert right[pos - first] == right[..n][pos - first];
        assert GroupsBeforeTail(t)[pos + 1] == Values(right[..n])[pos - first];
      } else if pos < first {
        PickedBeforeGap(t, pos);
      }
  }

  lemma PickedBeforeGap(t: Text, pos: nat)
    requires Mixed(t) && t.Elided? && pos < 6 - |t.right|
    ensures Fits(Picked(t, pos, 5))
    ensures var p := Picked(t, pos, 5).value; AllHex(p) && HexValue(p) == GroupsBeforeTail(t)[pos]
  {
    hide HexValue, IsIpv4Text;
    ZeroGroup();
    if pos <= Gaps(t.left) {
      SideGroups(t.left, pos);
    }
  }

  /** The same position, counted in the text. */
  ghost function TailPosition(addr: string): nat {
    if exists i :: 0 <= i < |addr| && DoubleAt(addr, i) then 5 else Colons(addr)
  }

  ghost function ReadingOf(addr: string): (t: Text)
    requires IsIpv6Text(addr) || IsMixedText(addr)
    ensures Valid(t) || Mixed(t)
    ensures Render(t) == addr
  {
    if IsIpv6Text(addr) then Reading(addr) else MixedReading(addr)
  }

  /** A text is of one kind only, and the dot tells which. */
  lemma KindOfText(addr: string)
    requires IsIpv6Text(addr) || IsMixedText(addr)
    ensures IsIpv6Text(addr) <==> IsV6TypeStandard(addr)
    ensures IsMixedText(addr) <==> !IsV6TypeStandard(addr)
    ensures Shaped(ReadingOf(addr))
    ensures IsIpv6Text(addr) ==> Valid(ReadingOf(addr)) && ReadingOf(addr) == Reading(addr)
    ensures IsMixedText(addr) ==> Mixed(ReadingOf(addr)) && ReadingOf(addr) == MixedReading(addr)
  {
    hide Render, Valid, Mixed, Shaped, IsV6TypeStandard;
    if IsIpv6Text(addr) {
      TextIsStandard(Reading(addr));
      ValidIsShaped(Reading(addr));
    }
    if IsMixedText(addr) {
      MixedIsNotStandard(MixedReading(addr));
      MixedIsShaped(MixedReading(addr));
    }
  }

  /** How the sides of an accepted text meet the positions. */
  lemma SidesMeet(t: Text, max: int)
    requires (Valid(t) && max == 7) || (Mixed(t) && max == 5)
    ensures t.Elided? ==>
              && AllGroups(t.left)
              && (Gaps(t.left) < max - Gaps(t.right) || (t.left == [] && Gaps(t.right) <= max))
  {
  }

  /** Where the text has a doubled colon. */
  lemma DoubledExactly(t: Text)
    requires Shaped(t)
    ensures (exists i :: 0 <= i < |Render(t)| && DoubleAt(Render(t), i)) <==> t.Elided?
    ensures t.Plain? ==> Colons(Render(t)) == |t.groups| - 1
    ensures Render(t) != ""
  {
    hide Colons;
    match t
    case Plain(fields) =>
      JoinedFields(fields);
    case Elided(left, right) =>
      ElidedShape(left, right);
  }

  lemma TailWithinEight(addr: string)
    requires IsMixedText(addr)
    ensures TailPosition(addr) == TailIndex(MixedReading(addr)) <= 6
  {
    MixedIsShaped(MixedReading(addr));
    DoubledExactly(MixedReading(addr));
  }

  lemma Ipv4Example(s: string)
    requires s == "1.2.3.4"
    ensures IsIpv4Text(s)
  {
    var octets := ["1", "2", "3", "4"];
    forall i | 0 <= i < 4
      ensures IsOctet(octets[i])
    {
      assert octets[i][..0] == "" && ParseDecimal("") == 0;
    }
    assert octets[1..] == ["2", "3", "4"] && octets[1..][1..] == ["3", "4"];
    assert Join('.', ["3", "4"]) == "3.4";
    assert Join('.', ["2", "3", "4"]) == "2.3.4" by {
      assert ["2", "3", "4"][1..] == ["3", "4"];
    }
    assert Join('.', octets) == s;
  }

  lemma KindOfRendered(t: Text, s: string)
    requires Mixed(t) && Render(t) == s
    ensures IsMixedText(s) && TailPosition(s) == TailIndex(t)
  {
    MixedIsShaped(t);
    DoubledExactly(t);
  }

  /** Accepted texts with an IPv4 part: alone, and behind a "::". */
  lemma TextsWithTail()
    ensures IsMixedText("1.2.3.4") && TailPosition("1.2.3.4") == 0
    ensures IsMixedText("::1.2.3.4") && TailPosition("::1.2.3.4") == 5
  {
    hide IsIpv4Text, IsMixedText, Colons, TailPosition;
    Ipv4Example("1.2.3.4");
    KindOfRendered(Plain(["1.2.3.4"]), "1.2.3.4");
    KindOfRendered(Elided([], ["1.2.3.4"]), "::1.2.3.4");
  }

  /** The search for the field and the copy. */
  method CopyPicked(addr: string, pos: nat, max: int, str: array<char>, ghost t: Text) returns (ok: bool)
    requires Shaped(t) && Render(t) == addr && str.Length == 5
    requires (Valid(t) && max == 7) || (Mixed(t) && max == 5)
    modifies str
    ensures Copied(ok, str[..], Picked(t, pos, max))
  {
    hide Valid, Mixed;
    SidesMeet(t, max);
    DoubledExactly(t);
    var compressed := CountDoubles(addr);
    if compressed == 0 {
      Bzero(str);
      assert addr[0..] == JoinAll(t.groups) + "";
      ok := CopyFromSide(addr, 0, 0, pos, str, t.groups, "");
    } else {
      ok := ElidedGroup(addr, pos, max, str, t);
    }
  }

  /** On every text that inet_pton accepts. Group pos of a text in groups is the value that the text's
      reading gives it. With an IPv4 tail a value comes out only before the position of the tail, one
      group early behind a "::"; at the tail the buffer overflows, and behind it the count of colons leads
      out of the text. */
  method GetColon(addr: string, pos: nat) returns (value: Option<nat>)
    requires (IsIpv6Text(addr) || IsMixedText(addr)) && pos < 8
    ensures IsIpv6Text(addr) ==> value == Some(Groups(Reading(addr))[pos])
    ensures IsMixedText(addr) ==> (value.Some? <==> pos < TailPosition(addr))
    ensures IsMixedText(addr) && value.Some? ==> value.value == Slipped(MixedReading(addr), pos)
  {
    KindOfText(addr);
    ghost var t := ReadingOf(addr);
    DoubledExactly(t);
    var max := if IsV6TypeStandard(addr) then 7 else 5;
    if Valid(t) && max == 7 {
      PickedGroup(t, pos);
    } else {
      PickedTail(t, pos);
    }
    hide Render, Valid, Mixed, Shaped, Picked, Groups, Slipped, Holds;
    var str := new char[5];
    var ok := CopyPicked(addr, pos, max, str, t);
    if !ok {
      return None;
    }
    var v := ReadGroup(str, Picked(t, pos, max).value);
    value := Some(v);
  }

  lemma Fffe(s: string)
    requires s == "FFFE::"
    ensures IsIpv6Text(s) && '.' !in s
    ensures Groups(Reading(s)) == [0xfffe, 0, 0, 0, 0, 0, 0, 0]
  {
    var t := Elided(["FFFE"], []);
    var places := [15, 15, 15, 14];
    assert Spells("FFFE", places);
    ValueByPlaces("FFFE", places);
    assert Render(t) == s;
    ReadingOfRender(t);
    PlacesOfFour(15, 15, 15, 14);
    forall k | 0 <= k < 8
      ensures Groups(t)[k] == if k == 0 then 0xfffe else 0
    {
      GroupByPlaces(t, k, places);
    }
  }

  lemma PlacesOfFour(a: nat, b: nat, c: nat, d: nat)
    ensures PlaceSum([a, b, c, d]) == a * 4096 + b * 256 + c * 16 + d
  {
    Pow2Small();
    var s := [a, b, c, d];
    assert s[1..] == [b, c, d] && s[1..][1..] == [c, d] && s[1..][1..][1..] == [d] && [d][1..] == [];
    assert PlaceSum([d]) == d;
    assert PlaceSum([c, d]) == c * Pow2(4) + d;
    assert PlaceSum([b, c, d]) == b * Pow2(8) + PlaceSum([c, d]);
    assert PlaceSum(s) == a * Pow2(12) + PlaceSum([b, c, d]);
  }

  /** Upper-case digits in front of a "::". */
  method FirstGroupOfFffe() returns (value: Option<nat>)
    ensures value == Some(0xfffe)
  {
    Fffe("FFFE::");
    value := GetColon("FFFE::", 0);
  }

  lemma TailBehindGap(t: Text, s: string)
    requires t == Elided(["1"], ["2", "1.2.3.4"]) && s == "1::2:1.2.3.4"
    ensures Mixed(t) && Render(t) == s && Slipped(t, 4) == 2 && TailIndex(t) == 5
  {
    Ipv4Example("1.2.3.4");
    hide IsIpv4Text, PlaceSum, HexValue, GroupsBeforeTail;
    assert ["2", "1.2.3.4"][..1] == ["2"] && ["2", "1.2.3.4"][1..] == ["1.2.3.4"];
    assert Join(':', ["2", "1.2.3.4"]) == "2:1.2.3.4";
    hide Join;
    LastBeforeTail(t);
  }

  lemma LastBeforeTail(t: Text)
    requires Mixed(t) && t == Elided(["1"], ["2", "1.2.3.4"])
    ensures GroupsBeforeTail(t)[5] == 2
  {
    assert t.right[..1] == ["2"];
    assert Spells("2", [2]);
    ValueByPlaces("2", [2]);
    assert PlaceSum([2]) == 2 by {
      assert [2][1..] == [] && Pow2(0) == 1;
    }
  }

  /** With a tail behind a "::", the call for group 4 gives what the text has as group 5. */
  method GroupFourWithTail() returns (value: Option<nat>)
    ensures value == Some(2)
  {
    var addr := "1::2:1.2.3.4";
    ghost var t := Elided(["1"], ["2", "1.2.3.4"]);
    TailBehindGap(t, addr);
    MixedReadingOfRender(t);
    KindOfRendered(t, addr);
    hide Slipped, TailIndex, Mixed;
    value := GetColon(addr, 4);
  }
}
