/** Port lists (types.go): ParsePortRange and PortRange.String. */
module Ports {
  import opened GoStrings
  import opened Strings

  type Uint16 = n: int | 0 <= n < 0x1_0000

  datatype PortRange = PortRange(start: Uint16, end: Uint16)

  datatype Error = InvalidStart(text: Text) | InvalidEnd(text: Text) | Inverted(start: Text, end: Text) | InvalidPort(text: Text)

  datatype Result = Ok(ranges: seq<PortRange>) | Err(error: Error)

  // ---- strings.TrimSpace on UTF-8 text

  predicate AsciiSpace(c: Byte) {
    c == ' ' || 9 <= c as int <= 13
  }

  predicate TwoByteSpace(a: Byte, b: Byte) {
    a as int == 0xC2 && (b as int == 0x85 || b as int == 0xA0)
  }

  predicate ThreeByteSpace(a: Byte, b: Byte, c: Byte) {
    var x, y, z := a as int, b as int, c as int;
    || (x == 0xE1 && y == 0x9A && z == 0x80)
    || (x == 0xE2 && y == 0x80 && (0x80 <= z <= 0x8A || z == 0xA8 || z == 0xA9 || z == 0xAF))
    || (x == 0xE2 && y == 0x81 && z == 0x9F)
    || (x == 0xE3 && y == 0x80 && z == 0x80)
  }

  /** Bytes of the space the text starts with. */
  function LeadingSpace(s: Text): (n: nat)
    ensures n <= |s|
  {
    if |s| >= 1 && AsciiSpace(s[0]) then 1
    else if |s| >= 2 && TwoByteSpace(s[0], s[1]) then 2
    else if |s| >= 3 && ThreeByteSpace(s[0], s[1], s[2]) then 3
    else 0
  }

  /** Bytes of the space the text ends with. */
  function TrailingSpace(s: Text): (n: nat)
    ensures n <= |s|
  {
    var k := |s|;
    if k >= 1 && AsciiSpace(s[k - 1]) then 1
    else if k >= 2 && TwoByteSpace(s[k - 2], s[k - 1]) then 2
    else if k >= 3 && ThreeByteSpace(s[k - 3], s[k - 2], s[k - 1]) then 3
    else 0
  }

  function TrimSpace(s: Text): (t: Text)
    ensures forall c <- t :: c in s
    decreases |s|
  {
    if LeadingSpace(s) > 0 then TrimSpace(s[LeadingSpace(s)..])
    else if TrailingSpace(s) > 0 then TrimSpace(s[..|s| - TrailingSpace(s)])
    else s
  }

  // ---- Parsing

  /** strconv.ParseUint(s, 10, 16) */
  function ParseUint16(s: Text): Option<Uint16> {
    if s != "" && AllDigits(s) && Value(s) < 0x1_0000 then Some(Value(s)) else None
  }

  function ParseOne(s: Text): Result {
    if '-' in s then
      var cut := IndexOf(s, '-');
      var start, end := ParseUint16(s[..cut]), ParseUint16(s[cut + 1..]);
      if start.None? then Err(InvalidStart(s[..cut]))
      else if end.None? then Err(InvalidEnd(s[cut + 1..]))
      else if start.value > end.value then Err(Inverted(s[..cut], s[cut + 1..]))
      else Ok([PortRange(start.value, end.value)])
    else
      var port := ParseUint16(s);
      if port.None? then Err(InvalidPort(s)) else Ok([PortRange(port.value, port.value)])
  }

  /** The ranges of the first parts in order, or the first part's error. */
  function Appended(front: Result, last: Result): Result {
    if front.Err? then front else if last.Err? then last else Ok(front.ranges + last.ranges)
  }

  function ParsePlain(s: Text): Result {
    if s == "" then Ok([]) else ParseOne(s)
  }

  function ParseParts(parts: seq<Text>): Result {
    if parts == [] then Ok([])
    else Appended(ParseParts(parts[..|parts| - 1]), ParsePlain(TrimSpace(parts[|parts| - 1])))
  }

  /** The meaning of a port specification: comma-separated parts, each trimmed, or one part as it is. */
  function Parsed(s: Text): Result {
    if ',' in s then ParseParts(Split(s, ',')) else ParsePlain(s)
  }

  lemma {:induction false} SplitHasNoSeparator(s: Text, sep: Byte)
    ensures forall p <- Split(s, sep) :: sep !in p
    decreases |s|
  {
    if sep in s {
      SplitHasNoSeparator(s[IndexOf(s, sep) + 1..], sep);
    }
  }

  /** A part holds no comma, so a recursive call makes no further one. */
  method ParsePortRange(s: Text) returns (result: Result)
    ensures result == Parsed(s)
    decreases ',' in s
  {
    if s == "" {
      return Ok([]);
    }
    if ',' in s {
      var parts := Split(s, ',');
      SplitHasNoSeparator(s, ',');
      var ranges: seq<PortRange> := [];
      for i := 0 to |parts|
        invariant ParseParts(parts[..i]) == Ok(ranges)
      {
        assert parts[i] in parts;
        var rs := ParsePortRange(TrimSpace(parts[i]));
        assert parts[..i + 1][..i] == parts[..i];
        if rs.Err? {
          ErrorStays(parts, i + 1);
          return rs;
        }
        ranges := ranges + rs.ranges;
      }
      assert parts[..|parts|] == parts;
      return Ok(ranges);
    }
    if '-' in s {
      var cut := IndexOf(s, '-');
      var start := ParseUint16(s[..cut]);
      if start.None? {
        return Err(InvalidStart(s[..cut]));
      }
      var end := ParseUint16(s[cut + 1..]);
      if end.None? {
        return Err(InvalidEnd(s[cut + 1..]));
      }
      if start.value > end.value {
        return Err(Inverted(s[..cut], s[cut + 1..]));
      }
      return Ok([PortRange(start.value, end.value)]);
    }
    var port := ParseUint16(s);
    if port.None? {
      return Err(InvalidPort(s));
    }
    return Ok([PortRange(port.value, port.value)]);
  }

  lemma {:induction false} ErrorStays(parts: seq<Text>, i: nat)
    requires i <= |parts| && ParseParts(parts[..i]).Err?
    ensures ParseParts(parts) == ParseParts(parts[..i])
    decreases |parts|
  {
    if i == |parts| {
      assert parts[..i] == parts;
    } else {
      var front := parts[..|parts| - 1];
      assert front[..i] == parts[..i];
      ErrorStays(front, i);
    }
  }

  // ---- Printing, and the two round trips

  function PortString(p: PortRange): Text {
    if p.start == p.end then Decimal(p.start) else Decimal(p.start) + "-" + Decimal(p.end)
  }

  ghost predicate Ordered(ranges: seq<PortRange>) {
    forall p <- ranges :: p.start <= p.end
  }

  ghost function Printed(ranges: seq<PortRange>): (parts: seq<Text>)
    ensures |parts| == |ranges|
    ensures forall i | 0 <= i < |ranges| :: parts[i] == PortString(ranges[i])
  {
    seq(|ranges|, i requires 0 <= i < |ranges| => PortString(ranges[i]))
  }

  lemma DecimalParses(n: Uint16)
    ensures ParseUint16(Decimal(n)) == Some(n)
  {
    ValueOfDecimal(n);
  }

  lemma DashedParses(start: Uint16, end: Uint16)
    requires start <= end
    ensures ParsePlain(Decimal(start) + "-" + Decimal(end)) == Ok([PortRange(start, end)])
  {
    var a, b := Decimal(start), Decimal(end);
    var s := a + ['-'] + b;
    DecimalParses(start);
    DecimalParses(end);
    assert '-' !in a;
    IndexOfAppend(a, '-', b);
    assert s[|a|] == '-';
    assert s[..|a|] == a && s[|a| + 1..] == b;
  }

  /** Text that starts and ends with a digit is not trimmed. */
  lemma DigitsNotTrimmed(s: Text)
    requires s != "" && IsDigit(s[0]) && IsDigit(s[|s| - 1])
    ensures TrimSpace(s) == s
  {
    assert LeadingSpace(s) == 0;
    assert TrailingSpace(s) == 0;
  }

  lemma DecimalEnds(n: nat)
    ensures var a := Decimal(n); IsDigit(a[0]) && IsDigit(a[|a| - 1]) && ',' !in a && '-' !in a
  {
    var a := Decimal(n);
    assert a[0] in a && a[|a| - 1] in a;
  }

  lemma PrintedIsClean(p: PortRange)
    ensures TrimSpace(PortString(p)) == PortString(p) && ',' !in PortString(p)
  {
    DecimalEnds(p.start);
    DecimalEnds(p.end);
    DigitsNotTrimmed(PortString(p));
  }

  lemma PrintedParses(p: PortRange)
    requires p.start <= p.end
    ensures ParsePlain(PortString(p)) == Ok([p])
  {
    if p.start == p.end {
      DecimalParses(p.start);
      DecimalEnds(p.start);
    } else {
      DashedParses(p.start, p.end);
    }
  }

  lemma PartsSnoc(parts: seq<Text>, p: Text)
    ensures ParseParts(parts + [p]) == Appended(ParseParts(parts), ParsePlain(TrimSpace(p)))
  {
    assert (parts + [p])[..|parts|] == parts;
  }

  lemma {:induction false} PrintedPartsParse(ranges: seq<PortRange>)
    requires Ordered(ranges)
    ensures ParseParts(Printed(ranges)) == Ok(ranges)
    ensures forall s <- Printed(ranges) :: ',' !in s
  {
    if ranges != [] {
      var before, last := ranges[..|ranges| - 1], ranges[|ranges| - 1];
      assert last in ranges && forall p <- before :: p in ranges;
      assert ranges == before + [last];
      assert Printed(ranges) == Printed(before) + [PortString(last)];
      PrintedPartsParse(before);
      PrintedParses(last);
      PrintedIsClean(last);
      PartsSnoc(Printed(before), PortString(last));
    }
  }

  /** Printing ordered ranges with commas and parsing the text gives the ranges back. */
  lemma PrintThenParse(ranges: seq<PortRange>)
    requires Ordered(ranges)
    ensures Parsed(Join(Printed(ranges), ',')) == Ok(ranges)
  {
    var parts := Printed(ranges);
    PrintedPartsParse(ranges);
    if |ranges| == 1 {
      assert ranges[0] in ranges;
      PrintedParses(ranges[0]);
      PrintedIsClean(ranges[0]);
      assert parts == [PortString(ranges[0])];
    } else if |ranges| > 1 {
      var text := Join(parts, ',');
      assert text == parts[0] + [','] + Join(parts[1..], ',');
      assert text[|parts[0]|] == ',';
      SplitJoin(parts, ',');
    }
  }

  lemma {:induction false} PartsAreOrdered(parts: seq<Text>)
    ensures ParseParts(parts).Ok? ==> Ordered(ParseParts(parts).ranges)
  {
    if parts != [] {
      PartsAreOrdered(parts[..|parts| - 1]);
    }
  }

  /** Every successful parse yields ordered ranges, so its printed form parses to the same ranges. */
  lemma ParseThenPrint(s: Text)
    requires Parsed(s).Ok?
    ensures Ordered(Parsed(s).ranges)
    ensures Parsed(Join(Printed(Parsed(s).ranges), ',')) == Parsed(s)
  {
    if ',' in s {
      PartsAreOrdered(Split(s, ','));
    }
    PrintThenParse(Parsed(s).ranges);
  }

  // ---- White space, by code point

  /** The code points Unicode counts as white space. */
  predicate WhiteSpace(cp: nat) {
    || 9 <= cp <= 13 || cp == 0x20 || cp == 0x85 || cp == 0xA0 || cp == 0x1680
    || 0x2000 <= cp <= 0x200A || cp == 0x2028 || cp == 0x2029 || cp == 0x202F || cp == 0x205F || cp == 0x3000
  }

  /** UTF-8 (section 3 of RFC 3629), up to three bytes. */
  function Utf8(cp: nat): Text
    requires cp < 0x1_0000
  {
    if cp < 0x80 then [cp as char]
    else if cp < 0x800 then [(0xC0 + cp / 64) as char, (0x80 + cp % 64) as char]
    else [(0xE0 + cp / 4096) as char, (0x80 + cp / 64 % 64) as char, (0x80 + cp % 64) as char]
  }

  ghost predicate SpaceText(u: Text) {
    exists cp: nat :: cp < 0x1_0000 && WhiteSpace(cp) && u == Utf8(cp)
  }

  /** The text starts with white space of n bytes. */
  ghost predicate StartsWithSpace(t: Text, n: nat) {
    0 < n <= |t| && SpaceText(t[..n])
  }

  ghost predicate EndsWithSpace(t: Text, n: nat) {
    0 < n <= |t| && SpaceText(t[|t| - n..])
  }

  /** White space only. */
  ghost predicate Spaces(t: Text)
    decreases |t|
  {
    t == "" || exists n: nat :: StartsWithSpace(t, n) && Spaces(t[n..])
  }

  /** The bytes of one white space. */
  predicate SpaceShape(u: Text) {
    || (|u| == 1 && AsciiSpace(u[0]))
    || (|u| == 2 && TwoByteSpace(u[0], u[1]))
    || (|u| == 3 && ThreeByteSpace(u[0], u[1], u[2]))
  }

  lemma ThreeBytes(cp: nat, hi: nat, mid: nat, lo: nat)
    requires cp == hi * 4096 + mid * 64 + lo && 0 < hi < 16 && mid < 64 && lo < 64 && cp >= 0x800
    ensures Utf8(cp) == [(0xE0 + hi) as char, (0x80 + mid) as char, (0x80 + lo) as char]
  {
    assert cp / 4096 == hi && cp / 64 == hi * 64 + mid && cp % 64 == lo;
  }

  lemma SpaceHasShape(cp: nat)
    requires cp < 0x1_0000 && WhiteSpace(cp)
    ensures SpaceShape(Utf8(cp))
  {
    if cp == 0x1680 {
      ThreeBytes(cp, 1, 0x1A, 0);
    } else if cp == 0x205F {
      ThreeBytes(cp, 2, 1, 0x1F);
    } else if cp == 0x3000 {
      ThreeBytes(cp, 3, 0, 0);
    } else if cp >= 0x2000 {
      ThreeBytes(cp, 2, 0, cp - 0x2000);
    }
  }

  lemma ShapeIsSpace(u: Text)
    requires SpaceShape(u)
    ensures SpaceText(u)
  {
    if |u| == 1 {
      assert u == Utf8(u[0] as int);
    } else if |u| == 2 {
      assert u == Utf8(u[1] as int);
    } else {
      var hi, mid, lo := u[0] as int - 0xE0, u[1] as int - 0x80, u[2] as int - 0x80;
      var cp := hi * 4096 + mid * 64 + lo;
      ThreeBytes(cp, hi, mid, lo);
      assert WhiteSpace(cp);
    }
  }

  lemma SpaceBytes(u: Text)
    ensures SpaceText(u) <==> SpaceShape(u)
  {
    if SpaceText(u) {
      var cp: nat :| cp < 0x1_0000 && WhiteSpace(cp) && u == Utf8(cp);
      SpaceHasShape(cp);
    }
    if SpaceShape(u) {
      ShapeIsSpace(u);
    }
  }

  /** The text starts with white space exactly when bytes are taken off its front, and then those. */
  lemma LeadingSpaceIff(s: Text, n: nat)
    requires 0 < n
    ensures StartsWithSpace(s, n) <==> LeadingSpace(s) == n
  {
    if n <= |s| {
      SpaceBytes(s[..n]);
    }
  }

  lemma TrailingSpaceIff(s: Text, n: nat)
    requires 0 < n
    ensures EndsWithSpace(s, n) <==> TrailingSpace(s) == n
  {
    if n <= |s| {
      SpaceBytes(s[|s| - n..]);
    }
  }

  lemma SpacesCons(u: Text, t: Text)
    requires SpaceText(u) && Spaces(t)
    ensures Spaces(u + t)
  {
    SpaceBytes(u);
    assert (u + t)[..|u|] == u && (u + t)[|u|..] == t;
    assert StartsWithSpace(u + t, |u|);
  }

  lemma SpacesUncons(t: Text) returns (head: Text, tail: Text)
    requires t != "" && Spaces(t)
    ensures t == head + tail && |tail| < |t| && SpaceText(head) && Spaces(tail)
  {
    var n: nat :| StartsWithSpace(t, n) && Spaces(t[n..]);
    head, tail := t[..n], t[n..];
  }

  lemma SpacesThree(head: Text, tail: Text, u: Text)
    requires SpaceText(head) && Spaces(tail + u)
    ensures Spaces(head + tail + u)
  {
    SpacesCons(head, tail + u);
    assert head + (tail + u) == head + tail + u;
  }

  lemma {:induction false} SpacesSnoc(t: Text, u: Text)
    requires SpaceText(u) && Spaces(t)
    ensures Spaces(t + u)
    decreases |t|
  {
    if t == "" {
      SpacesCons(u, "");
      assert u + "" == t + u;
    } else {
      var head, tail := SpacesUncons(t);
      SpacesSnoc(tail, u);
      SpacesThree(head, tail, u);
    }
  }

  /** No white space at either end. */
  ghost predicate Bare(t: Text) {
    forall n: nat :: !StartsWithSpace(t, n) && !EndsWithSpace(t, n)
  }

  lemma NoSpaceIsBare(s: Text)
    requires LeadingSpace(s) == 0 && TrailingSpace(s) == 0
    ensures Bare(s)
  {
    forall n: nat
      ensures !StartsWithSpace(s, n) && !EndsWithSpace(s, n)
    {
      if n > 0 {
        LeadingSpaceIff(s, n);
        TrailingSpaceIff(s, n);
      }
    }
  }

  /** Taking l and r off s leaves t, and nothing more can be taken off. */
  ghost predicate Trimmed(s: Text, l: Text, t: Text, r: Text) {
    s == l + t + r && Spaces(l) && Spaces(r) && Bare(t)
  }

  lemma TrimmedFront(u: Text, s: Text, l: Text, t: Text, r: Text)
    requires SpaceText(u) && Trimmed(s, l, t, r)
    ensures Trimmed(u + s, u + l, t, r)
  {
    SpacesCons(u, l);
    assert u + s == u + l + t + r;
  }

  lemma TrimmedBack(s: Text, u: Text, l: Text, t: Text, r: Text)
    requires SpaceText(u) && Trimmed(s, l, t, r)
    ensures Trimmed(s + u, l, t, r + u)
  {
    SpacesSnoc(r, u);
    assert s + u == l + t + (r + u);
  }

  ghost predicate TrimmedTo(s: Text, t: Text) {
    exists l, r :: Trimmed(s, l, t, r)
  }

  lemma TrimmedAfterFront(u: Text, rest: Text, t: Text)
    requires SpaceText(u) && TrimmedTo(rest, t)
    ensures TrimmedTo(u + rest, t)
  {
    var l, r :| Trimmed(rest, l, t, r);
    TrimmedFront(u, rest, l, t, r);
  }

  lemma TrimmedAfterBack(rest: Text, u: Text, t: Text)
    requires SpaceText(u) && TrimmedTo(rest, t)
    ensures TrimmedTo(rest + u, t)
  {
    var l, r :| Trimmed(rest, l, t, r);
    TrimmedBack(rest, u, l, t, r);
  }

  /** One step of trimming: white space u is taken off the front or the back, or there is none. */
  lemma TrimStep(s: Text) returns (u: Text, rest: Text)
    ensures u == "" ==> TrimSpace(s) == s && Bare(s)
    ensures u != "" ==> SpaceText(u) && (s == u + rest || s == rest + u) && TrimSpace(s) == TrimSpace(rest)
  {
    var m, n := LeadingSpace(s), TrailingSpace(s);
    if m > 0 {
      u, rest := s[..m], s[m..];
      LeadingSpaceIff(s, m);
    } else if n > 0 {
      rest, u := s[..|s| - n], s[|s| - n..];
      TrailingSpaceIff(s, n);
    } else {
      u, rest := "", s;
      NoSpaceIsBare(s);
    }
  }

  lemma TrimmedAfterStep(s: Text, u: Text, rest: Text, t: Text)
    requires SpaceText(u) && TrimmedTo(rest, t) && (s == u + rest || s == rest + u)
    ensures TrimmedTo(s, t)
  {
    if s == u + rest {
      TrimmedAfterFront(u, rest, t);
    } else {
      TrimmedAfterBack(rest, u, t);
    }
  }

  /** Trimming takes off white space at both ends, and all of it. */
  lemma {:induction false} TrimmedSpaces(s: Text)
    ensures TrimmedTo(s, TrimSpace(s))
    decreases |s|
  {
    var u, rest := TrimStep(s);
    if u == "" {
      assert Trimmed(s, "", s, "");
    } else {
      TrimmedSpaces(rest);
      TrimmedAfterStep(s, u, rest, TrimSpace(rest));
    }
  }

  lemma TrimOff(u: Text, s: Text)
    requires SpaceText(u)
    ensures TrimSpace(u + s) == TrimSpace(s)
  {
    SpaceBytes(u);
    assert (u + s)[..|u|] == u && (u + s)[|u|..] == s;
    LeadingSpaceIff(u + s, |u|);
  }

  lemma Regrouped(a: Text, b: Text, c: Text)
    ensures (a + b) + c == a + (b + c)
  {
  }

  lemma {:induction false} TrimLeading(l: Text, s: Text)
    requires Spaces(l)
    ensures TrimSpace(l + s) == TrimSpace(s)
    decreases |l|
  {
    if l == "" {
      assert l + s == s;
    } else {
      var head, tail := SpacesUncons(l);
      Regrouped(head, tail, s);
      TrimLeading(tail, s);
      TrimOff(head, tail + s);
    }
  }

  lemma SpaceBehind(s: Text, u: Text)
    requires SpaceText(u) && s != ""
    ensures LeadingSpace(s + u) == LeadingSpace(s) && TrailingSpace(s + u) == |u| > 0
  {
    SpaceBytes(u);
    var t := s + u;
    assert t[|t| - |u|..] == u;
    TrailingSpaceIff(t, |u|);
    assert t[|s|] == u[0];
  }

  lemma TrimBack(s: Text, u: Text)
    requires SpaceText(u) && s != "" && LeadingSpace(s) == 0
    ensures TrimSpace(s + u) == TrimSpace(s)
  {
    SpaceBehind(s, u);
    assert (s + u)[..|s|] == s;
  }

  lemma {:induction false} TrimOneBehind(s: Text, u: Text)
    requires SpaceText(u)
    ensures TrimSpace(s + u) == TrimSpace(s)
    decreases |s|
  {
    var n := LeadingSpace(s);
    if s == "" {
      TrimOff(u, "");
      assert u + "" == s + u;
    } else if n > 0 {
      var v, rest := s[..n], s[n..];
      LeadingSpaceIff(s, n);
      assert s == v + rest;
      Regrouped(v, rest, u);
      TrimOneBehind(rest, u);
      TrimOff(v, rest + u);
    } else {
      TrimBack(s, u);
    }
  }

  lemma {:induction false} TrimTrailing(s: Text, r: Text)
    requires Spaces(r)
    ensures TrimSpace(s + r) == TrimSpace(s)
    decreases |r|
  {
    if r == "" {
      assert s + r == s;
    } else {
      var head, tail := SpacesUncons(r);
      Regrouped(s, head, tail);
      TrimTrailing(s + head, tail);
      TrimOneBehind(s, head);
    }
  }

  // ---- What a specification means, on its text

  /** Digits that denote a port. */
  predicate PortText(s: Text) {
    s != "" && AllDigits(s) && Value(s) < 65536
  }

  predicate RangeText(s: Text, a: Text, b: Text) {
    s == a + "-" + b && PortText(a) && PortText(b) && Value(a) <= Value(b)
  }

  lemma SinglePort(s: Text)
    requires s != "" && ',' !in s && '-' !in s
    ensures Parsed(s) == if PortText(s) then Ok([PortRange(Value(s), Value(s))]) else Err(InvalidPort(s))
  {
  }

  /** What stands before and after the first dash must be ports, in this order, and not inverted. */
  lemma DashedPart(a: Text, b: Text)
    requires ',' !in a && ',' !in b && '-' !in a
    ensures Parsed(a + "-" + b) ==
            if !PortText(a) then Err(InvalidStart(a))
            else if !PortText(b) then Err(InvalidEnd(b))
            else if Value(a) > Value(b) then Err(Inverted(a, b))
            else Ok([PortRange(Value(a), Value(b))])
  {
    var s := a + ['-'] + b;
    assert a + "-" + b == s;
    IndexOfAppend(a, '-', b);
    assert s[|a|] == '-';
    assert s[..|a|] == a && s[|a| + 1..] == b;
    assert ',' !in s;
  }

  /** A dashed pair of numbers parses to the range it names if and only if both are ports and not inverted; otherwise it is an error. */
  lemma RangeParsesIff(a: Text, b: Text)
    requires a != "" && AllDigits(a) && b != "" && AllDigits(b)
    ensures Value(a) < 65536 && Value(b) < 65536 && Value(a) <= Value(b) ==>
              Parsed(a + "-" + b) == Ok([PortRange(Value(a), Value(b))])
    ensures !(Value(a) < 65536 && Value(b) < 65536 && Value(a) <= Value(b)) ==> Parsed(a + "-" + b).Err?
  {
    assert ',' !in a && ',' !in b && '-' !in a;
    DashedPart(a, b);
  }

  /** A specification without a comma is accepted if and only if it is empty, a port, or a range. */
  lemma SinglePartIff(s: Text)
    requires ',' !in s
    ensures Parsed(s).Ok? <==> s == "" || PortText(s) || exists a: Text, b: Text :: RangeText(s, a, b)
  {
    if '-' in s {
      var cut := IndexOf(s, '-');
      var a, b := s[..cut], s[cut + 1..];
      assert s == a + "-" + b;
      DashedPart(a, b);
      if Parsed(s).Ok? {
        assert RangeText(s, a, b);
      }
      if c: Text, d: Text :| RangeText(s, c, d) {
        assert ',' !in c && ',' !in d && '-' !in c;
        DashedPart(c, d);
      }
      assert !PortText(s);
    } else if s != "" {
      SinglePort(s);
      forall a: Text, b: Text
        ensures !RangeText(s, a, b)
      {
        assert '-' in a + "-" + b;
      }
    }
  }

  ghost function Flattened(lists: seq<seq<PortRange>>): seq<PortRange> {
    if lists == [] then [] else Flattened(lists[..|lists| - 1]) + lists[|lists| - 1]
  }

  lemma {:induction false} PartsParse(parts: seq<Text>, lists: seq<seq<PortRange>>)
    requires |lists| == |parts|
    requires forall i | 0 <= i < |parts| :: ParsePlain(TrimSpace(parts[i])) == Ok(lists[i])
    ensures ParseParts(parts) == Ok(Flattened(lists))
  {
    if parts != [] {
      PartsParse(parts[..|parts| - 1], lists[..|parts| - 1]);
    }
  }

  lemma PartMeaning(p: Text)
    requires ',' !in p
    ensures Parsed(TrimSpace(p)) == ParsePlain(TrimSpace(p))
  {
  }

  lemma JoinedIsList(parts: seq<Text>)
    requires |parts| >= 2 && forall p <- parts :: ',' !in p
    ensures Parsed(Join(parts, ',')) == ParseParts(parts)
  {
    var text := Join(parts, ',');
    assert text == parts[0] + [','] + Join(parts[1..], ',');
    assert text[|parts[0]|] == ',';
    SplitJoin(parts, ',');
  }

  /** A comma list of parts that parse, white space around them apart, parses to all their ranges in order. */
  lemma ListParses(parts: seq<Text>, lists: seq<seq<PortRange>>)
    requires |parts| >= 2 && forall p <- parts :: ',' !in p
    requires |lists| == |parts| && forall i | 0 <= i < |parts| :: Parsed(TrimSpace(parts[i])) == Ok(lists[i])
    ensures Parsed(Join(parts, ',')) == Ok(Flattened(lists))
  {
    forall i | 0 <= i < |parts|
      ensures ParsePlain(TrimSpace(parts[i])) == Ok(lists[i])
    {
      assert parts[i] in parts;
      PartMeaning(parts[i]);
    }
    PartsParse(parts, lists);
    JoinedIsList(parts);
  }

  lemma {:induction false} FirstErrorStops(parts: seq<Text>, i: nat)
    requires i < |parts| && forall j | 0 <= j < i :: ParsePlain(TrimSpace(parts[j])).Ok?
    requires ParsePlain(TrimSpace(parts[i])).Err?
    ensures ParseParts(parts[..i]).Ok? && ParseParts(parts[..i + 1]) == ParsePlain(TrimSpace(parts[i]))
  {
    assert parts[..i + 1][..i] == parts[..i];
    if i > 0 {
      PrefixParses(parts, i);
    }
  }

  lemma {:induction false} PrefixParses(parts: seq<Text>, i: nat)
    requires i <= |parts| && forall j | 0 <= j < i :: ParsePlain(TrimSpace(parts[j])).Ok?
    ensures ParseParts(parts[..i]).Ok?
  {
    if i > 0 {
      assert parts[..i][..i - 1] == parts[..i - 1];
      PrefixParses(parts, i - 1);
    }
  }

  /** A comma list with parts that do not parse is the error of the first of them. */
  lemma ListFails(parts: seq<Text>, i: nat)
    requires |parts| >= 2 && forall p <- parts :: ',' !in p
    requires i < |parts| && Parsed(TrimSpace(parts[i])).Err? && forall j | 0 <= j < i :: Parsed(TrimSpace(parts[j])).Ok?
    ensures Parsed(Join(parts, ',')) == Parsed(TrimSpace(parts[i]))
  {
    forall j | 0 <= j < |parts|
      ensures Parsed(TrimSpace(parts[j])) == ParsePlain(TrimSpace(parts[j]))
    {
      assert parts[j] in parts;
      PartMeaning(parts[j]);
    }
    FirstErrorStops(parts, i);
    ErrorStays(parts, i + 1);
    JoinedIsList(parts);
  }

  /** The part with white space around it. */
  ghost predicate Padded(p: Text, q: Text) {
    exists l, r :: Spaces(l) && Spaces(r) && q == l + p + r
  }

  lemma PaddingTrimmed(p: Text, q: Text)
    requires Padded(p, q)
    ensures TrimSpace(q) == TrimSpace(p)
  {
    var l, r :| Spaces(l) && Spaces(r) && q == l + p + r;
    assert q == l + (p + r);
    TrimLeading(l, p + r);
    TrimTrailing(p, r);
  }

  lemma {:induction false} SamePartsParse(parts: seq<Text>, padded: seq<Text>)
    requires |padded| == |parts| && forall i | 0 <= i < |parts| :: TrimSpace(padded[i]) == TrimSpace(parts[i])
    ensures ParseParts(padded) == ParseParts(parts)
  {
    if parts != [] {
      SamePartsParse(parts[..|parts| - 1], padded[..|parts| - 1]);
    }
  }

  /** White space around the parts of a comma list changes nothing. */
  lemma SpacesIgnored(parts: seq<Text>, padded: seq<Text>)
    requires |padded| == |parts| >= 2 && (forall p <- parts :: ',' !in p) && forall p <- padded :: ',' !in p
    requires forall i | 0 <= i < |parts| :: Padded(parts[i], padded[i])
    ensures Parsed(Join(padded, ',')) == Parsed(Join(parts, ','))
  {
    forall i | 0 <= i < |parts|
      ensures TrimSpace(padded[i]) == TrimSpace(parts[i])
    {
      PaddingTrimmed(parts[i], padded[i]);
    }
    SamePartsParse(parts, padded);
    JoinedIsList(parts);
    JoinedIsList(padded);
  }

  /** A single port is printed as its decimal, without a dash; any other range has one between its ends. */
  lemma PrintedShape(p: PortRange)
    ensures '-' in PortString(p) <==> p.start != p.end
    ensures p.start == p.end ==> AllDigits(PortString(p)) && Value(PortString(p)) == p.start
    ensures p.start != p.end ==> PortString(p) == Decimal(p.start) + "-" + Decimal(p.end)
  {
    DecimalEnds(p.start);
    ValueOfDecimal(p.start);
  }
}
