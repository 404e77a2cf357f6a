/** The string operations the wire formats need, on byte strings. */
module Strings {
  import opened GoStrings

  // ---- Joining and splitting on a separator

  function Join(parts: seq<Text>, sep: Byte): Text {
    if parts == [] then ""
    else if |parts| == 1 then parts[0]
    else parts[0] + [sep] + Join(parts[1..], sep)
  }

  function IndexOf(s: Text, c: Byte): (i: nat)
    requires c in s
    ensures i < |s| && s[i] == c && c !in s[..i]
  {
    if s[0] == c then 0 else 1 + IndexOf(s[1..], c)
  }

  function Split(s: Text, sep: Byte): seq<Text> {
    if sep !in s then [s]
    else var i := IndexOf(s, sep); [s[..i]] + Split(s[i + 1..], sep)
  }

  lemma {:induction false} IndexOfAppend(a: Text, c: Byte, b: Text)
    requires c !in a
    ensures IndexOf(a + [c] + b, c) == |a|
  {
    if a != "" {
      assert a[0] in a && forall x <- a[1..] :: x in a;
      assert (a + [c] + b)[1..] == a[1..] + [c] + b;
      IndexOfAppend(a[1..], c, b);
    }
  }

  lemma SplitAppend(a: Text, sep: Byte, b: Text)
    requires sep !in a
    ensures Split(a + [sep] + b, sep) == [a] + Split(b, sep)
  {
    var s := a + [sep] + b;
    IndexOfAppend(a, sep, b);
    assert s[|a|] == sep;
    assert s[..|a|] == a && s[|a| + 1..] == b;
  }

  lemma {:induction false} SplitJoin(parts: seq<Text>, sep: Byte)
    requires parts != [] && forall p <- parts :: sep !in p
    ensures Split(Join(parts, sep), sep) == parts
  {
    assert parts[0] in parts;
    if |parts| > 1 {
      assert forall p <- parts[1..] :: p in parts;
      SplitJoin(parts[1..], sep);
      SplitAppend(parts[0], sep, Join(parts[1..], sep));
    }
  }

  lemma {:induction false} JoinAppend(a: seq<Text>, b: seq<Text>, sep: Byte)
    requires a != [] && b != []
    ensures Join(a + b, sep) == Join(a, sep) + [sep] + Join(b, sep)
  {
    if |a| > 1 {
      assert (a + b)[1..] == a[1..] + b;
      JoinAppend(a[1..], b, sep);
    } else {
      assert (a + b)[1..] == b;
    }
  }

  // ---- Decimal numbers

  predicate IsDigit(c: char) {
    '0' <= c <= '9'
  }

  predicate AllDigits(s: Text) {
    forall c <- s :: IsDigit(c)
  }

  function Digit(n: nat): (c: Byte)
    requires n < 10
    ensures IsDigit(c) && c as int - '0' as int == n
  {
    ('0' as int + n) as char
  }

  /** strconv.Itoa on a non-negative number. */
  function Decimal(n: nat): (s: Text)
    ensures s != "" && AllDigits(s)
    ensures s[0] == '0' ==> n == 0 && s == "0"
  {
    if n < 10 then [Digit(n)] else Decimal(n / 10) + [Digit(n % 10)]
  }

  /** The number a string of digits denotes. */
  function Value(s: Text): nat
    requires AllDigits(s)
  {
    if s == "" then 0
    else
      assert s[|s| - 1] in s;
      Value(s[..|s| - 1]) * 10 + (s[|s| - 1] as int - '0' as int)
  }

  lemma {:induction false} ValueOfDecimal(n: nat)
    ensures Value(Decimal(n)) == n
  {
    if n >= 10 {
      ValueOfDecimal(n / 10);
      assert (Decimal(n / 10) + [Digit(n % 10)])[..|Decimal(n / 10)|] == Decimal(n / 10);
    }
  }

  // ---- Query escaping (section 2.1 of RFC 3986, with + for space)

  predicate Unreserved(c: char) {
    'A' <= c <= 'Z' || 'a' <= c <= 'z' || IsDigit(c) || c == '-' || c == '_' || c == '.' || c == '~'
  }

  function HexDigit(n: nat): (c: Byte)
    requires n < 16
    ensures HexValue(c) == Some(n) && Unreserved(c)
  {
    if n < 10 then ('0' as int + n) as char else ('A' as int + n - 10) as char
  }

  function HexValue(c: char): (n: Option<nat>)
    ensures n.Some? ==> n.value < 16
  {
    if IsDigit(c) then Some(c as int - '0' as int)
    else if 'A' <= c <= 'F' then Some(c as int - 'A' as int + 10)
    else if 'a' <= c <= 'f' then Some(c as int - 'a' as int + 10)
    else None
  }

  function EscapeByte(c: Byte): Text {
    if Unreserved(c) then [c]
    else if c == ' ' then "+"
    else ['%', HexDigit(c as int / 16), HexDigit(c as int % 16)]
  }

  /** url.QueryEscape */
  function Escape(s: Text): Text {
    if s == "" then "" else EscapeByte(s[0]) + Escape(s[1..])
  }

  /** url.QueryUnescape */
  function Unescape(s: Text): Option<Text> {
    if s == "" then Some("")
    else if s[0] == '%' then
      if |s| < 3 then None
      else
        var hi, lo, rest := HexValue(s[1]), HexValue(s[2]), Unescape(s[3..]);
        if hi.Some? && lo.Some? && rest.Some? then Some([(hi.value * 16 + lo.value) as char] + rest.value) else None
    else
      var rest := Unescape(s[1..]);
      if rest.Some? then Some([if s[0] == '+' then ' ' else s[0]] + rest.value) else None
  }

  lemma {:induction false} UnescapeEscape(s: Text)
    ensures Unescape(Escape(s)) == Some(s)
  {
    if s != "" {
      UnescapeEscape(s[1..]);
      UnescapeByte(s[0], Escape(s[1..]));
      assert [s[0]] + s[1..] == s;
    }
  }

  lemma UnescapeByte(c: Byte, rest: Text)
    requires Unescape(rest).Some?
    ensures Unescape(EscapeByte(c) + rest) == Some([c] + Unescape(rest).value)
  {
    var s := EscapeByte(c) + rest;
    if Unreserved(c) || c == ' ' {
      assert s[1..] == rest;
    } else {
      assert s[3..] == rest;
      assert (c as int / 16 * 16 + c as int % 16) as char == c;
    }
  }

  /** Escaped text never contains a separator of the form syntax. */
  lemma {:induction false} EscapeIsClean(s: Text)
    ensures forall c <- Escape(s) :: Unreserved(c) || c == '+' || c == '%'
  {
    if s != "" {
      EscapeIsClean(s[1..]);
    }
  }

  lemma {:induction false} UnescapePlain(s: Text)
    requires '%' !in s && '+' !in s
    ensures Unescape(s) == Some(s)
  {
    if s != "" {
      assert s[0] in s && forall c <- s[1..] :: c in s;
      UnescapePlain(s[1..]);
      assert [s[0]] + s[1..] == s;
    }
  }

  lemma {:induction false} EscapeAppend(a: Text, b: Text)
    ensures Escape(a + b) == Escape(a) + Escape(b)
  {
    if a == "" {
      assert a + b == b;
    } else {
      assert (a + b)[1..] == a[1..] + b;
      EscapeAppend(a[1..], b);
    }
  }

  /** Letters, digits and four marks stay, a space becomes a plus, any other byte a percent sign and two upper-case hex digits. */
  lemma EscapeOfByte(c: Byte)
    ensures 'A' <= c <= 'Z' || 'a' <= c <= 'z' || '0' <= c <= '9' || c in "-_.~" ==> Escape([c]) == [c]
    ensures c == ' ' ==> Escape([c]) == "+"
    ensures !('A' <= c <= 'Z' || 'a' <= c <= 'z' || '0' <= c <= '9' || c in "-_.~ ") ==>
              Escape([c]) == ['%', "0123456789ABCDEF"[c as int / 16], "0123456789ABCDEF"[c as int % 16]]
  {
    assert [c][1..] == "" && Escape("") == "";
    HexDigits(c as int / 16);
    HexDigits(c as int % 16);
    assert "-_.~" == ['-', '_', '.', '~'] && "-_.~ " == ['-', '_', '.', '~', ' '];
  }

  lemma HexDigits(n: nat)
    requires n < 16
    ensures HexDigit(n) == "0123456789ABCDEF"[n]
  {
    if n < 10 {
      assert HexDigit(n) == ['0', '1', '2', '3', '4', '5', '6', '7', '8', '9'][n];
    } else {
      assert HexDigit(n) == ['A', 'B', 'C', 'D', 'E', 'F'][n - 10];
    }
  }

  lemma {:induction false} UnreservedStays(s: Text)
    requires forall c <- s :: Unreserved(c)
    ensures Escape(s) == s
  {
    if s != "" {
      assert s[0] in s && forall c <- s[1..] :: c in s;
      UnreservedStays(s[1..]);
      assert s == [s[0]] + s[1..];
    }
  }

  ghost function Pow10(n: nat): nat {
    if n == 0 then 1 else 10 * Pow10(n - 1)
  }

  lemma ShiftedSum(x: nat, p: nat, y: nat, d: nat)
    ensures (x * p + y) * 10 + d == x * (10 * p) + (y * 10 + d)
  {
  }

  /** Digits are worth ten times as much one place further to the left. */
  lemma {:induction false} PlaceValue(a: Text, b: Text)
    requires AllDigits(a) && AllDigits(b)
    ensures AllDigits(a + b) && Value(a + b) == Value(a) * Pow10(|b|) + Value(b)
  {
    if b == "" {
      assert a + b == a;
    } else {
      var n := |b| - 1;
      assert b[n] in b && forall c <- b[..n] :: c in b;
      assert (a + b)[..|a + b| - 1] == a + b[..n];
      PlaceValue(a, b[..n]);
      ShiftedSum(Value(a), Pow10(n), Value(b[..n]), b[n] as int - '0' as int);
    }
  }
}
