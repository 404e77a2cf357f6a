/** The Retry-After header (section 10.2.3 of RFC 9110) as client.go reads it, in int64 nanoseconds. */
module RetryAfter {
  import opened Basics
  import opened GoStrings
  import opened Strings

  type Duration = int

  const SECOND: Duration := 1_000_000_000
  const TWO_TO_63: int := 0x8000_0000_0000_0000
  const TWO_TO_64: int := 0x1_0000_0000_0000_0000

  predicate Int64(x: int) {
    -TWO_TO_63 <= x < TWO_TO_63
  }

  /** int64 arithmetic wraps around. */
  function Wrap64(x: int): (y: int)
    ensures Int64(y) && (Int64(x) ==> y == x)
  {
    (x + TWO_TO_63) % TWO_TO_64 - TWO_TO_63
  }

  /** Go's integer division truncates toward zero. */
  function Quotient(a: int, b: int): int
    requires b > 0
  {
    if a >= 0 then a / b else -(-a / b)
  }

  // ---- strconv.Atoi with a 64-bit int

  datatype Parsed = Number(n: int) | ErrSyntax | ErrRange

  /** strconv.ParseUint scans byte by byte; the first overflowing digit ends the scan. */
  function ScanUint(s: Text, acc: nat): Parsed {
    if s == "" then Number(acc)
    else if !IsDigit(s[0]) then ErrSyntax
    else
      var n := acc * 10 + (s[0] as int - '0' as int);
      if n >= TWO_TO_64 then ErrRange else ScanUint(s[1..], n)
  }

  function Atoi(s: Text): Parsed {
    if s == "" then ErrSyntax
    else
      var neg := s[0] == '-';
      var digits := if neg || s[0] == '+' then s[1..] else s;
      if digits == "" then ErrSyntax
      else match ScanUint(digits, 0)
        case Number(n) =>
          if !neg && n >= TWO_TO_63 then ErrRange
          else if neg && n > TWO_TO_63 then ErrRange
          else Number(if neg then -n else n)
        case other => other
  }

  /** The number denoted by acc followed by the digits of s. */
  function Continued(acc: nat, s: Text): (n: nat)
    requires AllDigits(s)
    ensures n >= acc
    decreases |s|
  {
    if s == "" then acc
    else
      assert s[0] in s && forall c <- s[1..] :: c in s;
      Continued(acc * 10 + (s[0] as int - '0' as int), s[1..])
  }

  lemma {:induction false} ContinuedSnoc(acc: nat, s: Text, c: Byte)
    requires AllDigits(s) && IsDigit(c)
    ensures AllDigits(s + [c])
    ensures Continued(acc, s + [c]) == Continued(acc, s) * 10 + (c as int - '0' as int)
    decreases |s|
  {
    if s == "" {
      assert s + [c] == [c] && [c][1..] == "";
      assert Continued(acc * 10 + (c as int - '0' as int), "") == acc * 10 + (c as int - '0' as int);
    } else {
      assert s[0] in s && forall x <- s[1..] :: x in s;
      assert (s + [c])[1..] == s[1..] + [c];
      ContinuedSnoc(acc * 10 + (s[0] as int - '0' as int), s[1..], c);
    }
  }

  lemma {:induction false} ContinuedIsValue(s: Text)
    requires AllDigits(s)
    ensures Continued(0, s) == Value(s)
  {
    if s != "" {
      var before, last := s[..|s| - 1], s[|s| - 1];
      assert last in s && forall c <- before :: c in s;
      assert s == before + [last];
      ContinuedIsValue(before);
      ContinuedSnoc(0, before, last);
    }
  }

  lemma {:induction false} ScanDigits(s: Text, acc: nat)
    requires AllDigits(s) && acc < TWO_TO_64
    ensures ScanUint(s, acc) == if Continued(acc, s) < TWO_TO_64 then Number(Continued(acc, s)) else ErrRange
  {
    if s != "" {
      assert s[0] in s && forall c <- s[1..] :: c in s;
      var n := acc * 10 + (s[0] as int - '0' as int);
      if n < TWO_TO_64 {
        ScanDigits(s[1..], n);
      }
    }
  }

  lemma AtoiOfDigits(s: Text)
    requires s != "" && AllDigits(s)
    ensures Atoi(s) == if Value(s) < TWO_TO_63 then Number(Value(s)) else ErrRange
  {
    assert s[0] in s;
    ScanDigits(s, 0);
    ContinuedIsValue(s);
  }

  // ---- The header

  function Clamped(d: Duration, limit: Duration): Duration {
    if d <= 0 then 0 else if d < limit then d else limit
  }

  /** untilDate is the time left until the header's HTTP date, when it is one. */
  function RetryDelay(v: Text, untilDate: Option<Duration>, limit: Duration): Duration {
    if v == "" then 0
    else
      var parsed := Atoi(v);
      if parsed.Number? && parsed.n >= 0 then
        if parsed.n > Quotient(limit, SECOND) then limit else Clamped(Wrap64(parsed.n * SECOND), limit)
      else if parsed.ErrRange? && v[0] != '-' then limit
      else Clamped(if untilDate.Some? then untilDate.value else 0, limit)
  }

  /** Whatever the header says, the delay stays between zero and the limit. */
  lemma DelayIsBounded(v: Text, untilDate: Option<Duration>, limit: Duration)
    requires 0 < limit < TWO_TO_63
    ensures 0 <= RetryDelay(v, untilDate, limit) <= limit
  {
  }

  /** On a decimal number of seconds the int64 result is the exact minimum, for numbers of any length. */
  lemma DelayOfDecimal(v: Text, untilDate: Option<Duration>, limit: Duration)
    requires v != "" && AllDigits(v) && 0 < limit < TWO_TO_63
    ensures RetryDelay(v, untilDate, limit) == Min(Value(v) * 1_000_000_000, limit)
  {
    AtoiOfDigits(v);
    assert v[0] in v;
    var q := limit / SECOND;
    assert q * SECOND <= limit < (q + 1) * SECOND;
  }

  lemma DelayIsMonotone(v: Text, w: Text, untilV: Option<Duration>, untilW: Option<Duration>, limit: Duration)
    requires v != "" && AllDigits(v) && w != "" && AllDigits(w) && 0 < limit < TWO_TO_63
    requires Value(v) <= Value(w)
    ensures RetryDelay(v, untilV, limit) <= RetryDelay(w, untilW, limit)
  {
    DelayOfDecimal(v, untilV, limit);
    DelayOfDecimal(w, untilW, limit);
  }

  /** The text starts neither with a digit nor with a sign, as an HTTP date does. */
  predicate NotANumber(v: Text) {
    v != "" && !('0' <= v[0] <= '9') && v[0] != '+' && v[0] != '-'
  }

  /** No header, no delay; an HTTP date asks for the time left until it, up to the limit, and a passed one for none. */
  lemma DelayOfDate(v: Text, untilDate: Option<Duration>, limit: Duration)
    requires 0 < limit < TWO_TO_63
    ensures RetryDelay("", untilDate, limit) == 0
    ensures NotANumber(v) ==>
              RetryDelay(v, untilDate, limit) ==
              match untilDate
              case None => 0
              case Some(left) => if left <= 0 then 0 else Min(left, limit)
  {
  }

  /** An explicit plus sign changes nothing; a negative number asks for no delay. */
  lemma DelayOfSigned(v: Text, untilDate: Option<Duration>, limit: Duration)
    requires v != "" && AllDigits(v) && 0 < limit < TWO_TO_63
    ensures RetryDelay("+" + v, untilDate, limit) == Min(Value(v) * 1_000_000_000, limit)
    ensures RetryDelay("-" + v, None, limit) == 0
  {
    assert ("+" + v)[1..] == v && ("-" + v)[1..] == v;
    AtoiOfDigits(v);
    assert v[0] in v;
    DelayOfDecimal(v, untilDate, limit);
    SignedAtoi(v);
  }

  lemma SignedAtoi(v: Text)
    requires v != "" && AllDigits(v)
    ensures Atoi("+" + v) == Atoi(v)
    ensures Atoi("-" + v) == if Value(v) <= TWO_TO_63 then Number(0 - Value(v) as int) else ErrRange
  {
    assert ("+" + v)[1..] == v && ("-" + v)[1..] == v;
    assert v[0] in v;
    ScanDigits(v, 0);
    ContinuedIsValue(v);
  }
}
