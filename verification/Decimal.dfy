/** The signed 64-bit range, and decimal text: what fmt prints for an integer and what strconv.ParseInt and
    Redis's HINCRBY read back. */
module Decimal {
  import opened Wrappers

  const MIN_INT64: int := -0x8000_0000_0000_0000
  const MAX_INT64: int := 0x7FFF_FFFF_FFFF_FFFF

  predicate IsInt64(i: int) { MIN_INT64 <= i <= MAX_INT64 }

  /** What a 64-bit machine integer holds after an addition of two: one turn of
      2^64 is enough to come back into range. */
  function WrapInt64(i: int): int {
    if i > MAX_INT64 then i - 0x1_0000_0000_0000_0000
    else if i < MIN_INT64 then i + 0x1_0000_0000_0000_0000
    else i
  }

  /** Within one turn of the range the wrapped number is the one in range that is
      equal to the given one modulo 2^64. */
  lemma {:induction false} WrapExact(i: int)
    requires 2 * MIN_INT64 <= i <= 2 * MAX_INT64 + 1
    ensures IsInt64(WrapInt64(i)) && exists k :: WrapInt64(i) == i + k * 0x1_0000_0000_0000_0000
  {
    var k := if i > MAX_INT64 then -1 else if i < MIN_INT64 then 1 else 0;
    assert WrapInt64(i) == i + k * 0x1_0000_0000_0000_0000;
  }

  predicate IsDigit(c: char) { '0' <= c <= '9' }

  predicate AllDigits(s: string) { forall c :: c in s ==> IsDigit(c) }

  function DigitChar(d: nat): (c: char)
    requires d < 10
    ensures IsDigit(c) && DigitValue(c) == d
  {
    '0' + d as char
  }

  function DigitValue(c: char): (d: nat)
    requires IsDigit(c)
    ensures d < 10
  {
    (c - '0') as nat
  }

  function NatToString(n: nat): (s: string)
    ensures s != "" && AllDigits(s)
    ensures s[0] == '0' ==> n == 0 && |s| == 1
  {
    if n < 10 then [DigitChar(n)] else NatToString(n / 10) + [DigitChar(n % 10)]
  }

  /** What `%d` and `%v` print. */
  function IntToString(i: int): (s: string)
    ensures s != ""
  {
    if i < 0 then "-" + NatToString(-i) else NatToString(i)
  }

  function DigitsValue(s: string): nat
    requires AllDigits(s)
  {
    if s == "" then 0
    else
      assert s[|s| - 1] in s;
      10 * DigitsValue(s[..|s| - 1]) + DigitValue(s[|s| - 1])
  }

  /** strconv.ParseInt(s, 10, 64): an optional sign, then at least one digit,
      and a value inside the signed 64-bit range. */
  function ParseInt(s: string): (r: Option<int>)
    ensures r.Some? ==> IsInt64(r.value)
  {
    if s == "" then None
    else
      var signed := s[0] == '-' || s[0] == '+';
      var body := if signed then s[1..] else s;
      if body == "" || !AllDigits(body) then None
      else
        var magnitude: int := DigitsValue(body);
        var v := if s[0] == '-' then -magnitude else magnitude;
        if IsInt64(v) then Some(v) else None
  }

  /** The integers HINCRBY accepts as a stored value: only the canonical text
      of a signed 64-bit number. */
  function CanonicalInt(s: string): Option<int> {
    match ParseInt(s)
    case Some(v) => if IntToString(v) == s then Some(v) else None
    case None => None
  }

  lemma {:induction false} DigitsRoundTrip(n: nat)
    ensures DigitsValue(NatToString(n)) == n
  {
    var s := NatToString(n);
    if n >= 10 {
      DigitsRoundTrip(n / 10);
      assert s[..|s| - 1] == NatToString(n / 10);
    } else {
      assert s[..|s| - 1] == "";
    }
  }

  /** Every signed 64-bit integer survives printing and parsing. */
  lemma {:induction false} PrintParse(i: int)
    requires IsInt64(i)
    ensures ParseInt(IntToString(i)) == Some(i)
    ensures CanonicalInt(IntToString(i)) == Some(i)
  {
    hide NatToString, DigitsValue;
    if i < 0 {
      DigitsRoundTrip(-i);
      assert IntToString(i)[1..] == NatToString(-i);
    } else {
      DigitsRoundTrip(i);
      assert NatToString(i)[0] in NatToString(i);
    }
  }

  /** HINCRBY accepts exactly the printed 64-bit integers. */
  lemma {:induction false} CanonicalExact(s: string, v: int)
    ensures CanonicalInt(s) == Some(v) <==> IsInt64(v) && s == IntToString(v)
  {
    if IsInt64(v) { PrintParse(v); }
    hide IntToString, ParseInt;
  }

  /** The text is the usual one: the digits from the highest, after a minus sign
      for a negative number. */
  lemma {:induction false} PrintsDecimal(n: int, d: nat)
    requires n >= 0 && d < 10
    ensures IntToString(d) == ['0' + d as char]
    ensures n > 0 ==> IntToString(10 * n + d) == IntToString(n) + ['0' + d as char]
    ensures n > 0 ==> IntToString(-n) == "-" + IntToString(n)
  {
  }

  /** Printing is injective. */
  lemma {:induction false} NatToStringInjective(m: nat, n: nat)
    requires NatToString(m) == NatToString(n)
    ensures m == n
  {
    DigitsRoundTrip(m);
    DigitsRoundTrip(n);
  }
}
