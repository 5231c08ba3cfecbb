/** Decimal text of integers: `fmt.Sprint` of an int64 and
    `strconv.ParseInt(s, 10, 64)` (which `strconv.Atoi` equals on a 64-bit
    platform), with the round trip between them. */
module Decimal {
  import opened Base

  const MaxInt64: int := 0x7fff_ffff_ffff_ffff
  const MinInt64: int := -0x8000_0000_0000_0000
  const MaxUint64: int := 0xffff_ffff_ffff_ffff
  /** strconv's overflow cutoff for base 10 and 64 bits. */
  const Cutoff: int := MaxUint64 / 10 + 1

  predicate IsInt64(x: int)
  {
    MinInt64 <= x <= MaxInt64
  }

  predicate IsDigit(c: char)
  {
    '0' <= c <= '9'
  }

  predicate AllDigits(s: string)
  {
    forall k :: 0 <= k < |s| ==> IsDigit(s[k])
  }

  function DigitValue(c: char): nat
    requires IsDigit(c)
  {
    (c as int) - ('0' as int)
  }

  function DigitChar(d: nat): (c: char)
    requires d < 10
    ensures IsDigit(c) && DigitValue(c) == d
  {
    (('0' as int) + d) as char
  }

  /** The decimal digits of `n`, most significant first, without leading zeros. */
  function NatToString(n: nat): (r: string)
    ensures |r| >= 1 && AllDigits(r)
    decreases n
  {
    if n < 10 then [DigitChar(n)] else NatToString(n / 10) + [DigitChar(n % 10)]
  }

  /** `fmt.Sprint(i)` / `fmt.Sprintf("%d", i)` for an integer. */
  function IntToString(i: int): (r: string)
    ensures |r| >= 1
    ensures forall k :: 0 <= k < |r| ==> IsDigit(r[k]) || (k == 0 && r[k] == '-')
  {
    if i < 0 then "-" + NatToString(-i) else NatToString(i)
  }

  /** The value of a digit string read left to right, starting from `n`. */
  function Acc(s: string, n: nat): nat
    requires AllDigits(s)
    decreases |s|
  {
    if |s| == 0 then n else Acc(s[1..], n * 10 + DigitValue(s[0]))
  }

  /** strconv.ParseUint's digit loop for base 10 and 64 bits, with the
      accumulated value `n`; `s0` is the text quoted in the error. */
  function ScanUint(s: string, n: nat, s0: string): (r: (int, Option<Error>))
    ensures 0 <= r.0 <= MaxUint64 || n > MaxUint64
    decreases |s|
  {
    if |s| == 0 then (n, None)
    else if !IsDigit(s[0]) then (0, Some(SyntaxError(s0)))
    else if n >= Cutoff then (MaxUint64, Some(RangeError(s0)))
    else
      var n1 := n * 10 + DigitValue(s[0]);
      if n1 > MaxUint64 then (MaxUint64, Some(RangeError(s0)))
      else ScanUint(s[1..], n1, s0)
  }

  /** strconv.ParseInt(s, 10, 64): Go returns a value together with the error
      (0 on a syntax error, the clamped bound on a range error). */
  function ParseInt64(s: string): (r: (int, Option<Error>))
    ensures IsInt64(r.0)
    ensures r.1.None? ==> |s| >= 1
  {
    if |s| == 0 then (0, Some(SyntaxError(s)))
    else
      var neg := s[0] == '-';
      var body := if s[0] == '+' || s[0] == '-' then s[1..] else s;
      var (un, err) := if |body| == 0 then (0, Some(SyntaxError(s))) else ScanUint(body, 0, s);
      if err.Some? && !err.value.RangeError? then (0, err)
      else if !neg && un >= 0x8000_0000_0000_0000 then (MaxInt64, Some(RangeError(s)))
      else if neg && un > 0x8000_0000_0000_0000 then (MinInt64, Some(RangeError(s)))
      else (if neg then -un else un, None)
  }

  lemma {:induction false} AccGe(s: string, n: nat)
    requires AllDigits(s)
    ensures Acc(s, n) >= n
    decreases |s|
  {
    if |s| > 0 {
      AccGe(s[1..], n * 10 + DigitValue(s[0]));
    }
  }

  lemma {:induction false} AccSnoc(s: string, c: char, n: nat)
    requires AllDigits(s) && IsDigit(c)
    ensures AllDigits(s + [c])
    ensures Acc(s + [c], n) == Acc(s, n) * 10 + DigitValue(c)
    decreases |s|
  {
    if |s| > 0 {
      assert (s + [c])[1..] == s[1..] + [c];
      AccSnoc(s[1..], c, n * 10 + DigitValue(s[0]));
    }
  }

  /** Reading back the digits of `x` gives `x`. */
  lemma {:induction false} NatToStringValue(x: nat)
    ensures Acc(NatToString(x), 0) == x
    decreases x
  {
    if x >= 10 {
      NatToStringValue(x / 10);
      AccSnoc(NatToString(x / 10), DigitChar(x % 10), 0);
    }
  }

  /** Without overflow the digit loop returns the value and no error. */
  lemma {:induction false} ScanDigits(s: string, n: nat, s0: string)
    requires AllDigits(s) && Acc(s, n) <= MaxUint64
    ensures ScanUint(s, n, s0) == (Acc(s, n), None)
    decreases |s|
  {
    if |s| > 0 {
      var n1 := n * 10 + DigitValue(s[0]);
      AccGe(s[1..], n1);
      assert n1 <= MaxUint64;
      assert n < Cutoff;
      ScanDigits(s[1..], n1, s0);
    }
  }

  /** ParseInt(fmt.Sprint(x)) == x for every int64. */
  lemma IntRoundTrip(x: int)
    requires IsInt64(x)
    ensures ParseInt64(IntToString(x)) == (x, None)
  {
    var m: nat := if x < 0 then -x else x;
    var digits := NatToString(m);
    NatToStringValue(m);
    ScanDigits(digits, 0, IntToString(x));
    if x < 0 {
      assert IntToString(x)[1..] == digits;
    } else {
      assert IntToString(x) == digits;
      assert digits[0] != '-' && digits[0] != '+';
    }
  }

  /** A decimal text holds neither the array separator nor a brace. */
  lemma IntToStringPlain(x: int)
    ensures ',' !in IntToString(x) && '{' !in IntToString(x) && '}' !in IntToString(x)
  {
    var r := IntToString(x);
    assert forall k :: 0 <= k < |r| ==> r[k] != ',' && r[k] != '{' && r[k] != '}';
  }

  /** The digit loop reports a syntax error only at a non-digit. */
  lemma {:induction false} ScanDigitsNoSyntaxError(s: string, n: nat, s0: string)
    requires AllDigits(s)
    ensures ScanUint(s, n, s0).1.None? || ScanUint(s, n, s0).1 == Some(RangeError(s0))
    decreases |s|
  {
    if |s| > 0 && n < Cutoff && n * 10 + DigitValue(s[0]) <= MaxUint64 {
      ScanDigitsNoSyntaxError(s[1..], n * 10 + DigitValue(s[0]), s0);
    }
  }

  /** A non-empty digit string parses, or overflows: it is never a syntax error. */
  lemma DigitsNoSyntaxError(s: string)
    requires |s| >= 1 && AllDigits(s)
    ensures ParseInt64(s).1.None? || ParseInt64(s).1 == Some(RangeError(s))
  {
    ScanDigitsNoSyntaxError(s, 0, s);
  }
}
