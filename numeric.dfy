/**
 * Integer text as the decoders read it (`Int32.TryParse`, `Int64.TryParse`)
 * and as a RESP frame writes it (a decimal count or length).
 */
module Numeric {
  import opened Common

  const INT32_MIN: int := -0x8000_0000
  const INT32_MAX: int := 0x7FFF_FFFF
  const INT64_MIN: int := -0x8000_0000_0000_0000
  const INT64_MAX: int := 0x7FFF_FFFF_FFFF_FFFF

  predicate IsDigit(b: byte) {
    DIGIT_ZERO <= b <= DIGIT_ZERO + 9
  }

  /** Every byte of `s` is a decimal digit (checked from the last byte back, as `DigitsValue` reads them). */
  predicate AllDigits(s: Bytes)
    decreases |s|
  {
    |s| == 0 || (IsDigit(s[|s| - 1]) && AllDigits(s[..|s| - 1]))
  }

  lemma {:induction false} AllDigitsAt(s: Bytes, i: nat)
    requires AllDigits(s) && i < |s|
    ensures IsDigit(s[i])
    decreases |s|
  {
    if i < |s| - 1 {
      AllDigitsAt(s[..|s| - 1], i);
    }
  }

  /** The value of a run of decimal digits, most significant first. */
  function DigitsValue(s: Bytes): nat
    requires AllDigits(s)
    decreases |s|
  {
    if |s| == 0 then 0 else DigitsValue(s[..|s| - 1]) * 10 + (s[|s| - 1] - DIGIT_ZERO)
  }

  /** The white space `NumberStyles.Integer` lets stand around a number: tab to carriage return, and space. */
  predicate IsWhite(b: byte) {
    b == 0x20 || 0x09 <= b <= 0x0D
  }

  /** `s` without its leading white space. */
  function TrimStart(s: Bytes): Bytes
    decreases |s|
  {
    if |s| > 0 && IsWhite(s[0]) then TrimStart(s[1..]) else s
  }

  /** `s` without its trailing white space. */
  function TrimEnd(s: Bytes): Bytes
    decreases |s|
  {
    if |s| > 0 && IsWhite(s[|s| - 1]) then TrimEnd(s[..|s| - 1]) else s
  }

  /**
   * `TryParse` of an integer type whose range is `lo..hi`, with the default
   * `NumberStyles.Integer`: white space around the number, an optional `-`
   * or `+`, then at least one digit and nothing else; a value outside the
   * range fails like malformed text does.
   */
  function TryParse(s: Bytes, lo: int, hi: int): (r: Option<int>)
    ensures r.Some? ==> lo <= r.value <= hi
  {
    ParseNumber(TrimEnd(TrimStart(s)), lo, hi)
  }

  /** The number itself, once the white space around it is gone. */
  function ParseNumber(t: Bytes, lo: int, hi: int): (r: Option<int>)
    ensures r.Some? ==> lo <= r.value <= hi
  {
    var signed := |t| > 0 && (t[0] == MINUS || t[0] == PLUS);
    var digits := if signed then t[1..] else t;
    if |digits| == 0 || !AllDigits(digits) then None
    else
      var v: int := if signed && t[0] == MINUS then 0 - DigitsValue(digits) as int else DigitsValue(digits);
      if lo <= v <= hi then Some(v) else None
  }

  /** Leading white space is dropped whatever follows it. */
  lemma {:induction false} TrimStartWhite(w: Bytes, s: Bytes)
    requires forall i :: 0 <= i < |w| ==> IsWhite(w[i])
    ensures TrimStart(w + s) == TrimStart(s)
    decreases |w|
  {
    if |w| > 0 {
      assert (w + s)[1..] == w[1..] + s;
      TrimStartWhite(w[1..], s);
    } else {
      assert w + s == s;
    }
  }

  /** Trailing white space is dropped whatever precedes it. */
  lemma {:induction false} TrimEndWhite(s: Bytes, w: Bytes)
    requires forall i :: 0 <= i < |w| ==> IsWhite(w[i])
    ensures TrimEnd(s + w) == TrimEnd(s)
    decreases |w|
  {
    if |w| > 0 {
      assert (s + w)[..|s + w| - 1] == s + w[..|w| - 1];
      TrimEndWhite(s, w[..|w| - 1]);
    } else {
      assert s + w == s;
    }
  }

  function NatDigits(n: nat): (r: Bytes)
    ensures |r| >= 1
    decreases n
  {
    if n < 10 then [DIGIT_ZERO + n] else NatDigits(n / 10) + [DIGIT_ZERO + n % 10]
  }

  lemma {:induction false} NatDigitsAreDigits(n: nat)
    ensures AllDigits(NatDigits(n))
    decreases n
  {
    if n >= 10 {
      NatDigitsAreDigits(n / 10);
      var s := NatDigits(n);
      assert s[..|s| - 1] == NatDigits(n / 10);
    }
  }

  /** The decimal text of `n`, as `ToString()` of an integer writes it. */
  function Decimal(n: int): (r: Bytes)
    ensures |r| >= 1
  {
    if n < 0 then [MINUS] + NatDigits(-n) else NatDigits(n)
  }

  /** The decimal text holds digits and at most a leading minus sign. */
  lemma DecimalChars(n: int)
    ensures forall i :: 0 <= i < |Decimal(n)| ==> Decimal(n)[i] == MINUS || IsDigit(Decimal(n)[i])
  {
    var d := NatDigits(if n < 0 then -n else n);
    NatDigitsAreDigits(if n < 0 then -n else n);
    forall i | 0 <= i < |d|
      ensures IsDigit(d[i])
    {
      AllDigitsAt(d, i);
    }
  }

  lemma {:induction false} NatDigitsValue(n: nat)
    ensures AllDigits(NatDigits(n)) && DigitsValue(NatDigits(n)) == n
    decreases n
  {
    NatDigitsAreDigits(n);
    if n >= 10 {
      NatDigitsValue(n / 10);
      var s := NatDigits(n);
      assert s[..|s| - 1] == NatDigits(n / 10);
    }
  }

  /** Parsing what `Decimal` writes gives the number back. */
  lemma DecimalRoundTrip(n: int, lo: int, hi: int)
    requires lo <= n <= hi
    ensures TryParse(Decimal(n), lo, hi) == Some(n)
  {
    DecimalUntrimmed(n);
    if n < 0 {
      NatDigitsValue(-n);
      assert Decimal(n)[1..] == NatDigits(-n);
    } else {
      NatDigitsValue(n);
      AllDigitsAt(NatDigits(n), 0);
    }
  }

  /** The decimal text neither starts nor ends with white space, so trimming keeps it. */
  lemma DecimalUntrimmed(n: int)
    ensures TrimEnd(TrimStart(Decimal(n))) == Decimal(n)
  {
    var d := Decimal(n);
    DecimalChars(n);
    assert !IsWhite(d[0]) && !IsWhite(d[|d| - 1]);
  }

  /** White space around a number's decimal text does not change what it parses to. */
  lemma WhiteAroundDecimal(w1: Bytes, n: int, w2: Bytes, lo: int, hi: int)
    requires forall i :: 0 <= i < |w1| ==> IsWhite(w1[i])
    requires forall i :: 0 <= i < |w2| ==> IsWhite(w2[i])
    requires lo <= n <= hi
    ensures TryParse(w1 + Decimal(n) + w2, lo, hi) == Some(n)
  {
    var d := Decimal(n);
    TrimStartWhite(w1, d + w2);
    assert w1 + d + w2 == w1 + (d + w2);
    DecimalChars(n);
    assert TrimStart(d + w2) == d + w2;
    TrimEndWhite(d, w2);
    assert TrimEnd(d) == d;
    DecimalRoundTrip(n, lo, hi);
    DecimalUntrimmed(n);
  }
}
