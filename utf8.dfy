/**
 * UTF-8, as the repository's `ToUtf8Bytes` and `FromUtf8Bytes` extensions use
 * it (`Encoding.UTF8`): strings are sequences of Unicode scalar values.
 */
module Utf8 {
  import opened Common

  predicate IsContinuation(b: int) {
    0x80 <= b < 0xC0
  }

  /** The one to four bytes that encode `c`. */
  function EncodeChar(c: char): (r: Bytes)
    ensures 1 <= |r| <= 4
    ensures (c as int < 0x80) == (|r| == 1)
  {
    var n := c as int;
    if n < 0x80 then [n]
    else if n < 0x800 then [0xC0 + n / 64, 0x80 + n % 64]
    else if n < 0x10000 then [0xE0 + n / 4096, 0x80 + (n / 64) % 64, 0x80 + n % 64]
    else [0xF0 + n / 262144, 0x80 + (n / 4096) % 64, 0x80 + (n / 64) % 64, 0x80 + n % 64]
  }

  /** `ToUtf8Bytes`: the concatenated encodings of the characters. */
  function Encode(s: string): (r: Bytes)
    ensures |s| <= |r| <= 4 * |s|
  {
    if |s| == 0 then [] else EncodeChar(s[0]) + Encode(s[1..])
  }

  /**
   * The character that the bytes at the head of `b` encode and how many bytes
   * it takes; a byte that does not start a well-formed sequence becomes U+FFFD
   * on its own.
   */
  function DecodeOne(b: Bytes): (r: (char, nat))
    requires |b| > 0
    ensures 1 <= r.1 <= |b|
  {
    var b0: int := b[0];
    var b1: int := if |b| > 1 then b[1] else 0;
    var b2: int := if |b| > 2 then b[2] else 0;
    var b3: int := if |b| > 3 then b[3] else 0;
    var v2 := (b0 - 0xC0) * 64 + (b1 - 0x80);
    var v3 := (b0 - 0xE0) * 4096 + (b1 - 0x80) * 64 + (b2 - 0x80);
    var v4 := (b0 - 0xF0) * 262144 + (b1 - 0x80) * 4096 + (b2 - 0x80) * 64 + (b3 - 0x80);
    if b0 < 0x80 then (b0 as char, 1)
    else if 0xC2 <= b0 < 0xE0 && |b| >= 2 && IsContinuation(b1) then
      (v2 as char, 2)
    else if 0xE0 <= b0 < 0xF0 && |b| >= 3 && IsContinuation(b1) && IsContinuation(b2)
      && 0x800 <= v3 && !(0xD800 <= v3 < 0xE000) then
      (v3 as char, 3)
    else if 0xF0 <= b0 < 0xF5 && |b| >= 4 && IsContinuation(b1) && IsContinuation(b2) && IsContinuation(b3)
      && 0x10000 <= v4 < 0x110000 then
      (v4 as char, 4)
    else (0xFFFD as char, 1)
  }

  /** `FromUtf8Bytes`: the characters the bytes encode. */
  function Decode(b: Bytes): (s: string)
    ensures |s| <= |b|
    decreases |b|
  {
    if |b| == 0 then "" else
      var (c, k) := DecodeOne(b);
      [c] + Decode(b[k..])
  }

  lemma SplitDiv64(n: int)
    requires 0 <= n
    ensures n == (n / 64) * 64 + n % 64
    ensures n / 4096 == (n / 64) / 64
    ensures n / 262144 == (n / 4096) / 64
  {
  }

  lemma DecodeTwo(c: char, rest: Bytes)
    requires 0x80 <= c as int < 0x800
    ensures DecodeOne(EncodeChar(c) + rest) == (c, 2)
  {
    var n := c as int;
    var b := EncodeChar(c) + rest;
    SplitDiv64(n);
    assert (b[0] as int - 0xC0) * 64 + (b[1] as int - 0x80) == n;
  }

  lemma DecodeThree(c: char, rest: Bytes)
    requires 0x800 <= c as int < 0x10000
    ensures DecodeOne(EncodeChar(c) + rest) == (c, 3)
  {
    var n := c as int;
    var b := EncodeChar(c) + rest;
    SplitDiv64(n);
    SplitDiv64(n / 64);
    assert (b[0] as int - 0xE0) * 4096 + (b[1] as int - 0x80) * 64 + (b[2] as int - 0x80) == n;
  }

  lemma DecodeFour(c: char, rest: Bytes)
    requires 0x10000 <= c as int
    ensures DecodeOne(EncodeChar(c) + rest) == (c, 4)
  {
    var n := c as int;
    var b := EncodeChar(c) + rest;
    SplitDiv64(n);
    SplitDiv64(n / 64);
    SplitDiv64(n / 4096);
    assert (b[0] as int - 0xF0) * 262144 + (b[1] as int - 0x80) * 4096 + (b[2] as int - 0x80) * 64 + (b[3] as int - 0x80) == n;
  }

  /** Decoding the head of an encoded character gives that character and its length. */
  lemma DecodeOneEncodeChar(c: char, rest: Bytes)
    ensures DecodeOne(EncodeChar(c) + rest) == (c, |EncodeChar(c)|)
  {
    var n := c as int;
    if n < 0x80 {
    } else if n < 0x800 {
      DecodeTwo(c, rest);
    } else if n < 0x10000 {
      DecodeThree(c, rest);
    } else {
      DecodeFour(c, rest);
    }
  }

  /** `FromUtf8Bytes(ToUtf8Bytes(s)) == s`. */
  lemma {:induction false} DecodeEncode(s: string)
    ensures Decode(Encode(s)) == s
    decreases |s|
  {
    if |s| > 0 {
      DecodeOneEncodeChar(s[0], Encode(s[1..]));
      var b := Encode(s);
      assert b == EncodeChar(s[0]) + Encode(s[1..]);
      assert b[|EncodeChar(s[0])|..] == Encode(s[1..]);
      DecodeEncode(s[1..]);
    }
  }

  /** Text made of ASCII characters encodes to their codes, one byte each. */
  lemma {:induction false} EncodeAscii(s: string)
    requires forall i :: 0 <= i < |s| ==> s[i] as int < 0x80
    ensures |Encode(s)| == |s|
    ensures forall i :: 0 <= i < |s| ==> Encode(s)[i] == s[i] as int
    decreases |s|
  {
    if |s| > 0 {
      EncodeAscii(s[1..]);
    }
  }
}
