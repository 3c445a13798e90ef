/**
  UTF-8 as Rust's `str` uses it: `as_bytes` (Encode), `String::from_utf8`
  (Decode, which rejects any ill-formed input) and `String::from_utf8_lossy`
  (Lossy, which replaces each maximal ill-formed subpart by U+FFFD).
  Well-formed sequences follow table 3-7 of the Unicode standard (RFC 3629, section 4).
*/
module Utf8 {
  import opened Wrappers

  type byte = b: int | 0 <= b < 256

  const Replacement: char := '�'

  predicate IsAscii(s: string) {
    forall i :: 0 <= i < |s| ==> s[i] as int < 0x80
  }

  /** The UTF-8 encoding of one scalar value. */
  function CharBytes(c: char): (r: seq<byte>)
    ensures 1 <= |r| <= 4
    ensures (|r| == 1) == (c as int < 0x80)
  {
    var n := c as int;
    if n < 0x80 then [n]
    else if n < 0x800 then [0xC0 + n / 64, 0x80 + n % 64]
    else if n < 0x1_0000 then [0xE0 + n / 4096, 0x80 + n / 64 % 64, 0x80 + n % 64]
    else [0xF0 + n / 262144, 0x80 + n / 4096 % 64, 0x80 + n / 64 % 64, 0x80 + n % 64]
  }

  /** `str::as_bytes`. */
  function Encode(s: string): seq<byte> {
    if s == [] then [] else CharBytes(s[0]) + Encode(s[1..])
  }

  /** Length of the well-formed sequence a lead byte starts; 0 if it starts none. */
  function SequenceLength(b0: byte): nat {
    if b0 < 0x80 then 1
    else if 0xC2 <= b0 < 0xE0 then 2
    else if 0xE0 <= b0 < 0xF0 then 3
    else if 0xF0 <= b0 < 0xF5 then 4
    else 0
  }

  predicate InSecondRange(b0: byte, b1: byte) {
    if b0 == 0xE0 then 0xA0 <= b1 < 0xC0
    else if b0 == 0xED then 0x80 <= b1 < 0xA0
    else if b0 == 0xF0 then 0x90 <= b1 < 0xC0
    else if b0 == 0xF4 then 0x80 <= b1 < 0x90
    else 0x80 <= b1 < 0xC0
  }

  predicate IsContinuation(b: byte) {
    0x80 <= b < 0xC0
  }

  /** How many leading bytes of `b` are a prefix of a well-formed sequence of length `len`. */
  function MatchedPrefix(b: seq<byte>, len: nat): (k: nat)
    requires |b| > 0 && 2 <= len <= 4
    ensures 1 <= k <= len && k <= |b|
  {
    if |b| < 2 || !InSecondRange(b[0], b[1]) then 1
    else if len == 2 then 2
    else if |b| < 3 || !IsContinuation(b[2]) then 2
    else if len == 3 then 3
    else if |b| < 4 || !IsContinuation(b[3]) then 3
    else 4
  }

  predicate IsScalar(n: int) {
    0 <= n < 0xD800 || 0xE000 <= n < 0x11_0000
  }

  /** The scalar value of a well-formed multi-byte sequence. */
  function Combine(b: seq<byte>, len: nat): (n: int)
    requires 2 <= len <= 4 && |b| >= len
    requires SequenceLength(b[0]) == len && MatchedPrefix(b, len) == len
    ensures IsScalar(n)
  {
    if len == 2 then (b[0] as int - 0xC0) * 64 + (b[1] as int - 0x80)
    else if len == 3 then (b[0] as int - 0xE0) * 4096 + (b[1] as int - 0x80) * 64 + (b[2] as int - 0x80)
    else (b[0] as int - 0xF0) * 262144 + (b[1] as int - 0x80) * 4096 + (b[2] as int - 0x80) * 64 + (b[3] as int - 0x80)
  }

  datatype Step = Valid(c: char, len: nat) | Invalid(len: nat)

  /** One decoding step at the start of `b`: a character, or the length of the maximal ill-formed subpart. */
  function DecodeStep(b: seq<byte>): (r: Step)
    requires |b| > 0
    ensures 1 <= r.len <= |b|
  {
    var len := SequenceLength(b[0]);
    if len == 0 then Invalid(1)
    else if len == 1 then Valid(b[0] as char, 1)
    else
      var k := MatchedPrefix(b, len);
      if k < len then Invalid(k) else Valid(Combine(b, len) as char, len)
  }

  /** `String::from_utf8`: None for ill-formed input. */
  function Decode(b: seq<byte>): Option<string>
    decreases |b|
  {
    if b == [] then Some([])
    else match DecodeStep(b)
      case Invalid(_) => None
      case Valid(c, len) =>
        match Decode(b[len..])
        case None => None
        case Some(rest) => Some([c] + rest)
  }

  /** `String::from_utf8_lossy`. */
  function Lossy(b: seq<byte>): string
    decreases |b|
  {
    if b == [] then []
    else match DecodeStep(b)
      case Invalid(len) => [Replacement] + Lossy(b[len..])
      case Valid(c, len) => [c] + Lossy(b[len..])
  }

  lemma {:induction false} EncodeAppend(s: string, t: string)
    ensures Encode(s + t) == Encode(s) + Encode(t)
  {
    if s != [] {
      assert (s + t)[0] == s[0];
      assert (s + t)[1..] == s[1..] + t;
      EncodeAppend(s[1..], t);
      calc {
        Encode(s + t);
        CharBytes(s[0]) + Encode(s[1..] + t);
        CharBytes(s[0]) + (Encode(s[1..]) + Encode(t));
        (CharBytes(s[0]) + Encode(s[1..])) + Encode(t);
      }
    } else {
      assert s + t == t;
    }
  }

  lemma {:induction false} StepOfCharBytes(c: char, rest: seq<byte>)
    ensures DecodeStep(CharBytes(c) + rest) == Valid(c, |CharBytes(c)|)
  {
    var n := c as int;
    if n < 0x80 {
    } else if n < 0x800 {
      StepOfTwo(c, rest);
    } else if n < 0x1_0000 {
      StepOfThree(c, rest);
    } else {
      StepOfFour(c, rest);
    }
  }

  lemma StepOfTwo(c: char, rest: seq<byte>)
    requires 0x80 <= c as int < 0x800
    ensures DecodeStep(CharBytes(c) + rest) == Valid(c, 2)
  {
    var n := c as int;
    var b := CharBytes(c) + rest;
    assert b[0] == 0xC0 + n / 64 && b[1] == 0x80 + n % 64;
    assert SequenceLength(b[0]) == 2;
    assert MatchedPrefix(b, 2) == 2;
    assert Combine(b, 2) == n;
  }

  lemma DigitsOfThree(n: int)
    requires 0 <= n
    ensures n / 4096 * 64 + n / 64 % 64 == n / 64
    ensures (n / 4096) * 4096 + (n / 64 % 64) * 64 + n % 64 == n
  {
    var q, r := n / 64, n % 64;
    assert n == 64 * q + r;
    var q2, r2 := q / 64, q % 64;
    assert q == 64 * q2 + r2;
    assert n == 4096 * q2 + 64 * r2 + r;
    assert n / 4096 == q2;
  }

  lemma StepOfThree(c: char, rest: seq<byte>)
    requires 0x800 <= c as int < 0x1_0000
    ensures DecodeStep(CharBytes(c) + rest) == Valid(c, 3)
  {
    var n := c as int;
    var b := CharBytes(c) + rest;
    assert b[0] == 0xE0 + n / 4096 && b[1] == 0x80 + n / 64 % 64 && b[2] == 0x80 + n % 64;
    DigitsOfThree(n);
    assert SequenceLength(b[0]) == 3;
    assert InSecondRange(b[0], b[1]);
    assert MatchedPrefix(b, 3) == 3;
    assert Combine(b, 3) == n;
  }

  lemma DigitsOfFour(n: int)
    requires 0 <= n
    ensures (n / 262144) * 262144 + (n / 4096 % 64) * 4096 + (n / 64 % 64) * 64 + n % 64 == n
    ensures n / 262144 * 64 + n / 4096 % 64 == n / 4096
  {
    DigitsOfThree(n);
    var q2 := n / 4096;
    var q3, r3 := q2 / 64, q2 % 64;
    assert q2 == 64 * q3 + r3;
    assert n == 4096 * q2 + n % 4096;
    assert n == 262144 * q3 + 4096 * r3 + n % 4096;
    assert n / 262144 == q3;
  }

  lemma StepOfFour(c: char, rest: seq<byte>)
    requires 0x1_0000 <= c as int
    ensures DecodeStep(CharBytes(c) + rest) == Valid(c, 4)
  {
    var n := c as int;
    var b := CharBytes(c) + rest;
    assert b[0] == 0xF0 + n / 262144 && b[1] == 0x80 + n / 4096 % 64;
    assert b[2] == 0x80 + n / 64 % 64 && b[3] == 0x80 + n % 64;
    DigitsOfFour(n);
    assert SequenceLength(b[0]) == 4;
    assert InSecondRange(b[0], b[1]);
    assert MatchedPrefix(b, 4) == 4;
    assert Combine(b, 4) == n;
  }

  /** Decoding what `as_bytes` produced gives the string back. */
  lemma {:induction false} DecodeEncode(s: string)
    ensures Decode(Encode(s)) == Some(s)
  {
    if s != [] {
      StepOfCharBytes(s[0], Encode(s[1..]));
      var b := Encode(s);
      assert b[|CharBytes(s[0])|..] == Encode(s[1..]);
      DecodeEncode(s[1..]);
      assert [s[0]] + s[1..] == s;
    }
  }

  /** On well-formed input the lossy conversion changes nothing. */
  lemma {:induction false} LossyEncode(s: string)
    ensures Lossy(Encode(s)) == s
  {
    if s != [] {
      StepOfCharBytes(s[0], Encode(s[1..]));
      var b := Encode(s);
      assert b[|CharBytes(s[0])|..] == Encode(s[1..]);
      LossyEncode(s[1..]);
      assert [s[0]] + s[1..] == s;
    }
  }

  /** Different strings have different bytes. */
  lemma EncodeInjective(s: string, t: string)
    ensures Encode(s) == Encode(t) ==> s == t
  {
    DecodeEncode(s);
    DecodeEncode(t);
  }

  /** ASCII text is its own byte string. */
  lemma {:induction false} EncodeAscii(s: string)
    requires IsAscii(s)
    ensures |Encode(s)| == |s|
    ensures forall i :: 0 <= i < |s| ==> Encode(s)[i] == s[i] as int
  {
    if s != [] {
      EncodeAscii(s[1..]);
    }
  }
}
