/**
  Percent-encoding as the `urlencoding` crate does it. `encode` keeps ASCII
  letters, digits and `-._~` and writes every other UTF-8 byte as `%XX` in
  upper-case hexadecimal. `decode` turns each `%XY` with two hexadecimal
  digits into that byte, keeps a '%' that does not open such an escape and
  reads on from the byte after it (so `%%41` is `%A`), and then requires the
  result to be UTF-8. Section 2.1 of RFC 3986.

  Query strings are read the `application/x-www-form-urlencoded` way
  (`form_urlencoded::parse`): '+' is a space, a '%' not followed by two
  hexadecimal digits is an ordinary byte, and the bytes are read lossily.
*/
module PercentEncoding {
  import opened Wrappers
  import opened Utf8

  const Percent: byte := 37

  /** The bytes `encode` leaves alone. */
  predicate IsUnreserved(b: byte) {
    (48 <= b <= 57) || (65 <= b <= 90) || (97 <= b <= 122) || b == 45 || b == 46 || b == 95 || b == 126
  }

  /** The value of a hexadecimal digit, in either case. */
  function HexValue(b: byte): (r: Option<nat>)
    ensures r.Some? ==> r.value < 16
  {
    if 48 <= b <= 57 then Some(b - 48)
    else if 65 <= b <= 70 then Some(b - 65 + 10)
    else if 97 <= b <= 102 then Some(b - 97 + 10)
    else None
  }

  /** The upper-case hexadecimal digit `encode` writes. */
  function UpperHexDigit(v: nat): (b: byte)
    requires v < 16
    ensures HexValue(b) == Some(v)
  {
    if v < 10 then 48 + v else 65 + v - 10
  }

  function EncodeByte(b: byte): (r: seq<byte>)
    ensures |r| == 1 || |r| == 3
    ensures |r| == 1 <==> IsUnreserved(b)
  {
    if IsUnreserved(b) then [b] else [Percent, UpperHexDigit(b / 16), UpperHexDigit(b % 16)]
  }

  function EncodeBytes(b: seq<byte>): (r: seq<byte>)
    ensures forall i :: 0 <= i < |r| ==> IsUnreserved(r[i]) || r[i] == Percent
  {
    if b == [] then [] else EncodeByte(b[0]) + EncodeBytes(b[1..])
  }

  /**
    `decode_binary`: an escape with two hexadecimal digits becomes its byte.
    A '%' with fewer than two bytes after it is kept with them. Otherwise a
    '%' whose next byte is not a hexadecimal digit is kept on its own, and
    scanning resumes at that next byte; a '%' and a digit followed by a
    non-digit are kept, and scanning resumes at the non-digit. So the byte
    after a malformed '%' can still open or finish an escape.
  */
  function DecodeBytes(b: seq<byte>): seq<byte>
    decreases |b|
  {
    if b == [] then []
    else if b[0] != Percent then [b[0]] + DecodeBytes(b[1..])
    else if |b| < 3 then [Percent] + b[1..]
    else if HexValue(b[1]).None? then [Percent] + DecodeBytes(b[1..])
    else if HexValue(b[2]).None? then [Percent, b[1]] + DecodeBytes(b[2..])
    else [HexValue(b[1]).value * 16 + HexValue(b[2]).value] + DecodeBytes(b[3..])
  }

  /** A '%' that opens no escape is kept, and the bytes after it are still read as escapes. */
  lemma MalformedEscapeRescanned()
    ensures DecodeBytes([Percent, Percent, 52, 49]) == [Percent, 65]
    ensures DecodeBytes([Percent, 52, Percent, 52, 49]) == [Percent, 52, 65]
    ensures DecodeBytes([Percent, 52]) == [Percent, 52]
  {
    assert DecodeBytes([Percent, 52, 49]) == [65] + DecodeBytes([]);
    assert [Percent, Percent, 52, 49][1..] == [Percent, 52, 49];
    assert [Percent, 52, Percent, 52, 49][2..] == [Percent, 52, 49];
  }

  /** A stray '%' before a two-byte escape still lets the escape decode: "%%C3%A9" is "%é". */
  lemma StrayPercentBeforeEscape()
    ensures Decode("%%C3%A9") == Some("%\U{E9}")
  {
    var b := Utf8.Encode("%%C3%A9");
    assert b == [Percent, Percent, 67, 51, Percent, 65, 57];
    assert DecodeBytes(b[4..]) == [0xA9];
    assert DecodeBytes(b[1..]) == [0xC3, 0xA9];
    assert DecodeBytes(b) == [Percent, 0xC3, 0xA9];
    var e := Utf8.Encode("%\U{E9}");
    assert e == [Percent, 0xC3, 0xA9];
    DecodeEncode("%\U{E9}");
  }

  /** ASCII bytes as the characters they stand for. */
  function AsciiString(b: seq<byte>): (s: string)
    requires forall i :: 0 <= i < |b| ==> b[i] < 0x80
    ensures |s| == |b| && IsAscii(s)
  {
    seq(|b|, i requires 0 <= i < |b| => b[i] as char)
  }

  /** `urlencoding::encode`. */
  function Encode(s: string): (r: string)
    ensures IsAscii(r)
    ensures forall i :: 0 <= i < |r| ==> IsUnreserved(r[i] as int) || r[i] == '%'
  {
    AsciiString(EncodeBytes(Utf8.Encode(s)))
  }

  /** `urlencoding::decode`: None where the decoded bytes are not UTF-8. */
  function Decode(s: string): Option<string> {
    Utf8.Decode(DecodeBytes(Utf8.Encode(s)))
  }

  lemma DecodeEncodedByte(b: byte, rest: seq<byte>)
    ensures DecodeBytes(EncodeByte(b) + rest) == [b] + DecodeBytes(rest)
  {
    var e := EncodeByte(b) + rest;
    if IsUnreserved(b) {
      assert e[1..] == rest;
    } else {
      assert e[3..] == rest;
      assert b / 16 * 16 + b % 16 == b;
    }
  }

  lemma {:induction false} DecodeEncodeBytes(b: seq<byte>)
    ensures DecodeBytes(EncodeBytes(b)) == b
  {
    if b != [] {
      DecodeEncodedByte(b[0], EncodeBytes(b[1..]));
      DecodeEncodeBytes(b[1..]);
      assert b == [b[0]] + b[1..];
    }
  }

  /** Bytes without '%' decode to themselves. */
  lemma {:induction false} DecodeWithoutPercent(b: seq<byte>)
    requires Percent !in b
    ensures DecodeBytes(b) == b
  {
    if b != [] {
      DecodeWithoutPercent(b[1..]);
      assert b == [b[0]] + b[1..];
    }
  }

  lemma {:induction false} EncodeAsciiString(b: seq<byte>)
    requires forall i :: 0 <= i < |b| ==> b[i] < 0x80
    ensures Utf8.Encode(AsciiString(b)) == b
  {
    var s := AsciiString(b);
    EncodeAscii(s);
  }

  /** Decoding what `encode` produced gives the string back. */
  lemma DecodeOfEncode(s: string)
    ensures Decode(Encode(s)) == Some(s)
  {
    var e := EncodeBytes(Utf8.Encode(s));
    EncodeAsciiString(e);
    DecodeEncodeBytes(Utf8.Encode(s));
    DecodeEncode(s);
  }

  /** A string without '%' decodes to itself. */
  lemma DecodePlain(s: string)
    requires '%' !in s
    ensures Decode(s) == Some(s)
  {
    var b := Utf8.Encode(s);
    PercentNotInEncoding(s);
    DecodeWithoutPercent(b);
    DecodeEncode(s);
  }

  lemma {:induction false} PercentNotInEncoding(s: string)
    requires '%' !in s
    ensures Percent !in Utf8.Encode(s)
  {
    if s != [] {
      PercentNotInEncoding(s[1..]);
      var n := s[0] as int;
      assert n != 37;
      assert Percent !in CharBytes(s[0]);
    }
  }

  const Plus: byte := 43

  /** Every '+' becomes a space. */
  function ReplacePlus(b: seq<byte>): (r: seq<byte>)
    ensures |r| == |b|
  {
    seq(|b|, i requires 0 <= i < |b| => if b[i] == Plus then 32 else b[i])
  }

  /** `percent_decode`: a valid escape becomes its byte, anything else stays as it is. */
  function PercentDecodeLenient(b: seq<byte>): seq<byte>
    decreases |b|
  {
    if b == [] then []
    else if b[0] == Percent && |b| >= 3 && HexValue(b[1]).Some? && HexValue(b[2]).Some? then
      [HexValue(b[1]).value * 16 + HexValue(b[2]).value] + PercentDecodeLenient(b[3..])
    else [b[0]] + PercentDecodeLenient(b[1..])
  }

  /** One decoded name or value of a form-encoded query. */
  function FormComponent(s: string): string {
    Lossy(PercentDecodeLenient(ReplacePlus(Utf8.Encode(s))))
  }

  lemma LenientDecodeEncodedByte(b: byte, rest: seq<byte>)
    ensures PercentDecodeLenient(EncodeByte(b) + rest) == [b] + PercentDecodeLenient(rest)
  {
    var e := EncodeByte(b) + rest;
    if IsUnreserved(b) {
      assert e[1..] == rest;
    } else {
      assert e[3..] == rest;
      assert b / 16 * 16 + b % 16 == b;
    }
  }

  lemma {:induction false} LenientDecodeEncodeBytes(b: seq<byte>)
    ensures PercentDecodeLenient(EncodeBytes(b)) == b
  {
    if b != [] {
      LenientDecodeEncodedByte(b[0], EncodeBytes(b[1..]));
      LenientDecodeEncodeBytes(b[1..]);
      assert b == [b[0]] + b[1..];
    }
  }

  lemma {:induction false} NoPlusInEncodeBytes(b: seq<byte>)
    ensures Plus !in EncodeBytes(b)
  {
    if b != [] {
      NoPlusInEncodeBytes(b[1..]);
      var e := EncodeByte(b[0]);
      assert Plus !in e by {
        if !IsUnreserved(b[0]) {
          assert e == [Percent, UpperHexDigit(b[0] / 16), UpperHexDigit(b[0] % 16)];
        }
      }
    }
  }

  lemma ReplacePlusAbsent(b: seq<byte>)
    requires Plus !in b
    ensures ReplacePlus(b) == b
  {
  }

  lemma {:induction false} LenientDecodeWithoutPercent(b: seq<byte>)
    requires Percent !in b
    ensures PercentDecodeLenient(b) == b
  {
    if b != [] {
      LenientDecodeWithoutPercent(b[1..]);
      assert b == [b[0]] + b[1..];
    }
  }

  /** A query value written by `encode` is read back as the original string. */
  lemma FormComponentOfEncode(s: string)
    ensures FormComponent(Encode(s)) == s
  {
    var e := EncodeBytes(Utf8.Encode(s));
    EncodeAsciiString(e);
    NoPlusInEncodeBytes(Utf8.Encode(s));
    ReplacePlusAbsent(e);
    LenientDecodeEncodeBytes(Utf8.Encode(s));
    LossyEncode(s);
  }

  /** A query value with neither '%' nor '+' is read as it is written. */
  lemma FormComponentPlain(s: string)
    requires '%' !in s && '+' !in s
    ensures FormComponent(s) == s
  {
    var b := Utf8.Encode(s);
    PercentNotInEncoding(s);
    PlusNotInEncoding(s);
    ReplacePlusAbsent(b);
    LenientDecodeWithoutPercent(b);
    LossyEncode(s);
  }

  lemma {:induction false} PlusNotInEncoding(s: string)
    requires '+' !in s
    ensures Plus !in Utf8.Encode(s)
  {
    if s != [] {
      PlusNotInEncoding(s[1..]);
      var n := s[0] as int;
      assert n != 43;
      assert Plus !in CharBytes(s[0]);
    }
  }
}
