/**
  The ppvs.su provider service: decoding a stream's video link (a tiny
  Protocol Buffers message whose first field is ROT-71 text over standard
  base64 of a ChaCha20 ciphertext), the request body sent to the provider's
  fetch endpoint, and the catalog cache rules (the one-hour staleness test,
  the refresh decision, and turning the provider's listing into games).
*/
module PpvsuServices {
  import opened Wrappers
  import opened Utf8
  import opened Text
  import Base64
  import opened Errors

  // ---- ROT-71 ----

  /** One character of `rot71_decode`: codes 33..=126 rotate by 71 within those 94 codes. */
  function Rot71Char(c: char): (r: char)
    ensures 33 <= c as int <= 126 ==> 33 <= r as int <= 126
    ensures 33 <= c as int <= 126 ==> r as int == 33 + (c as int - 33 + 71) % 94
    ensures !(33 <= c as int <= 126) ==> r == c
  {
    if 33 <= c as int <= 126 then (33 + (c as int - 33 + 71) % 94) as char else c
  }

  /** The opposite rotation, by 23 = 94 - 71: the provider's encoding direction. */
  function Rot23Char(c: char): char {
    if 33 <= c as int <= 126 then (33 + (c as int - 33 + 23) % 94) as char else c
  }

  /** `rot71_decode`: the rotation applied character by character. */
  function Rot71Decode(s: string): (r: string)
    ensures |r| == |s|
    ensures forall i :: 0 <= i < |s| ==> r[i] == Rot71Char(s[i])
  {
    seq(|s|, i requires 0 <= i < |s| => Rot71Char(s[i]))
  }

  function Rot23Encode(s: string): (r: string)
    ensures |r| == |s|
    ensures forall i :: 0 <= i < |s| ==> r[i] == Rot23Char(s[i])
  {
    seq(|s|, i requires 0 <= i < |s| => Rot23Char(s[i]))
  }

  /** ROT-71 is a bijection: rotating by 23 undoes it, and it undoes rotating by 23. */
  lemma Rot71Inverse(s: string)
    ensures Rot23Encode(Rot71Decode(s)) == s
    ensures Rot71Decode(Rot23Encode(s)) == s
  {
    forall i | 0 <= i < |s|
      ensures Rot23Char(Rot71Char(s[i])) == s[i] && Rot71Char(Rot23Char(s[i])) == s[i]
    {
      RotCharInverse(s[i]);
    }
  }

  lemma RotCharInverse(c: char)
    ensures Rot23Char(Rot71Char(c)) == c && Rot71Char(Rot23Char(c)) == c
  {
    var n := c as int;
    if 33 <= n <= 126 {
      var d := n - 33;
      WrapOnce(d + 71);
      WrapOnce(d + 23);
      WrapOnce((d + 71) % 94 + 23);
      WrapOnce((d + 23) % 94 + 71);
    }
  }

  /** Below twice the modulus, `% 94` subtracts 94 at most once. */
  lemma WrapOnce(x: int)
    requires 0 <= x < 188
    ensures x % 94 == if x < 94 then x else x - 94
  {
  }

  // ---- base-128 varints ----

  /**
    The bytes `encode_variant` appends for `n`: seven bits at a time, low
    group first. `(n as u8) | 0x80` keeps the low seven bits of `n` and sets
    the continuation bit, which is `n % 0x80 + 0x80`.
  */
  function Varint(n: nat): (r: seq<byte>)
    ensures |r| >= 1
    ensures forall i :: 0 <= i < |r| - 1 ==> r[i] >= 0x80
    ensures r[|r| - 1] < 0x80
    decreases n
  {
    if n < 0x80 then [n]
    else
      var low := n % 0x80;
      var rest := Varint(n / 0x80);
      var r := [low + 0x80] + rest;
      assert forall i :: 0 < i < |r| ==> r[i] == rest[i - 1];
      r
  }

  /** `encode_variant`: `out` with the varint of `n` pushed onto it. */
  method EncodeVariant(n: nat, out: seq<byte>) returns (result: seq<byte>)
    ensures result == out + Varint(n)
    ensures result[..|out|] == out
  {
    result := out;
    var m := n;
    while m >= 0x80
      invariant result + Varint(m) == out + Varint(n)
      decreases m
    {
      assert Varint(m) == [m % 0x80 + 0x80] + Varint(m / 0x80);
      result := result + [m % 0x80 + 0x80];
      m := m / 0x80;
    }
    result := result + [m];
  }

  /**
    The body `fetch_video_link` posts to the provider: a message holding the
    stream path as field 1.
  */
  method FetchRequestBody(streamPath: string) returns (body: seq<byte>)
    ensures body == [0x0A] + Varint(|Encode(streamPath)|) + Encode(streamPath)
  {
    body := [0x0A];
    var pathBytes := Encode(streamPath);
    body := EncodeVariant(|pathBytes|, body);
    body := body + pathBytes;
  }

  function Pow2(k: nat): (r: nat)
    ensures r >= 1
  {
    if k == 0 then 1 else 2 * Pow2(k - 1)
  }

  lemma Pow2Seven(k: nat)
    ensures Pow2(k + 7) == 128 * Pow2(k)
  {
    assert Pow2(k + 7) == 2 * Pow2(k + 6);
    assert Pow2(k + 6) == 2 * Pow2(k + 5);
    assert Pow2(k + 5) == 2 * Pow2(k + 4);
    assert Pow2(k + 4) == 2 * Pow2(k + 3);
    assert Pow2(k + 3) == 2 * Pow2(k + 2);
    assert Pow2(k + 2) == 2 * Pow2(k + 1);
  }

  /** What the length loop ends with: the length and the offset after the varint. */
  datatype Read = Read(length: nat, next: nat)

  /**
    The length loop of `parse_protobuf`, resumed at `offset` with `length`
    and `shift` so far: the final length and the offset after it. It stops
    at the end of the buffer or after a byte without the continuation bit;
    `length |= (byte & 0x7F) << shift` is an addition, as the new bits lie
    above the ones already set.
  */
  function LengthFrom(buf: seq<byte>, offset: nat, length: nat, shift: nat): (r: Read)
    requires offset <= |buf|
    ensures offset <= r.next <= |buf|
    decreases |buf| - offset
  {
    if offset == |buf| then Read(length, offset)
    else
      var b := buf[offset];
      var l := length + b % 0x80 * Pow2(shift);
      if b < 0x80 then Read(l, offset + 1) else LengthFrom(buf, offset + 1, l, shift + 7)
  }

  /** The number a run of seven-bit groups spells, low group first. */
  function GroupsValue(v: seq<byte>): nat {
    if v == [] then 0 else v[0] % 0x80 + 0x80 * GroupsValue(v[1..])
  }

  /** The varint of `n` spells `n`. */
  lemma {:induction false} VarintValue(n: nat)
    ensures GroupsValue(Varint(n)) == n
    decreases n
  {
    if n >= 0x80 {
      GroupShrinks(n);
      var w := Varint(n / 0x80);
      assert Varint(n) == [n % 0x80 + 0x80] + w;
      assert ([n % 0x80 + 0x80] + w)[1..] == w;
      VarintValue(n / 0x80);
    }
  }

  /**
    The length loop reads a run of groups ending in the first byte without
    the continuation bit, and stops right after it.
  */
  lemma {:induction false} LengthOfGroups(buf: seq<byte>, offset: nat, v: seq<byte>, length: nat, shift: nat)
    requires v != [] && offset + |v| <= |buf| && buf[offset..offset + |v|] == v
    requires forall i :: 0 <= i < |v| - 1 ==> v[i] >= 0x80
    requires v[|v| - 1] < 0x80
    ensures LengthFrom(buf, offset, length, shift) == Read(length + GroupsValue(v) * Pow2(shift), offset + |v|)
    decreases |v|
  {
    var p := Pow2(shift);
    assert buf[offset] == v[0];
    if |v| == 1 {
      assert GroupsValue(v) == v[0] % 0x80 + 0x80 * GroupsValue([]);
    } else {
      var low := v[0] % 0x80;
      var l1 := length + low * p;
      var rest := v[1..];
      LengthFromContinues(buf, offset, length, shift, low);
      assert buf[offset + 1..offset + 1 + |rest|] == rest;
      assert forall i :: 0 <= i < |rest| ==> rest[i] == v[i + 1];
      LengthOfGroups(buf, offset + 1, rest, l1, shift + 7);
      Pow2Seven(shift);
      assert GroupsValue(v) == low + 0x80 * GroupsValue(rest);
      GroupSum(length, low, GroupsValue(rest), p);
    }
  }

  /** A byte with the continuation bit set adds its low seven bits and moves on. */
  lemma LengthFromContinues(buf: seq<byte>, offset: nat, length: nat, shift: nat, low: nat)
    requires offset < |buf| && low < 0x80 && buf[offset] == low + 0x80
    ensures LengthFrom(buf, offset, length, shift) == LengthFrom(buf, offset + 1, length + low * Pow2(shift), shift + 7)
  {
    assert buf[offset] % 0x80 == low;
  }

  lemma GroupShrinks(n: nat)
    requires n >= 0x80
    ensures n / 0x80 < n && n % 0x80 < 0x80
  {
  }

  /** Adding a group above the bits already set keeps the length below the next power. */
  lemma GroupBelow(length: nat, low: nat, shift: nat)
    requires length < Pow2(shift) && low < 0x80
    ensures length + low * Pow2(shift) < Pow2(shift + 7)
  {
    var p := Pow2(shift);
    Pow2Seven(shift);
    var d: nat := 0x7F - low;
    assert d * p >= 0;
    assert 0x7F * p == low * p + d * p;
  }

  /** The next group, `shift + 7` bits up, adds its value times 0x80 times the current power. */
  lemma GroupSum(length: nat, low: nat, g: nat, p: nat)
    ensures length + low * p + g * (0x80 * p) == length + (low + 0x80 * g) * p
  {
    assert g * (0x80 * p) == (0x80 * g) * p;
  }

  // ---- the protobuf message ----

  /** One complete length-delimited field: its tag byte and its data. */
  datatype Field = Field(tag: byte, data: seq<byte>)

  /**
    The complete fields of `buf` from `offset`, in order: a one-byte tag, a
    varint length and that many bytes. A field whose length overruns the
    buffer ends the list.
  */
  function FieldList(buf: seq<byte>, offset: nat): (r: seq<Field>)
    requires offset <= |buf|
    decreases |buf| - offset
  {
    if offset == |buf| then []
    else
      var Read(length, start) := LengthFrom(buf, offset + 1, 0, 0);
      if start + length > |buf| then []
      else [Field(buf[offset], buf[start..start + length])] + FieldList(buf, start + length)
  }

  /** One complete field starts the walk. */
  lemma ListStep(buf: seq<byte>, offset: nat, length: nat, start: nat)
    requires offset < |buf| && Read(length, start) == LengthFrom(buf, offset + 1, 0, 0) && start + length <= |buf|
    ensures FieldList(buf, offset) == [Field(buf[offset], buf[start..start + length])] + FieldList(buf, start + length)
  {
  }

  /** A field whose length overruns the buffer ends the walk and the loop. */
  lemma FieldOverrun(buf: seq<byte>, offset: nat, length: nat, start: nat, f1: Option<string>, f2: Option<string>)
    requires offset < |buf| && Read(length, start) == LengthFrom(buf, offset + 1, 0, 0) && start + length > |buf|
    ensures FieldList(buf, offset) == []
    ensures FieldsFrom(buf, offset, f1, f2) == (f1, f2)
  {
  }

  /** Index of the last field with `tag`. */
  function LastWith(fields: seq<Field>, tag: byte): (r: Option<nat>)
    ensures r.Some? ==> r.value < |fields| && fields[r.value].tag == tag
    ensures r.Some? ==> forall j :: r.value < j < |fields| ==> fields[j].tag != tag
    ensures r.None? ==> forall j :: 0 <= j < |fields| ==> fields[j].tag != tag
  {
    if fields == [] then None
    else
      var later := LastWith(fields[1..], tag);
      assert forall j :: 1 <= j < |fields| ==> fields[j] == fields[1..][j - 1];
      match later
      case Some(i) => Some(i + 1)
      case None => if fields[0].tag == tag then Some(0) else None
  }

  /** The text of the last field with `tag`, or `default` when there is none. */
  function LastText(fields: seq<Field>, tag: byte, default: Option<string>): Option<string> {
    match LastWith(fields, tag)
    case Some(i) => Some(Lossy(fields[i].data))
    case None => default
  }

  lemma LastTextCons(x: Field, rest: seq<Field>, tag: byte, d: Option<string>)
    ensures LastText([x] + rest, tag, d) ==
      LastText(rest, tag, if x.tag == tag then Some(Lossy(x.data)) else d)
  {
    var l := [x] + rest;
    assert l[1..] == rest;
    assert l[0] == x;
    match LastWith(rest, tag)
    case Some(i) => assert l[i + 1] == rest[i];
    case None =>
  }

  /** The outer loop's update of `field1` (tag 0x0a) and `field2` (tag 0x12), field by field. */
  function KeepFields(fields: seq<Field>, f1: Option<string>, f2: Option<string>): (Option<string>, Option<string>)
    decreases |fields|
  {
    if fields == [] then (f1, f2)
    else
      var x := fields[0];
      KeepFields(fields[1..],
        if x.tag == 0x0A then Some(Lossy(x.data)) else f1,
        if x.tag == 0x12 then Some(Lossy(x.data)) else f2)
  }

  lemma KeepFieldsCons(x: Field, rest: seq<Field>, f1: Option<string>, f2: Option<string>)
    ensures KeepFields([x] + rest, f1, f2) == KeepFields(rest,
      if x.tag == 0x0A then Some(Lossy(x.data)) else f1,
      if x.tag == 0x12 then Some(Lossy(x.data)) else f2)
  {
    assert ([x] + rest)[0] == x && ([x] + rest)[1..] == rest;
  }

  /**
    The outer loop of `parse_protobuf`, resumed at `offset` with the fields
    found so far: the final `field1` and `field2`.
  */
  function FieldsFrom(buf: seq<byte>, offset: nat, f1: Option<string>, f2: Option<string>): (Option<string>, Option<string>)
    requires offset <= |buf|
  {
    KeepFields(FieldList(buf, offset), f1, f2)
  }

  /** One complete field: the loop takes it and moves past it. */
  lemma FieldStep(buf: seq<byte>, offset: nat, length: nat, start: nat, f1: Option<string>, f2: Option<string>)
    requires offset < |buf| && Read(length, start) == LengthFrom(buf, offset + 1, 0, 0) && start + length <= |buf|
    ensures FieldsFrom(buf, offset, f1, f2) == FieldsFrom(buf, start + length,
      if buf[offset] == 0x0A then Some(Lossy(buf[start..start + length])) else f1,
      if buf[offset] == 0x12 then Some(Lossy(buf[start..start + length])) else f2)
  {
    ListStep(buf, offset, length, start);
    KeepFieldsCons(Field(buf[offset], buf[start..start + length]), FieldList(buf, start + length), f1, f2);
  }

  /** Field by field, each of the two tags ends with the text of its last field. */
  lemma {:induction false} KeepsLast(fields: seq<Field>, f1: Option<string>, f2: Option<string>)
    ensures KeepFields(fields, f1, f2) == (LastText(fields, 0x0A, f1), LastText(fields, 0x12, f2))
    decreases |fields|
  {
    if fields != [] {
      var x := fields[0];
      var rest := fields[1..];
      assert fields == [x] + rest;
      KeepsLast(rest, if x.tag == 0x0A then Some(Lossy(x.data)) else f1, if x.tag == 0x12 then Some(Lossy(x.data)) else f2);
      LastTextCons(x, rest, 0x0A, f1);
      LastTextCons(x, rest, 0x12, f2);
    }
  }

  /**
    The loop keeps, for each of the two tags, the text of the last complete
    field carrying it; every other tag is skipped.
  */
  lemma FieldsAreLast(buf: seq<byte>, offset: nat, f1: Option<string>, f2: Option<string>)
    requires offset <= |buf|
    ensures FieldsFrom(buf, offset, f1, f2) ==
      (LastText(FieldList(buf, offset), 0x0A, f1), LastText(FieldList(buf, offset), 0x12, f2))
  {
    KeepsLast(FieldList(buf, offset), f1, f2);
  }

  /** `parse_protobuf` as a function of the buffer. */
  function Parse(buf: seq<byte>): Result<(string, Option<string>), Error> {
    var (f1, f2) := FieldsFrom(buf, 0, None, None);
    match f1
    case Some(s) => Ok((s, f2))
    case None => Err(InternalServerErrorWithContext("failed to extract field1 from protobuf"))
  }

  /**
    The length loop of `parse_protobuf`: the length spelled by the varint
    at `start`, and the offset just after it.
  */
  method ReadLength(buffer: seq<byte>, start: nat) returns (length: nat, offset: nat)
    requires start <= |buffer|
    ensures Read(length, offset) == LengthFrom(buffer, start, 0, 0)
  {
    offset := start;
    length := 0;
    var shift: nat := 0;
    while true
      invariant start <= offset <= |buffer|
      invariant length < Pow2(shift)
      invariant LengthFrom(buffer, offset, length, shift) == LengthFrom(buffer, start, 0, 0)
      decreases |buffer| - offset
    {
      if offset >= |buffer| {
        assert Read(length, offset) == LengthFrom(buffer, start, 0, 0);
        break;
      }
      var b := buffer[offset];
      ghost var before := LengthFrom(buffer, offset, length, shift);
      offset := offset + 1;
      GroupBelow(length, b % 0x80, shift);
      length := length + b % 0x80 * Pow2(shift);
      shift := shift + 7;
      if b < 0x80 {
        assert Read(length, offset) == before;
        break;
      }
      assert LengthFrom(buffer, offset, length, shift) == before;
    }
  }

  /** `parse_protobuf`. */
  method ParseProtobuf(buffer: seq<byte>) returns (r: Result<(string, Option<string>), Error>)
    ensures r == Parse(buffer)
  {
    var offset := 0;
    var field1: Option<string> := None;
    var field2: Option<string> := None;
    while offset < |buffer|
      invariant offset <= |buffer|
      invariant FieldsFrom(buffer, offset, field1, field2) == FieldsFrom(buffer, 0, None, None)
      decreases |buffer| - offset
    {
      var tag := buffer[offset];
      var length, start := ReadLength(buffer, offset + 1);
      if start + length > |buffer| {
        FieldOverrun(buffer, offset, length, start, field1, field2);
        break;
      }
      FieldStep(buffer, offset, length, start, field1, field2);
      var fieldData := buffer[start..start + length];
      offset := start + length;
      if tag == 0x0A {
        field1 := Some(Lossy(fieldData));
      } else if tag == 0x12 {
        field2 := Some(Lossy(fieldData));
      }
      assert FieldsFrom(buffer, offset, field1, field2) == FieldsFrom(buffer, 0, None, None);
    }
    assert (field1, field2) == FieldsFrom(buffer, 0, None, None);
    match field1
    case Some(f1) => r := Ok((f1, field2));
    case None => r := Err(InternalServerErrorWithContext("failed to extract field1 from protobuf"));
  }

  /**
    `parse_protobuf` succeeds iff the message holds a complete 0x0a field;
    it then returns the last such field's text and the last 0x12 field's
    text, if any.
  */
  lemma ParseIsLastFields(buf: seq<byte>)
    ensures var fields := FieldList(buf, 0);
      && (Parse(buf).Ok? <==> exists i :: 0 <= i < |fields| && fields[i].tag == 0x0A)
      && (Parse(buf).Ok? ==> Parse(buf).value == (LastText(fields, 0x0A, None).value, LastText(fields, 0x12, None)))
  {
    FieldsAreLast(buf, 0, None, None);
  }

  /** The body posted to the fetch endpoint parses back to the stream path. */
  lemma FetchBodyParses(path: string)
    ensures Parse([0x0A] + Varint(|Encode(path)|) + Encode(path)) == Ok((path, None))
  {
    SingleField(Encode(path));
    LossyEncode(path);
  }

  /** A message holding only field 1 yields that field's text. */
  lemma SingleField(p: seq<byte>)
    ensures FieldsFrom([0x0A] + Varint(|p|) + p, 0, None, None) == (Some(Lossy(p)), None)
  {
    var v := Varint(|p|);
    var buf := [0x0A] + v + p;
    ThreeParts(0x0A, v, p);
    ReadsVarint(buf, 1, v, |p|);
    OneField(buf, 1 + |v|, p);
  }

  lemma OneField(buf: seq<byte>, start: nat, p: seq<byte>)
    requires 0 < start && start + |p| == |buf| && buf[0] == 0x0A
    requires LengthFrom(buf, 1, 0, 0) == Read(|p|, start) && buf[start..] == p
    ensures FieldsFrom(buf, 0, None, None) == (Some(Lossy(p)), None)
  {
    assert buf[start..start + |p|] == p;
    FieldStep(buf, 0, |p|, start, None, None);
  }

  /** The length loop started on the varint of `n` reads `n`. */
  lemma ReadsVarint(buf: seq<byte>, offset: nat, v: seq<byte>, n: nat)
    requires v == Varint(n) && offset + |v| <= |buf| && buf[offset..offset + |v|] == v
    ensures LengthFrom(buf, offset, 0, 0) == Read(n, offset + |v|)
  {
    VarintValue(n);
    LengthOfGroups(buf, offset, v, 0, 0);
    assert Pow2(0) == 1;
  }

  lemma ThreeParts(a: byte, v: seq<byte>, p: seq<byte>)
    ensures ([a] + v + p)[0] == a
    ensures ([a] + v + p)[1..1 + |v|] == v
    ensures ([a] + v + p)[1 + |v|..1 + |v| + |p|] == p
  {
  }

  // ---- ChaCha20 and the decryption pipeline ----

  /**
    ChaCha20 from block 1 (keystream position 64) with the given key and
    nonce, applied to a ciphertext. The cipher is not part of this model.
  */
  type Keystream = (seq<byte>, seq<byte>, seq<byte>) -> seq<byte>

  /** `is_ascii() && !is_ascii_control()`: the codes 0x20..=0x7E. */
  predicate IsPrintableAscii(c: char) {
    ' ' <= c <= '~'
  }

  /** The longest prefix of printable ASCII characters. */
  function PrintablePrefix(s: string): (r: string)
    ensures r <= s
    ensures forall i :: 0 <= i < |r| ==> IsPrintableAscii(r[i])
    ensures |r| < |s| ==> !IsPrintableAscii(s[|r|])
  {
    if s == [] || !IsPrintableAscii(s[0]) then [] else [s[0]] + PrintablePrefix(s[1..])
  }

  /**
    The plaintext post-processing of `chacha20_decrypt`: up to and including
    the first ".m3u8", or without one the longest printable-ASCII prefix.
  */
  function TrimPlaintext(plaintext: string): (r: string)
    ensures r <= plaintext
    ensures Contains(plaintext, ".m3u8") ==>
      |r| >= 5 && r[|r| - 5..] == ".m3u8" && forall j :: 0 <= j < |r| - 5 ==> !OccursAt(r, ".m3u8", j)
    ensures !Contains(plaintext, ".m3u8") ==> r == PrintablePrefix(plaintext)
  {
    match Find(plaintext, ".m3u8")
    case Some(i) =>
      var r := plaintext[..i + 5];
      assert r[i..] == plaintext[i..i + 5];
      forall j | 0 <= j < |r| - 5 ensures !OccursAt(r, ".m3u8", j) {
        assert !OccursAt(plaintext, ".m3u8", j);
        assert r[j..j + 5] == plaintext[j..j + 5];
      }
      r
    case None => PrintablePrefix(plaintext)
  }

  /** `chacha20_decrypt`. */
  function Chacha20Decrypt(decoded: seq<byte>, key: string, keystream: Keystream): (r: Result<string, Error>)
    ensures r.Err? <==> |decoded| < 12 || |Encode(key)| != 32
    ensures |decoded| < 12 ==> r == Err(InternalServerErrorWithContext("decoded data too short to contain nonce"))
    ensures |decoded| >= 12 && |Encode(key)| != 32 ==>
      r == Err(InternalServerErrorWithContext("key must be 32 bytes, got " + NatToDecimal(|Encode(key)|)))
    ensures r.Ok? ==> r.value <= Lossy(keystream(Encode(key), decoded[..12], decoded[12..]))
    ensures r.Ok? ==> r.value == TrimPlaintext(Lossy(keystream(Encode(key), decoded[..12], decoded[12..])))
  {
    if |decoded| < 12 then Err(InternalServerErrorWithContext("decoded data too short to contain nonce"))
    else
      var keyBytes := Encode(key);
      if |keyBytes| != 32 then
        Err(InternalServerErrorWithContext("key must be 32 bytes, got " + NatToDecimal(|keyBytes|)))
      else
        Ok(TrimPlaintext(Lossy(keystream(keyBytes, decoded[..12], decoded[12..]))))
  }

  /** `decrypt_stream_url`: field 1, ROT-71, standard base64, ChaCha20. */
  function DecryptStreamUrl(blob: seq<byte>, islandHeader: string, keystream: Keystream): (r: Result<string, Error>)
    ensures Parse(blob).Err? ==> r == Err(Parse(blob).error)
    ensures r.Ok? ==> Parse(blob).Ok?
    ensures Parse(blob).Ok? && Base64.Decode(Base64.Standard, Rot71Decode(Parse(blob).value.0)).None? ==>
      r == Err(InternalServerErrorWithContext("failed to base64 decode after ROT-71: "))
    ensures Parse(blob).Ok? && Base64.Decode(Base64.Standard, Rot71Decode(Parse(blob).value.0)).Some? ==>
      var decoded := Base64.Decode(Base64.Standard, Rot71Decode(Parse(blob).value.0)).value;
      (r.Err? <==> |decoded| < 12 || |Encode(islandHeader)| != 32)
      && (r.Ok? ==> r.value == TrimPlaintext(Lossy(keystream(Encode(islandHeader), decoded[..12], decoded[12..]))))
  {
    match Parse(blob)
    case Err(e) => Err(e)
    case Ok((encoded, _)) =>
      match Base64.Decode(Base64.Standard, Rot71Decode(encoded))
      case None => Err(InternalServerErrorWithContext("failed to base64 decode after ROT-71: "))
      case Some(decoded) => Chacha20Decrypt(decoded, islandHeader, keystream)
  }

  /**
    A blob built the way the provider builds it (the URL encrypted under the
    32-byte key and a 12-byte nonce, nonce first, standard base64, rotated by
    23, as field 1) decrypts to the URL, trimmed as `chacha20_decrypt` trims.
  */
  lemma DecryptsProviderBlob(url: string, key: string, nonce: seq<byte>, keystream: Keystream)
    requires |nonce| == 12 && |Encode(key)| == 32
    requires var ct := keystream(Encode(key), nonce, Encode(url));
      keystream(Encode(key), nonce, ct) == Encode(url)
    ensures var ct := keystream(Encode(key), nonce, Encode(url));
      var field := Encode(Rot23Encode(Base64.Encode(Base64.Standard, nonce + ct)));
      DecryptStreamUrl([0x0A] + Varint(|field|) + field, key, keystream) == Ok(TrimPlaintext(url))
  {
    var ct := keystream(Encode(key), nonce, Encode(url));
    var b64 := Base64.Encode(Base64.Standard, nonce + ct);
    var text := Rot23Encode(b64);
    FetchBodyParses(text);
    Rot71Inverse(b64);
    Base64.DecodeEncode(Base64.Standard, nonce + ct);
    assert (nonce + ct)[..12] == nonce;
    assert (nonce + ct)[12..] == ct;
    LossyEncode(url);
  }

  // ---- the game catalog ----

  /** `Game`: what the catalog caches per stream. */
  datatype Game = Game(
    id: int, name: string, poster: string, startTime: int, endTime: int,
    cacheTime: int, videoLink: string, category: string)

  /** `PpvsuStream`, `PpvsuCategory` and `PpvsuApiResponse`: the provider's listing. */
  datatype Stream = Stream(id: int, name: string, poster: string, startsAt: int, endsAt: int, iframe: Option<string>)
  datatype Category = Category(category: string, streams: seq<Stream>)
  datatype ApiResponse = ApiResponse(success: bool, streams: seq<Category>)

  /** `PpvsuStreamDetailResponse` with its `PpvsuStreamDetail`; `sources` holds each source's `data`. */
  datatype Detail = Detail(
    id: int, name: string, poster: string, startTimestamp: int, endTimestamp: int,
    sources: seq<string>, categoryName: Option<string>)
  datatype DetailResponse = DetailResponse(success: bool, data: Detail)

  const OneHour: int := 3600

  /** `is_cache_stale`: more than an hour old. */
  predicate IsCacheStale(cacheTime: int, currentTime: int) {
    currentTime - cacheTime > OneHour
  }

  /** A cache is fresh for exactly one hour after it was written, and stays stale once it is stale. */
  lemma CacheStaleAfterOneHour(cacheTime: int, t1: int, t2: int)
    ensures !IsCacheStale(cacheTime, cacheTime + OneHour)
    ensures IsCacheStale(cacheTime, cacheTime + OneHour + 1)
    ensures t1 <= t2 && IsCacheStale(cacheTime, t1) ==> IsCacheStale(cacheTime, t2)
  {
  }

  /** The game a listed stream with an iframe becomes. */
  function GameOf(s: Stream, category: string, cacheTime: int): Game
    requires s.iframe.Some?
  {
    Game(s.id, s.name, s.poster, s.startsAt, s.endsAt, cacheTime, s.iframe.value, category)
  }

  function CategoryGames(category: string, streams: seq<Stream>, cacheTime: int): seq<Game> {
    if streams == [] then []
    else
      var first := if streams[0].iframe.Some? then [GameOf(streams[0], category, cacheTime)] else [];
      first + CategoryGames(category, streams[1..], cacheTime)
  }

  /** The games `fetch_and_cache_games` builds from a listing, in listing order. */
  function ListingGames(cats: seq<Category>, cacheTime: int): seq<Game> {
    if cats == [] then []
    else CategoryGames(cats[0].category, cats[0].streams, cacheTime) + ListingGames(cats[1..], cacheTime)
  }

  /**
    A category contributes exactly its streams with an iframe: each game is
    such a stream's game under the category's name and the shared cache time,
    and each such stream has its game there.
  */
  lemma {:induction false} CategoryGamesExactly(category: string, streams: seq<Stream>, t: int)
    ensures forall g :: g in CategoryGames(category, streams, t) <==>
      exists s :: s in streams && s.iframe.Some? && g == GameOf(s, category, t)
  {
    if streams != [] {
      CategoryGamesExactly(category, streams[1..], t);
      assert streams == [streams[0]] + streams[1..];
    }
  }

  lemma {:induction false} ListingGamesExactly(cats: seq<Category>, t: int)
    ensures forall g :: g in ListingGames(cats, t) <==>
      exists c, s :: c in cats && s in c.streams && s.iframe.Some? && g == GameOf(s, c.category, t)
  {
    if cats != [] {
      ListingGamesExactly(cats[1..], t);
      CategoryGamesExactly(cats[0].category, cats[0].streams, t);
      assert cats == [cats[0]] + cats[1..];
    }
  }

  /** Every game built from a listing carries the one cache time. */
  lemma {:induction false} ListingGamesShareCacheTime(cats: seq<Category>, t: int)
    ensures forall g :: g in ListingGames(cats, t) ==> g.cacheTime == t
  {
    ListingGamesExactly(cats, t);
  }

  /**
    The stream repository's "ppvsu" slice: the cached games (at most one per
    id) and the time of the last full fetch.
  */
  class Catalog {
    var games: seq<Game>
    var lastFetch: Option<int>

    predicate Valid()
      reads this
    {
      UniqueIds(games)
    }

    constructor()
      ensures games == [] && lastFetch == None
      ensures Valid()
    {
      games := [];
      lastFetch := None;
    }

    /** `get_game`: the cached game with this id. */
    function Lookup(id: int): (r: Option<Game>)
      reads this
      ensures r.Some? ==> r.value in games && r.value.id == id
      ensures r.None? ==> forall g :: g in games ==> g.id != id
    {
      FindGame(games, id)
    }

    /** `store_game`: the game replaces the cached one with its id, or joins the cache. */
    method StoreGame(g: Game)
      requires Valid()
      modifies this
      ensures Valid()
      ensures games == Upsert(old(games), g)
      ensures lastFetch == old(lastFetch)
    {
      UpsertKeepsIds(games, g);
      games := Upsert(games, g);
    }

    /** `clear_cache`: no games and no last-fetch time. */
    method ClearCache()
      modifies this
      ensures Valid()
      ensures games == [] && lastFetch == None
    {
      games := [];
      lastFetch := None;
    }

    /** `set_last_fetch_time`. */
    method SetLastFetchTime(t: int)
      modifies this
      ensures games == old(games) && lastFetch == Some(t)
    {
      lastFetch := Some(t);
    }

    /**
      `fetch_and_cache_games` after the upstream stage: `api` is the parsed
      listing or the error the request, decompression or JSON stage gave,
      and `cacheTime` the clock reading. Each stream with an iframe becomes
      a game, is stored, and is returned in listing order.
    */
    method FetchAndCacheGames(api: Result<ApiResponse, Error>, cacheTime: int) returns (r: Result<seq<Game>, Error>)
      requires Valid()
      modifies this
      ensures Valid()
      ensures api.Err? ==> r == Err(api.error) && games == old(games)
      ensures api.Ok? && !api.value.success ==>
        r == Err(InternalServerErrorWithContext("ppvs.su API returned success=false")) && games == old(games)
      ensures api.Ok? && api.value.success ==>
        r == Ok(ListingGames(api.value.streams, cacheTime))
        && games == UpsertAll(old(games), ListingGames(api.value.streams, cacheTime))
      ensures lastFetch == old(lastFetch)
    {
      if api.Err? {
        return Err(api.error);
      }
      var response := api.value;
      if !response.success {
        return Err(InternalServerErrorWithContext("ppvs.su API returned success=false"));
      }
      var cats := response.streams;
      var result: seq<Game> := [];
      var i := 0;
      while i < |cats|
        invariant 0 <= i <= |cats|
        invariant Valid() && lastFetch == old(lastFetch)
        invariant result == ListingGames(cats[..i], cacheTime)
        invariant games == UpsertAll(old(games), result)
      {
        ListingGamesSnoc(cats[..i], cats[i], cacheTime);
        assert cats[..i + 1] == cats[..i] + [cats[i]];
        result := CacheCategory(cats[i], cacheTime, result, old(games));
        i := i + 1;
      }
      assert cats[..i] == cats;
      r := Ok(result);
    }

    /**
      The inner loop of `fetch_and_cache_games` over one category: each
      stream with an iframe becomes a game, is pushed and is stored.
    */
    method CacheCategory(category: Category, cacheTime: int, games0: seq<Game>, ghost base: seq<Game>)
      returns (result: seq<Game>)
      requires Valid() && games == UpsertAll(base, games0)
      modifies this
      ensures Valid() && lastFetch == old(lastFetch)
      ensures result == games0 + CategoryGames(category.category, category.streams, cacheTime)
      ensures games == UpsertAll(base, result)
    {
      result := games0;
      var j := 0;
      while j < |category.streams|
        invariant 0 <= j <= |category.streams|
        invariant Valid() && lastFetch == old(lastFetch)
        invariant result == games0 + CategoryGames(category.category, category.streams[..j], cacheTime)
        invariant games == UpsertAll(base, result)
      {
        var stream := category.streams[j];
        CategoryGamesPrefix(category.category, category.streams, j, games0, cacheTime);
        if stream.iframe.Some? {
          var game := GameOf(stream, category.category, cacheTime);
          result := PushGame(game, result, base);
        }
        j := j + 1;
      }
      assert category.streams[..j] == category.streams;
    }

    /** One listed game: pushed onto the result and stored. */
    method PushGame(game: Game, games0: seq<Game>, ghost base: seq<Game>) returns (result: seq<Game>)
      requires Valid() && games == UpsertAll(base, games0)
      modifies this
      ensures Valid() && lastFetch == old(lastFetch)
      ensures result == games0 + [game]
      ensures games == UpsertAll(base, result)
    {
      UpsertAllSnoc(base, games0, game);
      result := games0 + [game];
      StoreGame(game);
    }

    /**
      `get_games_with_refresh`, with `currentTime` its clock reading and
      `api`, `fetchTime` what the fetch would see. A fresh last fetch returns
      the cached games and fetches nothing; a stale or missing one clears the
      cache, fetches, and records `currentTime` as the last fetch.
    */
    method GetGamesWithRefresh(currentTime: int, api: Result<ApiResponse, Error>, fetchTime: int)
      returns (r: Result<seq<Game>, Error>)
      requires Valid()
      modifies this
      ensures Valid()
      ensures Fresh(old(lastFetch), currentTime) ==>
        r == Ok(old(games)) && games == old(games) && lastFetch == old(lastFetch)
      ensures !Fresh(old(lastFetch), currentTime) && r.Err? ==>
        games == [] && lastFetch == None && (r == FetchOutcome(api, fetchTime))
      ensures !Fresh(old(lastFetch), currentTime) && r.Ok? ==>
        r == FetchOutcome(api, fetchTime) && games == UpsertAll([], r.value) && lastFetch == Some(currentTime)
    {
      var cacheTime := lastFetch;
      if cacheTime.Some? && !IsCacheStale(cacheTime.value, currentTime) {
        return Ok(games);
      }
      ClearCache();
      r := FetchAndCacheGames(api, fetchTime);
      if r.Ok? {
        SetLastFetchTime(currentTime);
      }
    }

    /**
      `refetch_game` after the upstream stage: `detail` is the parsed
      response or the request or JSON error, `cacheTime` the clock reading.
    */
    method RefetchGame(detail: Result<DetailResponse, Error>, cacheTime: int) returns (r: Result<Game, Error>)
      requires Valid()
      modifies this
      ensures Valid() && lastFetch == old(lastFetch)
      ensures r == RefetchOutcome(detail, cacheTime)
      ensures r.Ok? ==> games == Upsert(old(games), r.value)
      ensures r.Err? ==> games == old(games)
    {
      if detail.Err? {
        return Err(detail.error);
      }
      if !detail.value.success {
        return Err(InternalServerErrorWithContext("ppvs.su API returned success=false"));
      }
      var data := detail.value.data;
      if data.sources == [] {
        return Err(NotFound("no sources found for stream"));
      }
      var game := Game(data.id, data.name, data.poster, data.startTimestamp, data.endTimestamp,
        cacheTime, data.sources[0], data.categoryName.GetOr("Unknown"));
      StoreGame(game);
      r := Ok(game);
    }

    /**
      `get_game_by_id`: the cached game when it is at most an hour old,
      which is exactly when `is_cache_stale` says it is not stale; otherwise
      a refetch, whose failure becomes `NotFound`.
    */
    method GetGameById(gameId: int, currentTime: int, detail: Result<DetailResponse, Error>, refetchTime: int)
      returns (r: Result<Game, Error>)
      requires Valid()
      modifies this
      ensures Valid() && lastFetch == old(lastFetch)
      ensures var cached := FindGame(old(games), gameId);
        cached.Some? && !IsCacheStale(cached.value.cacheTime, currentTime) ==>
          r == Ok(cached.value) && games == old(games)
      ensures var cached := FindGame(old(games), gameId);
        !(cached.Some? && !IsCacheStale(cached.value.cacheTime, currentTime)) ==>
          match RefetchOutcome(detail, refetchTime)
          case Ok(g) => r == Ok(g) && games == Upsert(old(games), g)
          case Err(_) => r == Err(NotFound("game " + ToDecimal(gameId) + " not found: ")) && games == old(games)
    {
      var cached := Lookup(gameId);
      if cached.Some? {
        var cacheAge := currentTime - cached.value.cacheTime;
        if cacheAge <= OneHour {
          return Ok(cached.value);
        }
      }
      var game := RefetchGame(detail, refetchTime);
      if game.Err? {
        return Err(NotFound("game " + ToDecimal(gameId) + " not found: "));
      }
      r := game;
    }
  }

  /** The last fetch is present and not stale. */
  predicate Fresh(lastFetch: Option<int>, currentTime: int) {
    lastFetch.Some? && !IsCacheStale(lastFetch.value, currentTime)
  }

  /** What `fetch_and_cache_games` returns for a given upstream outcome. */
  function FetchOutcome(api: Result<ApiResponse, Error>, cacheTime: int): Result<seq<Game>, Error> {
    match api
    case Err(e) => Err(e)
    case Ok(response) =>
      if !response.success then Err(InternalServerErrorWithContext("ppvs.su API returned success=false"))
      else Ok(ListingGames(response.streams, cacheTime))
  }

  /** What `refetch_game` returns for a given upstream outcome. */
  function RefetchOutcome(detail: Result<DetailResponse, Error>, cacheTime: int): Result<Game, Error> {
    match detail
    case Err(e) => Err(e)
    case Ok(response) =>
      if !response.success then Err(InternalServerErrorWithContext("ppvs.su API returned success=false"))
      else if response.data.sources == [] then Err(NotFound("no sources found for stream"))
      else
        var data := response.data;
        Ok(Game(data.id, data.name, data.poster, data.startTimestamp, data.endTimestamp,
          cacheTime, data.sources[0], data.categoryName.GetOr("Unknown")))
  }

  /** Index of the first game with this id. */
  function IndexOfId(games: seq<Game>, id: int): (r: Option<nat>)
    ensures r.Some? ==> r.value < |games| && games[r.value].id == id
    ensures r.Some? ==> forall i :: 0 <= i < r.value ==> games[i].id != id
    ensures r.None? ==> forall i :: 0 <= i < |games| ==> games[i].id != id
  {
    if games == [] then None
    else if games[0].id == id then Some(0)
    else
      var later := IndexOfId(games[1..], id);
      assert forall i :: 1 <= i < |games| ==> games[i] == games[1..][i - 1];
      match later
      case Some(k) => Some(k + 1)
      case None => None
  }

  /** The first game with this id. */
  function FindGame(games: seq<Game>, id: int): (r: Option<Game>)
    ensures r.Some? ==> r.value in games && r.value.id == id
    ensures r.None? ==> forall g :: g in games ==> g.id != id
  {
    match IndexOfId(games, id)
    case Some(k) => Some(games[k])
    case None => None
  }

  /** The cache after storing `g`: the game with its id replaced, or `g` appended. */
  function Upsert(games: seq<Game>, g: Game): seq<Game> {
    match IndexOfId(games, g.id)
    case Some(k) => games[k := g]
    case None => games + [g]
  }

  /** Storing `g` keeps every game with another id, and adds nothing but `g`. */
  lemma UpsertContents(games: seq<Game>, g: Game)
    ensures g in Upsert(games, g)
    ensures forall h :: h in Upsert(games, g) ==> h == g || h in games
    ensures forall h :: h in games && h.id != g.id ==> h in Upsert(games, g)
  {
    var r := Upsert(games, g);
    match IndexOfId(games, g.id)
    case Some(k) =>
      assert r[k] == g;
      forall h | h in games && h.id != g.id ensures h in r {
        var i :| 0 <= i < |games| && games[i] == h;
        assert r[i] == h;
      }
      forall h | h in r ensures h == g || h in games {
        var i :| 0 <= i < |r| && r[i] == h;
        if i != k {
          assert games[i] == h;
        }
      }
    case None =>
      assert r[|games|] == g;
  }

  function UpsertAll(games: seq<Game>, gs: seq<Game>): seq<Game>
    decreases |gs|
  {
    if gs == [] then games else Upsert(UpsertAll(games, gs[..|gs| - 1]), gs[|gs| - 1])
  }

  /** At most one cached game per id. */
  predicate UniqueIds(games: seq<Game>) {
    forall i, j :: 0 <= i < j < |games| ==> games[i].id != games[j].id
  }

  /** Storing a game keeps one game per id. */
  lemma UpsertKeepsIds(games: seq<Game>, g: Game)
    requires UniqueIds(games)
    ensures UniqueIds(Upsert(games, g))
  {
    var r := Upsert(games, g);
    match IndexOfId(games, g.id)
    case Some(k) =>
      assert forall i :: 0 <= i < |r| ==> r[i].id == games[i].id;
    case None =>
      assert forall i :: 0 <= i < |games| ==> r[i] == games[i];
  }

  /** After storing a game, looking its id up finds it. */
  lemma LookupAfterStore(games: seq<Game>, g: Game)
    ensures FindGame(Upsert(games, g), g.id) == Some(g)
  {
    var r := Upsert(games, g);
    match IndexOfId(games, g.id)
    case Some(k) =>
      assert r[k] == g;
      assert forall i :: 0 <= i < k ==> r[i] == games[i];
    case None =>
      assert r[|games|] == g;
      assert forall i :: 0 <= i < |games| ==> r[i] == games[i];
  }

  lemma UpsertAllSnoc(games: seq<Game>, gs: seq<Game>, g: Game)
    ensures UpsertAll(games, gs + [g]) == Upsert(UpsertAll(games, gs), g)
  {
    assert (gs + [g])[..|gs|] == gs;
  }

  lemma CategoryGamesSnoc(category: string, streams: seq<Stream>, s: Stream, t: int)
    ensures CategoryGames(category, streams + [s], t) ==
      CategoryGames(category, streams, t) + (if s.iframe.Some? then [GameOf(s, category, t)] else [])
  {
    if streams != [] {
      assert (streams + [s])[1..] == streams[1..] + [s];
      CategoryGamesSnoc(category, streams[1..], s, t);
    }
  }

  /** One more stream of a category: the games so far, then its game if it has an iframe. */
  lemma CategoryGamesPrefix(category: string, streams: seq<Stream>, j: nat, games0: seq<Game>, t: int)
    requires j < |streams|
    ensures var s := streams[j];
      games0 + CategoryGames(category, streams[..j + 1], t) ==
      games0 + CategoryGames(category, streams[..j], t) + (if s.iframe.Some? then [GameOf(s, category, t)] else [])
  {
    assert streams[..j + 1] == streams[..j] + [streams[j]];
    CategoryGamesSnoc(category, streams[..j], streams[j], t);
  }

  lemma ListingGamesSnoc(cats: seq<Category>, c: Category, t: int)
    ensures ListingGames(cats + [c], t) == ListingGames(cats, t) + CategoryGames(c.category, c.streams, t)
  {
    if cats != [] {
      assert (cats + [c])[1..] == cats[1..] + [c];
      ListingGamesSnoc(cats[1..], c, t);
    }
  }
}
