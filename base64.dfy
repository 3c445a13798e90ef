/**
  Base64 as the `base64` crate's `STANDARD` and `URL_SAFE` engines do it:
  padded output, and decoding in the canonical mode (padding required,
  trailing bits of the last symbol must be zero). Section 4 and 5 of RFC 4648.
*/
module Base64 {
  import opened Wrappers
  import opened Utf8
  import opened Text

  datatype Alphabet = Standard | UrlSafe

  /** The character for a 6-bit value. */
  function Symbol(a: Alphabet, v: nat): (c: char)
    requires v < 64
    ensures c != '='
  {
    if v < 26 then (65 + v) as char
    else if v < 52 then (97 + v - 26) as char
    else if v < 62 then (48 + v - 52) as char
    else if v == 62 then (if a == Standard then '+' else '-')
    else (if a == Standard then '/' else '_')
  }

  /** The 6-bit value of a character, if it belongs to the alphabet. */
  function Value(a: Alphabet, c: char): (r: Option<nat>)
    ensures r.Some? ==> r.value < 64 && Symbol(a, r.value) == c
  {
    if 'A' <= c <= 'Z' then Some(c as int - 65)
    else if 'a' <= c <= 'z' then Some(c as int - 97 + 26)
    else if '0' <= c <= '9' then Some(c as int - 48 + 52)
    else if c == (if a == Standard then '+' else '-') then Some(62)
    else if c == (if a == Standard then '/' else '_') then Some(63)
    else None
  }

  lemma ValueOfSymbol(a: Alphabet, v: nat)
    requires v < 64
    ensures Value(a, Symbol(a, v)) == Some(v)
  {
  }

  /** The four 6-bit values of three bytes. */
  function Sextets(b0: byte, b1: byte, b2: byte): (v: seq<nat>)
    ensures |v| == 4 && forall i :: 0 <= i < 4 ==> v[i] < 64
  {
    [b0 / 4, b0 % 4 * 16 + b1 / 16, b1 % 16 * 4 + b2 / 64, b2 % 64]
  }

  /** The three bytes four 6-bit values carry. */
  function Octets(v0: nat, v1: nat, v2: nat, v3: nat): seq<byte>
    requires v0 < 64 && v1 < 64 && v2 < 64 && v3 < 64
  {
    [v0 * 4 + v1 / 16, v1 % 16 * 16 + v2 / 4, v2 % 4 * 64 + v3]
  }

  lemma SplitJoin(hi: nat, lo: nat, m: nat)
    requires m == 4 || m == 16 || m == 64
    requires lo < m
    ensures (hi * m + lo) / m == hi && (hi * m + lo) % m == lo
  {
  }

  lemma OctetsOfSextets(b0: byte, b1: byte, b2: byte)
    ensures var v := Sextets(b0, b1, b2); Octets(v[0], v[1], v[2], v[3]) == [b0, b1, b2]
  {
    var v := Sextets(b0, b1, b2);
    assert v[1] / 16 == b0 % 4 && v[1] % 16 == b1 / 16 by { SplitJoin(b0 % 4, b1 / 16, 16); }
    assert v[2] / 4 == b1 % 16 && v[2] % 4 == b2 / 64 by { SplitJoin(b1 % 16, b2 / 64, 4); }
    assert v[0] * 4 + v[1] / 16 == b0;
    assert v[1] % 16 * 16 + v[2] / 4 == b1;
    assert v[2] % 4 * 64 + v[3] == b2;
  }

  lemma SextetsOfOctets(v0: nat, v1: nat, v2: nat, v3: nat)
    requires v0 < 64 && v1 < 64 && v2 < 64 && v3 < 64
    ensures var b := Octets(v0, v1, v2, v3); Sextets(b[0], b[1], b[2]) == [v0, v1, v2, v3]
  {
    var b := Octets(v0, v1, v2, v3);
    assert b[0] / 4 == v0 && b[0] % 4 == v1 / 16 by { SplitJoin(v0, v1 / 16, 4); }
    assert b[1] / 16 == v1 % 16 && b[1] % 16 == v2 / 4 by { SplitJoin(v1 % 16, v2 / 4, 16); }
    assert b[2] / 64 == v2 % 4 && b[2] % 64 == v3 by { SplitJoin(v2 % 4, v3, 64); }
    assert b[0] % 4 * 16 + b[1] / 16 == v1;
    assert b[1] % 16 * 4 + b[2] / 64 == v2;
  }

  /** Four symbols for three bytes. */
  function EncodeGroup(a: Alphabet, b0: byte, b1: byte, b2: byte): string {
    var v := Sextets(b0, b1, b2);
    [Symbol(a, v[0]), Symbol(a, v[1]), Symbol(a, v[2]), Symbol(a, v[3])]
  }

  /** The padded quantum for the last one or two bytes. */
  function EncodeTail(a: Alphabet, b: seq<byte>): string
    requires |b| < 3
  {
    if |b| == 0 then []
    else if |b| == 1 then
      var v := Sextets(b[0], 0, 0);
      [Symbol(a, v[0]), Symbol(a, v[1]), '=', '=']
    else
      var v := Sextets(b[0], b[1], 0);
      [Symbol(a, v[0]), Symbol(a, v[1]), Symbol(a, v[2]), '=']
  }

  /** `Engine::encode`. */
  function Encode(a: Alphabet, b: seq<byte>): (s: string)
    ensures |s| % 4 == 0 && (s == [] <==> b == [])
  {
    if |b| < 3 then EncodeTail(a, b) else EncodeGroup(a, b[0], b[1], b[2]) + Encode(a, b[3..])
  }

  /** A quantum that is not the last one: four symbols, no padding. */
  function DecodeGroup(a: Alphabet, q: string): Option<seq<byte>>
    requires |q| == 4
  {
    var v0, v1, v2, v3 := Value(a, q[0]), Value(a, q[1]), Value(a, q[2]), Value(a, q[3]);
    if v0.None? || v1.None? || v2.None? || v3.None? then None
    else Some(Octets(v0.value, v1.value, v2.value, v3.value))
  }

  /** The last quantum: optional padding, and the bits the padding cuts off must be zero. */
  function DecodeLast(a: Alphabet, q: string): Option<seq<byte>>
    requires |q| == 4
  {
    if q[2] == '=' && q[3] == '=' then
      var v0, v1 := Value(a, q[0]), Value(a, q[1]);
      if v0.None? || v1.None? || v1.value % 16 != 0 then None
      else Some(Octets(v0.value, v1.value, 0, 0)[..1])
    else if q[3] == '=' then
      var v0, v1, v2 := Value(a, q[0]), Value(a, q[1]), Value(a, q[2]);
      if v0.None? || v1.None? || v2.None? || v2.value % 4 != 0 then None
      else Some(Octets(v0.value, v1.value, v2.value, 0)[..2])
    else DecodeGroup(a, q)
  }

  /** `Engine::decode` in the canonical padding mode. */
  function Decode(a: Alphabet, s: string): Option<seq<byte>>
    decreases |s|
  {
    if s == [] then Some([])
    else if |s| < 4 then None
    else if |s| == 4 then DecodeLast(a, s)
    else match DecodeGroup(a, s[..4])
      case None => None
      case Some(g) =>
        match Decode(a, s[4..])
        case None => None
        case Some(r) => Some(g + r)
  }

  lemma DecodeEncodeGroup(a: Alphabet, b0: byte, b1: byte, b2: byte)
    ensures DecodeGroup(a, EncodeGroup(a, b0, b1, b2)) == Some([b0, b1, b2])
  {
    var v := Sextets(b0, b1, b2);
    ValueOfSymbol(a, v[0]);
    ValueOfSymbol(a, v[1]);
    ValueOfSymbol(a, v[2]);
    ValueOfSymbol(a, v[3]);
    OctetsOfSextets(b0, b1, b2);
  }

  lemma DecodeEncodeTail(a: Alphabet, b: seq<byte>)
    requires 0 < |b| < 3
    ensures DecodeLast(a, EncodeTail(a, b)) == Some(b)
  {
    if |b| == 1 {
      var v := Sextets(b[0], 0, 0);
      var q := EncodeTail(a, b);
      assert q == [Symbol(a, v[0]), Symbol(a, v[1]), '=', '='];
      ValueOfSymbol(a, v[0]);
      ValueOfSymbol(a, v[1]);
      OctetsOfSextets(b[0], 0, 0);
      assert v[1] % 16 == 0 && v[2] == 0 && v[3] == 0;
      assert DecodeLast(a, q) == Some(Octets(v[0], v[1], 0, 0)[..1]);
      assert Octets(v[0], v[1], 0, 0) == [b[0], 0, 0];
      assert [b[0], 0, 0][..1] == b;
    } else {
      var v := Sextets(b[0], b[1], 0);
      var q := EncodeTail(a, b);
      assert q == [Symbol(a, v[0]), Symbol(a, v[1]), Symbol(a, v[2]), '='];
      ValueOfSymbol(a, v[0]);
      ValueOfSymbol(a, v[1]);
      ValueOfSymbol(a, v[2]);
      OctetsOfSextets(b[0], b[1], 0);
      assert v[2] % 4 == 0 && v[3] == 0;
      assert DecodeLast(a, q) == Some(Octets(v[0], v[1], v[2], 0)[..2]);
      assert Octets(v[0], v[1], v[2], 0) == [b[0], b[1], 0];
      assert [b[0], b[1], 0][..2] == [b[0], b[1]];
      assert b == [b[0], b[1]];
    }
  }

  /** Decoding an encoding gives the bytes back. */
  lemma {:induction false} DecodeEncode(a: Alphabet, b: seq<byte>)
    ensures Decode(a, Encode(a, b)) == Some(b)
  {
    if |b| == 0 {
    } else if |b| < 3 {
      DecodeEncodeTail(a, b);
    } else {
      DecodeEncode(a, b[3..]);
      DecodeEncodeGroups(a, b);
    }
  }

  /** Decoding a full group followed by more quanta. */
  lemma DecodeCons(a: Alphabet, g: string, t: string)
    requires |g| == 4 && |t| >= 4 && DecodeGroup(a, g).Some? && Decode(a, t).Some?
    ensures Decode(a, g + t) == Some(DecodeGroup(a, g).value + Decode(a, t).value)
  {
    var s := g + t;
    assert s[..4] == g && s[4..] == t;
  }

  /** One more group in front: the step of `DecodeEncode` for three bytes or more. */
  lemma DecodeEncodeGroups(a: Alphabet, b: seq<byte>)
    requires |b| >= 3 && Decode(a, Encode(a, b[3..])) == Some(b[3..])
    ensures Decode(a, Encode(a, b)) == Some(b)
  {
    var g, t := EncodeGroup(a, b[0], b[1], b[2]), Encode(a, b[3..]);
    DecodeEncodeGroup(a, b[0], b[1], b[2]);
    assert b == [b[0], b[1], b[2]] + b[3..];
    if |b| == 3 {
      assert Encode(a, b) == g + [] == g;
      assert g[2] != '=' && g[3] != '=';
      assert Decode(a, g) == DecodeLast(a, g) == DecodeGroup(a, g);
      assert b == [b[0], b[1], b[2]];
    } else {
      assert Encode(a, b) == g + t;
      DecodeCons(a, g, t);
    }
  }

  lemma EncodeDecodeGroup(a: Alphabet, q: string)
    requires |q| == 4 && DecodeGroup(a, q).Some?
    ensures var g := DecodeGroup(a, q).value; |g| == 3 && EncodeGroup(a, g[0], g[1], g[2]) == q
  {
    var v0, v1, v2, v3 := Value(a, q[0]).value, Value(a, q[1]).value, Value(a, q[2]).value, Value(a, q[3]).value;
    SextetsOfOctets(v0, v1, v2, v3);
  }

  lemma EncodeDecodeLast(a: Alphabet, q: string)
    requires |q| == 4 && DecodeLast(a, q).Some?
    ensures var g := DecodeLast(a, q).value; 0 < |g| <= 3 && Encode(a, g) == q
  {
    var g := DecodeLast(a, q).value;
    if q[2] == '=' && q[3] == '=' {
      var v0, v1 := Value(a, q[0]).value, Value(a, q[1]).value;
      SextetsOfOctets(v0, v1, 0, 0);
      SplitJoin(v1 / 16, 0, 16);
    } else if q[3] == '=' {
      var v0, v1, v2 := Value(a, q[0]).value, Value(a, q[1]).value, Value(a, q[2]).value;
      SextetsOfOctets(v0, v1, v2, 0);
      SplitJoin(v2 / 4, 0, 4);
    } else {
      EncodeDecodeGroup(a, q);
      assert Encode(a, g) == EncodeGroup(a, g[0], g[1], g[2]) + Encode(a, g[3..]);
    }
  }

  /** Canonical decoding accepts only what encoding produces. */
  lemma {:induction false} EncodeDecode(a: Alphabet, s: string)
    requires Decode(a, s).Some?
    ensures Encode(a, Decode(a, s).value) == s
  {
    if |s| == 4 {
      EncodeDecodeLast(a, s);
    } else if |s| > 4 {
      var g := DecodeGroup(a, s[..4]).value;
      var r := Decode(a, s[4..]).value;
      EncodeDecodeGroup(a, s[..4]);
      EncodeDecode(a, s[4..]);
      assert r != [];
      var b := g + r;
      assert b[..3] == g && b[3..] == r;
      assert s == s[..4] + s[4..];
    }
  }

  /** Every character of an encoding is a symbol of the alphabet or '='. */
  lemma {:induction false} EncodeSymbols(a: Alphabet, b: seq<byte>)
    ensures forall i :: 0 <= i < |Encode(a, b)| ==> Encode(a, b)[i] == '=' || Value(a, Encode(a, b)[i]).Some?
  {
    var s := Encode(a, b);
    if |b| >= 3 {
      EncodeSymbols(a, b[3..]);
      var v := Sextets(b[0], b[1], b[2]);
      ValueOfSymbol(a, v[0]);
      ValueOfSymbol(a, v[1]);
      ValueOfSymbol(a, v[2]);
      ValueOfSymbol(a, v[3]);
      assert forall i :: 4 <= i < |s| ==> s[i] == Encode(a, b[3..])[i - 4];
    } else if |b| == 1 {
      var v := Sextets(b[0], 0, 0);
      ValueOfSymbol(a, v[0]);
      ValueOfSymbol(a, v[1]);
    } else if |b| == 2 {
      var v := Sextets(b[0], b[1], 0);
      ValueOfSymbol(a, v[0]);
      ValueOfSymbol(a, v[1]);
      ValueOfSymbol(a, v[2]);
    }
  }

  /** How many '=' end the encoding of `n` bytes. */
  function PadCount(n: nat): nat {
    if n % 3 == 0 then 0 else 3 - n % 3
  }

  /** The encoding is its symbols followed by `PadCount` '=' characters. */
  predicate PaddedShape(s: string, k: nat) {
    k <= 2 && k <= |s|
    && (forall i :: 0 <= i < |s| - k ==> s[i] != '=')
    && (forall i :: |s| - k <= i < |s| ==> s[i] == '=')
  }

  lemma ShapeAfterGroup(g: string, t: string, k: nat)
    requires |g| == 4 && '=' !in g && PaddedShape(t, k)
    ensures PaddedShape(g + t, k)
  {
    var s := g + t;
    forall i | 0 <= i < |s| - k ensures s[i] != '=' {
      if i >= 4 { assert s[i] == t[i - 4]; }
    }
    forall i | |s| - k <= i < |s| ensures s[i] == '=' {
      assert s[i] == t[i - 4];
    }
  }

  lemma {:induction false} EncodeShape(a: Alphabet, b: seq<byte>)
    ensures PaddedShape(Encode(a, b), PadCount(|b|))
  {
    if |b| >= 3 {
      EncodeShape(a, b[3..]);
      var g := EncodeGroup(a, b[0], b[1], b[2]);
      GroupUnpadded(a, b[0], b[1], b[2]);
      assert Encode(a, b) == g + Encode(a, b[3..]);
      assert PadCount(|b|) == PadCount(|b[3..]|);
      ShapeAfterGroup(g, Encode(a, b[3..]), PadCount(|b|));
    } else {
      TailShape(a, b);
    }
  }

  lemma GroupUnpadded(a: Alphabet, b0: byte, b1: byte, b2: byte)
    ensures '=' !in EncodeGroup(a, b0, b1, b2)
  {
  }

  lemma TailShape(a: Alphabet, b: seq<byte>)
    requires |b| < 3
    ensures PaddedShape(Encode(a, b), PadCount(|b|))
  {
    var s := Encode(a, b);
    assert s == EncodeTail(a, b);
    if |b| == 1 {
      assert PadCount(1) == 2;
      assert s[0] != '=' && s[1] != '=';
    } else if |b| == 2 {
      assert PadCount(2) == 1;
      assert s[0] != '=' && s[1] != '=' && s[2] != '=';
    }
  }

  /** `s` followed by as many '=' as make its length a multiple of four. */
  function Padded(s: string): (r: string)
    ensures |r| % 4 == 0 && s <= r && |r| - |s| < 4
    ensures forall i :: |s| <= i < |r| ==> r[i] == '='
  {
    s + seq((4 - |s| % 4) % 4, _ => '=')
  }

  /**
    Dropping the trailing '=' of an encoding and padding it again restores it,
    so the unpadded form loses nothing.
  */
  lemma PadLength(n: nat, k: nat)
    requires n % 4 == 0 && k <= 2 && k <= n
    ensures (4 - (n - k) % 4) % 4 == k
  {
  }

  lemma RepadUnpadded(a: Alphabet, b: seq<byte>)
    ensures Padded(TrimEndMatches(Encode(a, b), '=')) == Encode(a, b)
  {
    EncodeShape(a, b);
    RepadShape(Encode(a, b), PadCount(|b|));
  }

  /** A text of whole quanta ending in `k` '=' and no other '=' is restored by re-padding. */
  lemma RepadShape(e: string, k: nat)
    requires |e| % 4 == 0 && PaddedShape(e, k)
    ensures Padded(TrimEndMatches(e, '=')) == e
  {
    TrimmedShape(e, k);
    PaddedPrefix(e, k);
  }

  /** Trimming the '=' of a padded shape leaves the symbols. */
  lemma TrimmedShape(e: string, k: nat)
    requires PaddedShape(e, k)
    ensures TrimEndMatches(e, '=') == e[..|e| - k]
  {
    var u, v := e[..|e| - k], e[|e| - k..];
    assert e == u + v;
    assert u == [] || u[|u| - 1] != '=';
    assert forall i :: 0 <= i < |v| ==> v[i] == e[|e| - k + i];
    TrimEndMatchesOf(u, v, '=');
  }

  /** Padding the symbols of whole quanta gives back the '=' that followed them. */
  lemma PaddedPrefix(e: string, k: nat)
    requires |e| % 4 == 0 && k <= 2 && k <= |e|
    requires forall i :: |e| - k <= i < |e| ==> e[i] == '='
    ensures Padded(e[..|e| - k]) == e
  {
    var u, v := e[..|e| - k], e[|e| - k..];
    assert e == u + v;
    PadLength(|e|, k);
    var pad := seq(k, _ => '=');
    assert v == pad;
    assert Padded(u) == u + pad;
  }
}
