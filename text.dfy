/**
  The `str` operations the proxy relies on, with Rust's semantics: `trim`
  (Unicode White_Space), `find`, `split`, `split_once`, `lines`, `join`,
  integer `Display` and `from_str`, and lower-case hexadecimal.
*/
module Text {
  import opened Wrappers
  import opened Utf8

  /** `char::is_whitespace`: the Unicode White_Space property. */
  predicate IsWhitespace(c: char) {
    var n := c as int;
    (0x09 <= n <= 0x0D) || n == 0x20 || n == 0x85 || n == 0xA0 || n == 0x1680
    || (0x2000 <= n <= 0x200A) || n == 0x2028 || n == 0x2029 || n == 0x202F
    || n == 0x205F || n == 0x3000
  }

  function TrimStart(s: string): (r: string)
    ensures |r| <= |s| && r == s[|s| - |r|..]
    ensures r == [] || !IsWhitespace(r[0])
    ensures forall i :: 0 <= i < |s| - |r| ==> IsWhitespace(s[i])
  {
    if s == [] || !IsWhitespace(s[0]) then s else TrimStart(s[1..])
  }

  function TrimEnd(s: string): (r: string)
    ensures |r| <= |s| && r == s[..|r|]
    ensures r == [] || !IsWhitespace(r[|r| - 1])
    ensures forall i :: |r| <= i < |s| ==> IsWhitespace(s[i])
  {
    if s == [] || !IsWhitespace(s[|s| - 1]) then s else TrimEnd(s[..|s| - 1])
  }

  /** `str::trim_end_matches(c)`. */
  function TrimEndMatches(s: string, c: char): (r: string)
    ensures |r| <= |s| && r == s[..|r|]
    ensures r == [] || r[|r| - 1] != c
    ensures forall i :: |r| <= i < |s| ==> s[i] == c
  {
    if s == [] || s[|s| - 1] != c then s else TrimEndMatches(s[..|s| - 1], c)
  }

  /** Trimming removes exactly a run of `c` that follows a part not ending in `c`. */
  lemma {:induction false} TrimEndMatchesOf(u: string, v: string, c: char)
    requires u == [] || u[|u| - 1] != c
    requires forall i :: 0 <= i < |v| ==> v[i] == c
    ensures TrimEndMatches(u + v, c) == u
    decreases |v|
  {
    if v == [] {
      assert u + v == u;
    } else {
      var s := u + v;
      assert s[..|s| - 1] == u + v[..|v| - 1];
      TrimEndMatchesOf(u, v[..|v| - 1], c);
    }
  }

  /** `str::trim`: no whitespace is left at either end. */
  /**
    `r` is `s` with `k` characters cut at the front and the rest after `r`
    cut at the back, and everything cut is whitespace.
  */
  predicate TrimmedAt(s: string, r: string, k: int) {
    0 <= k && k + |r| <= |s| && r == s[k..k + |r|]
    && (forall i :: 0 <= i < k ==> IsWhitespace(s[i]))
    && (forall i :: k + |r| <= i < |s| ==> IsWhitespace(s[i]))
  }

  /**
    `str::trim`: the slice left after cutting whitespace at both ends; it
    neither starts nor ends with whitespace, and only whitespace is cut.
  */
  function Trim(s: string): (r: string)
    ensures r == [] || (!IsWhitespace(r[0]) && !IsWhitespace(r[|r| - 1]))
    ensures exists k :: TrimmedAt(s, r, k)
  {
    var e := TrimEnd(s);
    var t := TrimStart(e);
    assert t != [] ==> t[|t| - 1] == e[|e| - 1];
    assert TrimmedAt(s, t, |e| - |t|) by {
      assert t == e[|e| - |t|..];
      assert e == s[..|e|];
    }
    t
  }

  /** How many characters `trim` drops at the front. */
  function TrimStartCount(s: string): nat {
    |TrimEnd(s)| - |Trim(s)|
  }

  /** `trim` cuts a slice out of its input. */
  lemma TrimIsSlice(s: string)
    ensures TrimStartCount(s) + |Trim(s)| <= |s|
    ensures Trim(s) == s[TrimStartCount(s)..TrimStartCount(s) + |Trim(s)|]
    ensures TrimmedAt(s, Trim(s), TrimStartCount(s))
  {
    var e := TrimEnd(s);
    var t := TrimStart(e);
    assert t == e[|e| - |t|..];
    assert e == s[..|e|];
  }

  /** `p` occurs in `s` at index `j`. */
  predicate OccursAt(s: string, p: string, j: int) {
    0 <= j && j + |p| <= |s| && s[j..j + |p|] == p
  }

  lemma SliceOfTail(s: string, j: nat, n: nat)
    requires 1 <= j && j + n <= |s|
    ensures s[j..j + n] == s[1..][j - 1..j - 1 + n]
  {
    var x, y := s[j..j + n], s[1..][j - 1..j - 1 + n];
    assert |x| == |y|;
    forall k | 0 <= k < n ensures x[k] == y[k] {
      assert x[k] == s[j + k];
      assert y[k] == s[1..][j - 1 + k];
    }
  }

  /** Index of the first occurrence of `p` in `s` (`str::find`). */
  function Find(s: string, p: string): (r: Option<nat>)
    ensures r.Some? ==> OccursAt(s, p, r.value)
    ensures r.Some? ==> forall j :: 0 <= j < r.value ==> !OccursAt(s, p, j)
    ensures r.None? ==> forall j :: !OccursAt(s, p, j)
    decreases |s|
  {
    if |s| < |p| then None
    else if s[..|p|] == p then Some(0)
    else
      var r := Find(s[1..], p);
      forall j | 1 <= j ensures OccursAt(s, p, j) == OccursAt(s[1..], p, j - 1) {
        if j + |p| <= |s| {
          SliceOfTail(s, j, |p|);
        }
      }
      match r
      case None => None
      case Some(i) => Some(i + 1)
  }

  /** `str::contains`. */
  predicate Contains(s: string, p: string) {
    Find(s, p).Some?
  }

  /** A pattern holding a character the text lacks does not occur in it. */
  lemma AbsentCharNotContained(s: string, p: string, k: nat)
    requires k < |p| && p[k] !in s
    ensures !Contains(s, p)
  {
  }

  /** Index of the first `c` in `s`. */
  function IndexOf(s: string, c: char): (r: Option<nat>)
    ensures r.Some? ==> r.value < |s| && s[r.value] == c && c !in s[..r.value]
    ensures r.None? ==> c !in s
  {
    if s == [] then None
    else if s[0] == c then Some(0)
    else match IndexOf(s[1..], c)
      case None => None
      case Some(i) => assert s[..i + 1] == [s[0]] + s[1..][..i]; Some(i + 1)
  }

  /** Index of the last `c` in `s` (`str::rfind`). */
  function LastIndexOf(s: string, c: char): (r: Option<nat>)
    ensures r.Some? ==> r.value < |s| && s[r.value] == c && c !in s[r.value + 1..]
    ensures r.None? ==> c !in s
  {
    if s == [] then None
    else if s[|s| - 1] == c then Some(|s| - 1)
    else match LastIndexOf(s[..|s| - 1], c)
      case None => None
      case Some(i) =>
        assert s[i + 1..] == s[..|s| - 1][i + 1..] + [s[|s| - 1]];
        Some(i)
  }

  /** The first piece of `s.split(c)`: everything before the first `c`. */
  function BeforeFirst(s: string, c: char): (r: string)
    ensures r <= s && c !in r
    ensures |r| < |s| ==> s[|r|] == c
  {
    match IndexOf(s, c)
    case None => s
    case Some(i) => s[..i]
  }

  /** `str::split_once(c)`. */
  function SplitOnce(s: string, c: char): (r: Option<(string, string)>)
    ensures r.None? <==> c !in s
    ensures r.Some? ==> c !in r.value.0 && s == r.value.0 + [c] + r.value.1
  {
    match IndexOf(s, c)
    case None => None
    case Some(i) =>
      assert s == s[..i] + [c] + s[i + 1..];
      Some((s[..i], s[i + 1..]))
  }

  /** `str::split(c)`: the pieces between the occurrences of `c`; never empty. */
  function Split(s: string, c: char): (r: seq<string>)
    ensures |r| >= 1 && r[0] == BeforeFirst(s, c)
    ensures forall k :: 0 <= k < |r| ==> c !in r[k]
    decreases |s|
  {
    match IndexOf(s, c)
    case None => [s]
    case Some(i) => [s[..i]] + Split(s[i + 1..], c)
  }

  /** Without a separator there is one piece, the whole string. */
  lemma SplitWithout(s: string, c: char)
    requires c !in s
    ensures Split(s, c) == [s]
  {
  }

  /** Splitting at the first separator peels off the piece before it. */
  lemma SplitCons(a: string, b: string, c: char)
    requires c !in a
    ensures Split(a + [c] + b, c) == [a] + Split(b, c)
  {
    var s := a + [c] + b;
    var i := IndexOf(s, c);
    assert s[|a|] == c;
    assert i.Some? && i.value == |a|;
    assert s[..|a|] == a;
    assert s[|a| + 1..] == b;
  }

  /** `str::split(sep)` for a non-empty separator string. */
  function SplitStr(s: string, sep: string): (r: seq<string>)
    requires |sep| > 0
    ensures |r| >= 1
    decreases |s|
  {
    match Find(s, sep)
    case None => [s]
    case Some(i) => [s[..i]] + SplitStr(s[i + |sep|..], sep)
  }

  /** A separator whose first character the text before it lacks is first found right after that text. */
  lemma FindAfter(a: string, sep: string, rest: string)
    requires |sep| > 0 && sep[0] !in a
    ensures Find(a + sep + rest, sep) == Some(|a|)
  {
    var s := a + sep + rest;
    assert s[|a|..|a| + |sep|] == sep;
    assert OccursAt(s, sep, |a|);
  }

  /** Text lacking the separator's first character does not contain it. */
  lemma FindNone(a: string, sep: string)
    requires |sep| > 0 && sep[0] !in a
    ensures Find(a, sep) == None
  {
    forall j | 0 <= j && j + |sep| <= |a|
      ensures !OccursAt(a, sep, j)
    {
      assert a[j..j + |sep|][0] == a[j];
    }
  }

  /** Splitting at the first separator peels off the piece before it. */
  lemma SplitStrCons(a: string, sep: string, b: string)
    requires |sep| > 0 && sep[0] !in a
    ensures SplitStr(a + sep + b, sep) == [a] + SplitStr(b, sep)
  {
    FindAfter(a, sep, b);
    var s := a + sep + b;
    assert s[..|a|] == a;
    assert s[|a| + |sep|..] == b;
  }

  /** Splitting at a separator whose first character the pieces avoid undoes joining them with it. */
  lemma {:induction false} SplitStrJoin(parts: seq<string>, sep: string)
    requires |parts| >= 1 && |sep| > 0
    requires forall k :: 0 <= k < |parts| ==> sep[0] !in parts[k]
    ensures SplitStr(Join(parts, sep), sep) == parts
  {
    if |parts| == 1 {
      FindNone(parts[0], sep);
    } else {
      SplitStrJoin(parts[1..], sep);
      SplitStrCons(parts[0], sep, Join(parts[1..], sep));
      assert parts == [parts[0]] + parts[1..];
    }
  }

  function StripCarriageReturn(line: string): string {
    if |line| > 0 && line[|line| - 1] == '\r' then line[..|line| - 1] else line
  }

  /**
    `str::lines`: split after every '\n', drop that '\n' and a '\r' just before it;
    a final empty line after a trailing '\n' is not produced.
  */
  function Lines(s: string): (r: seq<string>)
    ensures s == [] <==> r == []
    ensures forall k :: 0 <= k < |r| ==> '\n' !in r[k]
    decreases |s|
  {
    if s == [] then []
    else match IndexOf(s, '\n')
      case None => [s]
      case Some(i) => [StripCarriageReturn(s[..i])] + Lines(s[i + 1..])
  }

  /**
    `str::lines` read off `split('\n')`: every piece but the last had a '\n'
    after it and loses a '\r' it ends with; the last piece is kept as it is,
    unless it is empty.
  */
  function LinesOfPieces(parts: seq<string>): seq<string>
    requires |parts| >= 1
  {
    var n := |parts|;
    seq(n - 1, i requires 0 <= i < n - 1 => StripCarriageReturn(parts[i]))
    + (if parts[n - 1] == [] then [] else [parts[n - 1]])
  }

  /** The lines are the '\n'-separated pieces, '\r' cut before each '\n', without a final empty piece. */
  lemma {:induction false} LinesAsSplit(s: string)
    ensures Lines(s) == LinesOfPieces(Split(s, '\n'))
    decreases |s|
  {
    match IndexOf(s, '\n')
    case None =>
      SplitWithout(s, '\n');
    case Some(i) =>
      var rest := s[i + 1..];
      assert s == s[..i] + ['\n'] + rest;
      SplitCons(s[..i], rest, '\n');
      LinesAsSplit(rest);
      LinesOfPiecesCons(s[..i], Split(rest, '\n'));
  }

  lemma LinesOfPiecesCons(a: string, parts: seq<string>)
    requires |parts| >= 1
    ensures LinesOfPieces([a] + parts) == [StripCarriageReturn(a)] + LinesOfPieces(parts)
  {
    var whole := [a] + parts;
    var n := |parts|;
    var front := seq(n, i requires 0 <= i < n => StripCarriageReturn(whole[i]));
    var tail := seq(n - 1, i requires 0 <= i < n - 1 => StripCarriageReturn(parts[i]));
    assert front == [StripCarriageReturn(a)] + tail;
    assert whole[n] == parts[n - 1];
  }

  /**
    `lines` undoes joining with "\n" lines that hold no '\n', do not end in
    '\r' before a separator, and do not end with an empty line.
  */
  lemma {:induction false} LinesOfJoin(lines: seq<string>)
    requires forall k :: 0 <= k < |lines| ==> '\n' !in lines[k]
    requires forall k :: 0 <= k < |lines| - 1 ==> StripCarriageReturn(lines[k]) == lines[k]
    requires lines == [] || lines[|lines| - 1] != []
    ensures Lines(Join(lines, "\n")) == lines
  {
    if |lines| == 1 {
      assert IndexOf(lines[0], '\n').None?;
    } else if |lines| > 1 {
      var rest := Join(lines[1..], "\n");
      var s := lines[0] + "\n" + rest;
      assert s[|lines[0]|] == '\n';
      assert '\n' !in s[..|lines[0]|] by {
        assert s[..|lines[0]|] == lines[0];
      }
      IndexOfFirst(s, '\n', |lines[0]|);
      assert s[..|lines[0]|] == lines[0];
      assert s[|lines[0]| + 1..] == rest;
      LinesOfJoin(lines[1..]);
      assert lines == [lines[0]] + lines[1..];
    }
  }

  /** The first occurrence is where `IndexOf` finds it. */
  lemma IndexOfFirst(s: string, c: char, i: nat)
    requires i < |s| && s[i] == c && c !in s[..i]
    ensures IndexOf(s, c) == Some(i)
  {
  }

  /** `[String]::join(sep)`. */
  function Join(parts: seq<string>, sep: string): string {
    if |parts| == 0 then []
    else if |parts| == 1 then parts[0]
    else parts[0] + sep + Join(parts[1..], sep)
  }

  /** Splitting at a separator the pieces avoid undoes joining them with it. */
  lemma {:induction false} SplitJoin(parts: seq<string>, c: char)
    requires |parts| >= 1
    requires forall k :: 0 <= k < |parts| ==> c !in parts[k]
    ensures Split(Join(parts, [c]), c) == parts
  {
    if |parts| == 1 {
      SplitWithout(parts[0], c);
    } else {
      SplitJoin(parts[1..], c);
      SplitCons(parts[0], Join(parts[1..], [c]), c);
      assert parts == [parts[0]] + parts[1..];
    }
  }

  // ---- decimal numbers ----

  const I64Min: int := -0x8000_0000_0000_0000
  const I64Max: int := 0x7FFF_FFFF_FFFF_FFFF
  const U64Max: int := 0xFFFF_FFFF_FFFF_FFFF

  predicate IsI64(n: int) {
    I64Min <= n <= I64Max
  }

  predicate IsDigit(c: char) {
    '0' <= c <= '9'
  }

  predicate AllDigits(s: string) {
    forall i :: 0 <= i < |s| ==> IsDigit(s[i])
  }

  function DigitChar(d: nat): char
    requires d < 10
  {
    (48 + d) as char
  }

  /** Decimal digits of a natural number, most significant first, no leading zeros. */
  function NatToDecimal(n: nat): (r: string)
    ensures |r| > 0 && AllDigits(r)
  {
    if n < 10 then [DigitChar(n)] else NatToDecimal(n / 10) + [DigitChar(n % 10)]
  }

  /** `i64`'s `Display`. */
  function ToDecimal(n: int): (r: string)
    ensures |r| > 0 && (IsDigit(r[0]) || r[0] == '-')
    ensures forall i :: 0 < i < |r| ==> IsDigit(r[i])
  {
    if n < 0 then "-" + NatToDecimal(-n) else NatToDecimal(n)
  }

  /** The value of a string of decimal digits. */
  function DigitsValue(s: string): nat
    requires AllDigits(s)
  {
    if s == [] then 0 else DigitsValue(s[..|s| - 1]) * 10 + (s[|s| - 1] as int - 48)
  }

  /** `str::parse::<i64>`: an optional sign, at least one ASCII digit, no overflow. */
  function ParseI64(s: string): (r: Option<int>)
    ensures r.Some? ==> IsI64(r.value)
  {
    if |s| > 0 && (s[0] == '+' || s[0] == '-') then
      var digits := s[1..];
      if digits == [] || !AllDigits(digits) then None
      else
        var v: int := if s[0] == '-' then -(DigitsValue(digits) as int) else DigitsValue(digits);
        if IsI64(v) then Some(v) else None
    else if s == [] || !AllDigits(s) then None
    else if IsI64(DigitsValue(s)) then Some(DigitsValue(s)) else None
  }

  /** `str::parse::<usize>` on a 64-bit target: an optional '+', at least one ASCII digit, no overflow. */
  function ParseUsize(s: string): (r: Option<nat>)
    ensures r.Some? ==> r.value <= U64Max
  {
    var digits := if |s| > 0 && s[0] == '+' then s[1..] else s;
    if digits == [] || !AllDigits(digits) then None
    else if DigitsValue(digits) <= U64Max then Some(DigitsValue(digits)) else None
  }

  lemma {:induction false} DigitsOfDecimal(n: nat)
    ensures DigitsValue(NatToDecimal(n)) == n
  {
    if n >= 10 {
      DigitsOfDecimal(n / 10);
      var r := NatToDecimal(n);
      assert r[..|r| - 1] == NatToDecimal(n / 10);
    }
  }

  /** A `usize` parses back from its decimal digits. */
  lemma ParseUsizeOfDecimal(n: nat)
    requires n <= U64Max
    ensures ParseUsize(NatToDecimal(n)) == Some(n)
  {
    DigitsOfDecimal(n);
    assert IsDigit(NatToDecimal(n)[0]);
  }

  /** Parsing what `Display` printed gives the number back. */
  lemma ParseI64OfDecimal(n: int)
    requires IsI64(n)
    ensures ParseI64(ToDecimal(n)) == Some(n)
  {
    if n < 0 {
      var d := NatToDecimal(-n);
      DigitsOfDecimal(-n);
      assert ToDecimal(n) == "-" + d;
      assert ("-" + d)[1..] == d;
    } else {
      var d := NatToDecimal(n);
      DigitsOfDecimal(n);
      assert IsDigit(d[0]);
    }
  }

  // ---- hexadecimal ----

  function HexDigit(v: nat): (c: char)
    requires v < 16
    ensures IsAscii([c]) && IsLowerHexDigit(c)
  {
    if v < 10 then (48 + v) as char else (97 + v - 10) as char
  }

  predicate IsLowerHexDigit(c: char) {
    '0' <= c <= '9' || 'a' <= c <= 'f'
  }

  predicate IsLowerHex(s: string) {
    forall i :: 0 <= i < |s| ==> IsLowerHexDigit(s[i])
  }

  /** `hex::encode`: two lower-case digits per byte. */
  function HexEncode(b: seq<byte>): (r: string)
    ensures |r| == 2 * |b| && IsLowerHex(r)
  {
    if b == [] then [] else [HexDigit(b[0] / 16), HexDigit(b[0] % 16)] + HexEncode(b[1..])
  }

  /** `format!("{:x}", n)`: lower-case hexadecimal without leading zeros. */
  function NatToHex(n: nat): (r: string)
    ensures |r| > 0 && IsLowerHex(r)
  {
    if n < 16 then [HexDigit(n)] else NatToHex(n / 16) + [HexDigit(n % 16)]
  }

  /** The number a lower-case hexadecimal string stands for, most significant digit first. */
  function LowerHexValue(s: string): nat
    requires IsLowerHex(s)
  {
    if s == [] then 0
    else
      var c := s[|s| - 1];
      LowerHexValue(s[..|s| - 1]) * 16 + (if c <= '9' then c as int - 48 else c as int - 97 + 10)
  }

  /** `{:x}` loses nothing: the digits it prints stand for the number printed. */
  lemma {:induction false} LowerHexValueOfNatToHex(n: nat)
    ensures LowerHexValue(NatToHex(n)) == n
  {
    if n >= 16 {
      var h := NatToHex(n);
      assert h[..|h| - 1] == NatToHex(n / 16);
      LowerHexValueOfNatToHex(n / 16);
    }
  }

  lemma LowerHexIsAscii(s: string)
    requires IsLowerHex(s)
    ensures IsAscii(s)
  {
    forall i | 0 <= i < |s| ensures s[i] as int < 0x80 {
      assert IsLowerHexDigit(s[i]);
    }
  }

  /** `hex::encode` loses nothing. */
  lemma {:induction false} HexEncodeInjective(a: seq<byte>, b: seq<byte>)
    requires HexEncode(a) == HexEncode(b)
    ensures a == b
  {
    if a != [] {
      var ha, hb := HexEncode(a), HexEncode(b);
      assert ha[0] == hb[0] && ha[1] == hb[1];
      assert a[0] / 16 == b[0] / 16 && a[0] % 16 == b[0] % 16;
      assert ha[2..] == HexEncode(a[1..]) && hb[2..] == HexEncode(b[1..]);
      HexEncodeInjective(a[1..], b[1..]);
      assert a == [a[0]] + a[1..] && b == [b[0]] + b[1..];
    }
  }
}
