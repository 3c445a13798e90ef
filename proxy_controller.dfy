/**
  The proxy endpoint: decoding the `url` parameter, choosing the response
  encoding, classifying the upstream body as a playlist or a segment,
  serving byte ranges, building the response headers, and rewriting HLS
  playlists (RFC 8216) so that every URI goes back through the proxy with a
  signed query.
*/
module ProxyController {
  import opened Wrappers
  import opened Utf8
  import opened Text
  import Base64
  import PercentEncoding
  import opened SignatureUtils
  import opened Errors
  import opened EdgeAuthentication

  // ---- response encoding ----

  /** `ContentEncoding`; the source's `None` variant is `Uncompressed` here. */
  datatype ContentEncoding = Zstd | Gzip | Uncompressed

  /** The client asks for the identity encoding only. */
  predicate IdentityOnly(v: string) {
    v == "identity" || "identity," <= v
  }

  /** `from_accept_encoding`: zstd before gzip, nothing for identity-only or an absent header. */
  function FromAcceptEncoding(acceptEncoding: Option<string>): (e: ContentEncoding)
    ensures e == Zstd <==>
      acceptEncoding.Some? && !IdentityOnly(acceptEncoding.value) && Contains(acceptEncoding.value, "zstd")
    ensures e == Gzip <==>
      (acceptEncoding.Some? && !IdentityOnly(acceptEncoding.value)
       && !Contains(acceptEncoding.value, "zstd") && Contains(acceptEncoding.value, "gzip"))
  {
    match acceptEncoding
    case None => Uncompressed
    case Some(v) =>
      if IdentityOnly(v) then Uncompressed
      else if Contains(v, "zstd") then Zstd
      else if Contains(v, "gzip") then Gzip
      else Uncompressed
  }

  /** `as_header_value`: the `Content-Encoding` value, none for an uncompressed body. */
  function AsHeaderValue(e: ContentEncoding): (v: Option<string>)
    ensures v.None? <==> e == Uncompressed
    ensures v.Some? ==> FromAcceptEncoding(v) == e
  {
    match e
    case Zstd =>
      assert OccursAt("zstd", "zstd", 0);
      Some("zstd")
    case Gzip =>
      assert OccursAt("gzip", "gzip", 0);
      Some("gzip")
    case Uncompressed => None
  }

  /** zstd (level 3) or gzip (default level) compression; None for an I/O error. */
  type Compressor = (ContentEncoding, seq<byte>) -> Option<seq<byte>>

  /** `compress`: the identity for `Uncompressed`, the compressor otherwise. */
  function Compress(e: ContentEncoding, data: seq<byte>, compressor: Compressor): (r: Option<seq<byte>>)
    ensures e == Uncompressed ==> r == Some(data)
  {
    if e == Uncompressed then Some(data) else compressor(e, data)
  }

  // ---- the url parameter ----

  predicate IsHttpUrl(s: string) {
    "http://" <= s || "https://" <= s
  }

  /** The parameter followed by '=' up to a multiple of four bytes. */
  function PadToQuantum(s: string): (r: string)
    ensures s <= r && |r| - |s| <= 3
    ensures forall i :: |s| <= i < |r| ==> r[i] == '='
    ensures |Utf8.Encode(r)| % 4 == 0
  {
    var k := (4 - |Utf8.Encode(s)| % 4) % 4;
    var pad := seq(k, _ => '=');
    EncodeAppend(s, pad);
    EqualsEncoding(pad);
    s + pad
  }

  lemma {:induction false} EqualsEncoding(pad: string)
    requires forall i :: 0 <= i < |pad| ==> pad[i] == '='
    ensures |Utf8.Encode(pad)| == |pad|
  {
    if pad != [] {
      EqualsEncoding(pad[1..]);
    }
  }

  /** The `while` loop of `decode_url`: push '=' until the byte length is a multiple of four. */
  method PadWithEquals(s: string) returns (padded: string)
    ensures padded == PadToQuantum(s)
  {
    padded := s;
    ghost var n := |Utf8.Encode(s)|;
    ghost var k := (4 - n % 4) % 4;
    while |Utf8.Encode(padded)| % 4 != 0
      invariant |s| <= |padded| <= |s| + k
      invariant padded == s + seq(|padded| - |s|, _ => '=')
      invariant |Utf8.Encode(padded)| == n + (|padded| - |s|)
      decreases k - (|padded| - |s|)
    {
      PadCountExact(n, |padded| - |s|);
      EncodeAppend(padded, "=");
      padded := padded + "=";
    }
    PadCountExact(n, |padded| - |s|);
  }

  /** Of the counts up to the padding count, only the padding count reaches a multiple of four. */
  lemma PadCountExact(n: nat, m: nat)
    requires m <= (4 - n % 4) % 4
    ensures (n + m) % 4 == 0 <==> m == (4 - n % 4) % 4
  {
  }


  /**
    `decode_url`: an http(s) parameter is percent-decoded; anything else is
    unpadded base64url of UTF-8. Every failure is the same bad request.
  */
  function DecodedUrl(urlParam: string): (r: Result<string, Error>)
    ensures r.Err? ==> r.error == BadRequest("Invalid URL encoding")
    ensures IsHttpUrl(urlParam) ==> (r.Ok? <==> PercentEncoding.Decode(urlParam).Some?)
    ensures IsHttpUrl(urlParam) && r.Ok? ==> PercentEncoding.Decode(urlParam) == Some(r.value)
    ensures !IsHttpUrl(urlParam) ==>
      (r.Ok? <==> Base64.Decode(Base64.UrlSafe, PadToQuantum(urlParam)).Some?
                  && Utf8.Decode(Base64.Decode(Base64.UrlSafe, PadToQuantum(urlParam)).value).Some?)
    ensures !IsHttpUrl(urlParam) && r.Ok? ==>
      Utf8.Decode(Base64.Decode(Base64.UrlSafe, PadToQuantum(urlParam)).value) == Some(r.value)
  {
    if IsHttpUrl(urlParam) then
      match PercentEncoding.Decode(urlParam)
      case None => Err(BadRequest("Invalid URL encoding"))
      case Some(s) => Ok(s)
    else
      match Base64.Decode(Base64.UrlSafe, PadToQuantum(urlParam))
      case None => Err(BadRequest("Invalid URL encoding"))
      case Some(bytes) =>
        match Utf8.Decode(bytes)
        case None => Err(BadRequest("Invalid URL encoding"))
        case Some(s) => Ok(s)
  }

  method DecodeUrl(urlParam: string) returns (r: Result<string, Error>)
    ensures r == DecodedUrl(urlParam)
  {
    if "http://" <= urlParam || "https://" <= urlParam {
      var decoded := PercentEncoding.Decode(urlParam);
      if decoded.None? {
        return Err(BadRequest("Invalid URL encoding"));
      }
      return Ok(decoded.value);
    }
    var padded := PadWithEquals(urlParam);
    var bytes := Base64.Decode(Base64.UrlSafe, padded);
    if bytes.None? {
      return Err(BadRequest("Invalid URL encoding"));
    }
    var text := Utf8.Decode(bytes.value);
    if text.None? {
      return Err(BadRequest("Invalid URL encoding"));
    }
    return Ok(text.value);
  }

  /** The `url` parameter the playlist rewrite writes for a URL: unpadded base64url. */
  function EncodeUrlParam(url: string): string {
    TrimEndMatches(Base64.Encode(Base64.UrlSafe, Utf8.Encode(url)), '=')
  }

  /** Every character of the unpadded base64url text is a symbol of the alphabet. */
  lemma UnpaddedSymbols(url: string)
    ensures forall i :: 0 <= i < |EncodeUrlParam(url)| ==> Base64.Value(Base64.UrlSafe, EncodeUrlParam(url)[i]).Some?
  {
    var b := Utf8.Encode(url);
    var full := Base64.Encode(Base64.UrlSafe, b);
    var e := EncodeUrlParam(url);
    Base64.EncodeShape(Base64.UrlSafe, b);
    Base64.EncodeSymbols(Base64.UrlSafe, b);
    forall i | 0 <= i < |e| ensures Base64.Value(Base64.UrlSafe, e[i]).Some? {
      assert e[i] == full[i];
    }
  }

  /** The unpadded base64url text is ASCII, so its byte length is its length. */
  lemma UnpaddedIsAscii(url: string)
    ensures IsAscii(EncodeUrlParam(url))
  {
    var e := EncodeUrlParam(url);
    UnpaddedSymbols(url);
    forall i | 0 <= i < |e| ensures e[i] as int < 0x80 {
      assert Base64.Value(Base64.UrlSafe, e[i]).Some?;
    }
  }

  /** For ASCII text, byte length is length, so the loop pads as base64 does. */
  lemma PadAscii(e: string)
    requires IsAscii(e)
    ensures PadToQuantum(e) == Base64.Padded(e)
  {
    EncodeAscii(e);
    var k := (4 - |e| % 4) % 4;
    assert PadToQuantum(e) == e + seq(k, _ => '=');
  }

  /** The padding loop restores exactly the padding the rewrite trimmed. */
  lemma RepadRewrite(url: string)
    ensures PadToQuantum(EncodeUrlParam(url)) == Base64.Encode(Base64.UrlSafe, Utf8.Encode(url))
  {
    var e := EncodeUrlParam(url);
    UnpaddedIsAscii(url);
    PadAscii(e);
    Base64.RepadUnpadded(Base64.UrlSafe, Utf8.Encode(url));
  }

  /** The rewrite's `url` parameter never looks like an http(s) URL, as ':' is not a base64url symbol. */
  lemma RewriteParamNotHttp(url: string)
    ensures !IsHttpUrl(EncodeUrlParam(url))
  {
    var e := EncodeUrlParam(url);
    UnpaddedSymbols(url);
    assert Base64.Value(Base64.UrlSafe, ':').None?;
    if |e| >= 6 {
      assert Base64.Value(Base64.UrlSafe, e[4]).Some? && Base64.Value(Base64.UrlSafe, e[5]).Some?;
    }
  }

  /** `decode_url` undoes the rewrite's encoding: the proxied request reaches the URL the playlist named. */
  lemma DecodeUrlOfRewrite(url: string)
    ensures DecodedUrl(EncodeUrlParam(url)) == Ok(url)
  {
    var b := Utf8.Encode(url);
    RewriteParamNotHttp(url);
    RepadRewrite(url);
    Base64.DecodeEncode(Base64.UrlSafe, b);
    DecodeEncode(url);
  }

  /** An http(s) URL without '%' passes through `decode_url` unchanged. */
  lemma DecodeUrlOfPlainHttp(url: string)
    requires IsHttpUrl(url) && '%' !in url
    ensures DecodedUrl(url) == Ok(url)
  {
    PercentEncoding.DecodePlain(url);
  }

  // ---- classification ----

  /** `proxy_get`'s test: never a playlist for mp4; else an `#EXT` body or an HLS content type. */
  predicate IsPlaylist(contentType: string, body: seq<byte>)
    ensures IsPlaylist(contentType, body) ==> !Contains(contentType, "video/mp4")
    ensures !Contains(contentType, "video/mp4") && (Contains(contentType, "mpegurl") || Contains(contentType, "m3u8"))
      ==> IsPlaylist(contentType, body)
    ensures !Contains(contentType, "video/mp4") && Utf8.Encode("#EXT") <= body ==> IsPlaylist(contentType, body)
  {
    if Contains(contentType, "video/mp4") then false
    else Utf8.Encode("#EXT") <= body || Contains(contentType, "mpegurl") || Contains(contentType, "m3u8")
  }

  /** An HLS media type marks a playlist whatever the body holds; an mp4 one never does. */
  lemma PlaylistByContentType(hls: string, mp4: string, body: seq<byte>)
    requires hls == "application/vnd.apple.mpegurl" && mp4 == "video/mp4"
    ensures IsPlaylist(hls, body)
    ensures !IsPlaylist(mp4, body)
  {
    assert OccursAt(hls, "mpegurl", 22);
    assert '4' !in hls;
    AbsentCharNotContained(hls, "video/mp4", 8);
    assert OccursAt(mp4, "video/mp4", 0);
  }

  /** Without a telling content type the body decides: a body starting with `#EXTM3U` is a playlist. */
  lemma PlaylistByBody(text: string)
    requires "#EXTM3U" <= text
    ensures IsPlaylist("", Utf8.Encode(text))
  {
    var rest := text[7..];
    assert text == "#EXT" + ("M3U" + rest);
    EncodeAppend("#EXT", "M3U" + rest);
  }

  // ---- byte ranges ----

  /** The part of the body a `Range` header selects: all of it, or `start..=end`. */
  datatype Range = Whole | Partial(start: nat, end: nat)

  /** `usize::saturating_sub(1)`. */
  function SaturatingPred(n: nat): nat {
    if n == 0 then 0 else n - 1
  }

  /**
    The range decision of `proxy_get` for a body of `total` bytes: "bytes="
    and exactly two '-'-separated parts; an unparsable start is 0, an empty or
    unparsable end is the last byte, the end is clamped to the last byte, and
    the range is served only when it starts inside the body and is not reversed.
  */
  function RangeOf(range: Option<string>, total: nat): (r: Range)
    ensures r.Partial? ==> r.start <= r.end < total
  {
    if range.None? || !("bytes=" <= range.value) then Whole
    else
      var parts := Split(range.value[6..], '-');
      if |parts| != 2 then Whole else RangeOfParts(parts[0], parts[1], total)
  }

  /** The decision once the text after "bytes=" has split into a first and a second part. */
  function RangeOfParts(first: string, second: string, total: nat): (r: Range)
    ensures r.Partial? ==> r.start <= r.end < total
  {
    var last := SaturatingPred(total);
    var start := ParseUsize(first).GetOr(0);
    var end := if second == [] then last else ParseUsize(second).GetOr(last);
    var clamped := if end < last then end else last;
    if start < total && start <= clamped then Partial(start, clamped) else Whole
  }

  /** A header "bytes=" + a + "-" + b with decimal parts comes down to those two parts. */
  lemma RangeOfDecimal(a: string, b: string, total: nat)
    requires AllDigits(a) && AllDigits(b)
    ensures RangeOf(Some("bytes=" + a + "-" + b), total) == RangeOfParts(a, b, total)
  {
    var h := "bytes=" + a + "-" + b;
    assert "bytes=" <= h;
    assert h[6..] == a + "-" + b;
    SplitRange(a, b);
  }

  /** The two parts of "a-b" for decimal `a` and `b`. */
  lemma SplitRange(a: string, b: string)
    requires AllDigits(a) && AllDigits(b)
    ensures Split(a + "-" + b, '-') == [a, b]
  {
    assert '-' !in a && '-' !in b by {
      assert forall i :: 0 <= i < |a| ==> IsDigit(a[i]);
      assert forall i :: 0 <= i < |b| ==> IsDigit(b[i]);
    }
    SplitCons(a, b, '-');
    SplitWithout(b, '-');
  }

  /** "bytes=a-b" inside the body selects exactly bytes a to b. */
  lemma ClosedRange(a: nat, b: nat, total: nat)
    requires a <= b < total && b <= U64Max
    ensures RangeOf(Some("bytes=" + NatToDecimal(a) + "-" + NatToDecimal(b)), total) == Partial(a, b)
  {
    RangeOfDecimal(NatToDecimal(a), NatToDecimal(b), total);
    ParseUsizeOfDecimal(a);
    ParseUsizeOfDecimal(b);
  }

  /** "bytes=a-" selects everything from a to the end. */
  lemma OpenRange(a: nat, total: nat)
    requires a < total && a <= U64Max
    ensures RangeOf(Some("bytes=" + NatToDecimal(a) + "-"), total) == Partial(a, total - 1)
  {
    assert "bytes=" + NatToDecimal(a) + "-" == "bytes=" + NatToDecimal(a) + "-" + "";
    RangeOfDecimal(NatToDecimal(a), "", total);
    ParseUsizeOfDecimal(a);
  }

  /** A suffix range "bytes=-n" is read as "bytes=0-n": the first n+1 bytes, not the last n. */
  lemma SuffixRangeServesPrefix(n: nat, total: nat)
    requires 0 < total && n <= U64Max
    ensures RangeOf(Some("bytes=-" + NatToDecimal(n)), total) == Partial(0, if n < total - 1 then n else total - 1)
  {
    var d := NatToDecimal(n);
    assert "bytes=-" + d == "bytes=" + "" + "-" + d;
    RangeOfDecimal("", d, total);
    ParseUsizeOfDecimal(n);
    assert ParseUsize("") == None;
    assert d != [];
  }

  /** A range starting at or after the end of the body is ignored. */
  lemma RangePastEnd(a: nat, b: nat, total: nat)
    requires total <= a <= U64Max
    ensures RangeOf(Some("bytes=" + NatToDecimal(a) + "-" + NatToDecimal(b)), total) == Whole
  {
    RangeOfDecimal(NatToDecimal(a), NatToDecimal(b), total);
    ParseUsizeOfDecimal(a);
  }

  // ---- responses ----

  /** A response: status code, header map (lower-case names, one value each) and body. */
  datatype Response = Response(status: nat, headers: map<string, string>, body: seq<byte>)

  predicate HasHeader(r: Response, name: string, value: string) {
    name in r.headers && r.headers[name] == value
  }

  /** The `Content-Length` header is the decimal length of the body that is sent. */
  predicate ContentLengthMatches(r: Response) {
    "content-length" in r.headers && r.headers["content-length"] == NatToDecimal(|r.body|)
  }

  /** `Content-Encoding` is present exactly for a compressed body and names the encoding used. */
  predicate DeclaresEncoding(r: Response, e: ContentEncoding) {
    ("content-encoding" in r.headers <==> e != Uncompressed)
    && ("content-encoding" in r.headers ==> FromAcceptEncoding(Some(r.headers["content-encoding"])) == e)
  }

  /** The `Content-Length` header reads back as the body length. */
  lemma ContentLengthReadsBack(r: Response)
    requires ContentLengthMatches(r)
    ensures DigitsValue(r.headers["content-length"]) == |r.body|
  {
    DigitsOfDecimal(|r.body|);
  }

  /** Adds `Content-Encoding` for a compressed body. */
  function WithEncoding(headers: map<string, string>, e: ContentEncoding): (h: map<string, string>)
    ensures "content-encoding" in h <==> ("content-encoding" in headers || e != Uncompressed)
  {
    match AsHeaderValue(e)
    case None => headers
    case Some(v) => headers["content-encoding" := v]
  }

  /** `build_m3u8_response`: the rewritten playlist, compressed as the client accepts. */
  function PlaylistResponse(body: string, acceptEncoding: Option<string>, compressor: Compressor): (r: Result<Response, Error>)
    ensures var e := FromAcceptEncoding(acceptEncoding);
      && (r.Err? <==> Compress(e, Utf8.Encode(body), compressor).None?)
      && (r.Err? ==> r.error == InternalServerErrorWithContext("Failed to compress response"))
      && (r.Ok? ==>
            && r.value.status == 200
            && r.value.body == Compress(e, Utf8.Encode(body), compressor).value
            && r.value.headers.Keys <= {"content-type", "cache-control", "content-encoding", "content-length"}
            && HasHeader(r.value, "content-type", "application/vnd.apple.mpegurl")
            && HasHeader(r.value, "cache-control", "no-cache")
            && ContentLengthMatches(r.value)
            && DeclaresEncoding(r.value, e))
    ensures FromAcceptEncoding(acceptEncoding) == Uncompressed ==> r.Ok? && r.value.body == Utf8.Encode(body)
  {
    var e := FromAcceptEncoding(acceptEncoding);
    match Compress(e, Utf8.Encode(body), compressor)
    case None => Err(InternalServerErrorWithContext("Failed to compress response"))
    case Some(b) =>
      var headers := map["content-type" := "application/vnd.apple.mpegurl", "cache-control" := "no-cache"];
      Ok(Response(200, WithEncoding(headers, e)["content-length" := NatToDecimal(|b|)], b))
  }

  /** `build_m3u8_response`, building the header map by successive inserts. */
  method BuildPlaylistResponse(body: string, acceptEncoding: Option<string>, compressor: Compressor) returns (r: Result<Response, Error>)
    ensures r == PlaylistResponse(body, acceptEncoding, compressor)
  {
    var encoding := FromAcceptEncoding(acceptEncoding);
    var headers: map<string, string> := map[];
    headers := headers["content-type" := "application/vnd.apple.mpegurl"];
    headers := headers["cache-control" := "no-cache"];
    var responseBody: seq<byte>;
    if encoding != Uncompressed {
      var compressed := Compress(encoding, Utf8.Encode(body), compressor);
      if compressed.None? {
        return Err(InternalServerErrorWithContext("Failed to compress response"));
      }
      var header := AsHeaderValue(encoding);
      if header.Some? {
        headers := headers["content-encoding" := header.value];
      }
      responseBody := compressed.value;
    } else {
      responseBody := Utf8.Encode(body);
    }
    headers := headers["content-length" := NatToDecimal(|responseBody|)];
    return Ok(Response(200, headers, responseBody));
  }

  function CacheControl(isMp4: bool): string {
    if isMp4 then "public, max-age=3600" else "public, max-age=31536000"
  }

  /** The `Content-Range` value "bytes start-end/total". */
  function ContentRange(start: nat, end: nat, total: nat): string {
    "bytes " + NatToDecimal(start) + "-" + NatToDecimal(end) + "/" + NatToDecimal(total)
  }

  /** The headers every segment response carries. */
  function SegmentHeaders(isMp4: bool): map<string, string> {
    map["content-type" := "video/mp2t", "cache-control" := CacheControl(isMp4), "accept-ranges" := "bytes"]
  }

  /**
    The segment branch of `proxy_get`: the selected range uncompressed with
    status 206, or the whole body with status 200, compressed as the client accepts.
  */
  function SegmentResponse(full: seq<byte>, isMp4: bool, range: Option<string>, acceptEncoding: Option<string>, compressor: Compressor): (r: Result<Response, Error>)
    ensures var rg := RangeOf(range, |full|);
      rg.Partial? ==>
        && r.Ok? && r.value.status == 206
        && r.value.body == full[rg.start..rg.end + 1]
        && |r.value.body| == rg.end - rg.start + 1
        && HasHeader(r.value, "content-range", ContentRange(rg.start, rg.end, |full|))
        && "content-encoding" !in r.value.headers
    ensures var e := FromAcceptEncoding(acceptEncoding);
      RangeOf(range, |full|).Whole? ==>
        && (r.Err? <==> Compress(e, full, compressor).None?)
        && (r.Ok? ==>
              && r.value.status == 200
              && r.value.body == Compress(e, full, compressor).value
              && "content-range" !in r.value.headers
              && DeclaresEncoding(r.value, e))
    ensures r.Err? ==> r.error == InternalServerErrorWithContext("Failed to compress response")
    ensures r.Ok? ==>
      && HasHeader(r.value, "content-type", "video/mp2t")
      && HasHeader(r.value, "cache-control", CacheControl(isMp4))
      && HasHeader(r.value, "accept-ranges", "bytes")
      && ContentLengthMatches(r.value)
  {
    var rg := RangeOf(range, |full|);
    if rg.Partial? then Ok(PartialResponse(full, isMp4, rg.start, rg.end))
    else WholeResponse(full, isMp4, FromAcceptEncoding(acceptEncoding), compressor)
  }

  /** The 206 answer for bytes `start` to `end`, sent uncompressed. */
  function PartialResponse(full: seq<byte>, isMp4: bool, start: nat, end: nat): (r: Response)
    requires start <= end < |full|
    ensures r.status == 206 && r.body == full[start..end + 1] && |r.body| == end - start + 1
    ensures HasHeader(r, "content-range", ContentRange(start, end, |full|))
    ensures "content-encoding" !in r.headers
    ensures HasHeader(r, "content-type", "video/mp2t")
    ensures HasHeader(r, "cache-control", CacheControl(isMp4))
    ensures HasHeader(r, "accept-ranges", "bytes")
    ensures ContentLengthMatches(r)
  {
    var b := full[start..end + 1];
    Response(206, SegmentHeaders(isMp4)["content-range" := ContentRange(start, end, |full|)]["content-length" := NatToDecimal(|b|)], b)
  }

  /** The 200 answer with the whole body, compressed as `e` says. */
  function WholeResponse(full: seq<byte>, isMp4: bool, e: ContentEncoding, compressor: Compressor): (r: Result<Response, Error>)
    ensures r.Err? <==> Compress(e, full, compressor).None?
    ensures r.Err? ==> r.error == InternalServerErrorWithContext("Failed to compress response")
    ensures r.Ok? ==>
      && r.value.status == 200
      && r.value.body == Compress(e, full, compressor).value
      && "content-range" !in r.value.headers
      && DeclaresEncoding(r.value, e)
      && HasHeader(r.value, "content-type", "video/mp2t")
      && HasHeader(r.value, "cache-control", CacheControl(isMp4))
      && HasHeader(r.value, "accept-ranges", "bytes")
      && ContentLengthMatches(r.value)
  {
    match Compress(e, full, compressor)
    case None => Err(InternalServerErrorWithContext("Failed to compress response"))
    case Some(b) => Ok(Response(200, WithEncoding(SegmentHeaders(isMp4), e)["content-length" := NatToDecimal(|b|)], b))
  }

  /** The partial-content answer `SegmentResponse` gives for a range it honours. */
  lemma SegmentResponseOfPartial(full: seq<byte>, isMp4: bool, range: Option<string>, acceptEncoding: Option<string>, compressor: Compressor, start: nat, end: nat)
    requires RangeOf(range, |full|) == Partial(start, end)
    ensures start <= end < |full|
    ensures SegmentResponse(full, isMp4, range, acceptEncoding, compressor) == Ok(PartialResponse(full, isMp4, start, end))
  {
  }

  /** The full answer `SegmentResponse` gives otherwise. */
  lemma SegmentResponseOfWhole(full: seq<byte>, isMp4: bool, range: Option<string>, acceptEncoding: Option<string>, compressor: Compressor)
    requires RangeOf(range, |full|) == Whole
    ensures SegmentResponse(full, isMp4, range, acceptEncoding, compressor) == WholeResponse(full, isMp4, FromAcceptEncoding(acceptEncoding), compressor)
  {
  }

  /** The range decision of `proxy_get`: the bytes to send, the status and the `Content-Range` value. */
  method SelectRange(full: seq<byte>, range: Option<string>) returns (responseBytes: seq<byte>, status: nat, rangeHeader: Option<string>)
    ensures RangeOf(range, |full|).Partial? ==>
      var rg := RangeOf(range, |full|);
      responseBytes == full[rg.start..rg.end + 1] && status == 206 && rangeHeader == Some(ContentRange(rg.start, rg.end, |full|))
    ensures RangeOf(range, |full|).Whole? ==> responseBytes == full && status == 200 && rangeHeader == None
  {
    var total := |full|;
    responseBytes := full;
    status := 200;
    rangeHeader := None;
    var decision := RangeOf(range, total);
    if decision.Partial? {
      responseBytes := full[decision.start..decision.end + 1];
      status := 206;
      rangeHeader := Some(ContentRange(decision.start, decision.end, total));
    }
  }

  /** The segment branch of `proxy_get`, building the header map by successive inserts. */
  method BuildSegmentResponse(full: seq<byte>, isMp4: bool, range: Option<string>, acceptEncoding: Option<string>, compressor: Compressor)
    returns (r: Result<Response, Error>)
    ensures r == SegmentResponse(full, isMp4, range, acceptEncoding, compressor)
  {
    var responseBytes, status, rangeHeader := SelectRange(full, range);
    var decision := RangeOf(range, |full|);
    var encoding := FromAcceptEncoding(acceptEncoding);
    var headers: map<string, string> := map[];
    headers := headers["content-type" := "video/mp2t"];
    headers := headers["cache-control" := CacheControl(isMp4)];
    headers := headers["accept-ranges" := "bytes"];
    assert headers == SegmentHeaders(isMp4);
    if rangeHeader.Some? {
      headers := headers["content-range" := rangeHeader.value];
    }
    var finalBytes: seq<byte>;
    if encoding != Uncompressed && status != 206 {
      var compressed := Compress(encoding, responseBytes, compressor);
      if compressed.None? {
        SegmentResponseOfWhole(full, isMp4, range, acceptEncoding, compressor);
        return Err(InternalServerErrorWithContext("Failed to compress response"));
      }
      var header := AsHeaderValue(encoding);
      if header.Some? {
        headers := headers["content-encoding" := header.value];
      }
      finalBytes := compressed.value;
    } else {
      finalBytes := responseBytes;
    }
    headers := headers["content-length" := NatToDecimal(|finalBytes|)];
    r := Ok(Response(status, headers, finalBytes));
    if decision.Partial? {
      SegmentResponseOfPartial(full, isMp4, range, acceptEncoding, compressor, decision.start, decision.end);
      assert r == Ok(PartialResponse(full, isMp4, decision.start, decision.end));
    } else {
      SegmentResponseOfWhole(full, isMp4, range, acceptEncoding, compressor);
      assert headers == WithEncoding(SegmentHeaders(isMp4), encoding)["content-length" := NatToDecimal(|finalBytes|)];
    }
  }

  // ---- playlist rewriting ----

  /** The parts of a parsed `url::Url` the rewrite reads. */
  datatype ParsedUrl = ParsedUrl(scheme: string, host: Option<string>, path: string)

  /**
    `url::Url`: `parse` (an error carries its message) and `resolve`, which
    parses a base and joins a reference onto it, serialised (RFC 3986, section 5.2).
  */
  datatype UrlOps = UrlOps(parse: string -> Result<ParsedUrl, string>, resolve: (string, string) -> Option<string>)

  /** "scheme://host" and the path up to and including its last '/'. */
  function BasePath(p: ParsedUrl): (r: string)
    ensures var prefix := p.scheme + "://" + p.host.GetOr("");
      |prefix| <= |r| <= |prefix| + |p.path| && r == prefix + p.path[..|r| - |prefix|]
    ensures var d := |r| - |p.scheme + "://" + p.host.GetOr("")|;
      '/' in p.path ==> 0 < d && p.path[d - 1] == '/' && '/' !in p.path[d..]
    ensures var d := |r| - |p.scheme + "://" + p.host.GetOr("")|;
      '/' !in p.path ==> d == if p.path == [] then 0 else 1
  {
    var prefix := p.scheme + "://" + p.host.GetOr("");
    match LastIndexOf(p.path, '/')
    case Some(i) => prefix + p.path[..i + 1]
    case None => prefix + p.path[..if |p.path| < 1 then 0 else 1]
  }

  /** One `name=value` field of a query. */
  function Field(name: string, value: string): string {
    name + "=" + value
  }

  /** Each (name, value) as a `name=value` query field. */
  function Render(fs: seq<(string, string)>): (r: seq<string>)
    ensures |r| == |fs|
    ensures forall i :: 0 <= i < |fs| ==> r[i] == Field(fs[i].0, fs[i].1)
  {
    seq(|fs|, i requires 0 <= i < |fs| => Field(fs[i].0, fs[i].1))
  }

  /** The five names and values of a rewritten line's query, in order. */
  function QueryFieldList(u: SignatureUtil, clientId: string, expiry: int, encoded: string): seq<(string, string)> {
    [("url", encoded), ("schema", "sports"), ("sig", u.GenerateSignature(clientId, expiry, encoded)),
     ("exp", ToDecimal(expiry)), ("client", PercentEncoding.Encode(clientId))]
  }

  /** The five fields of a rewritten line's query, in order. */
  function QueryFields(u: SignatureUtil, clientId: string, expiry: int, encoded: string): seq<string> {
    Render(QueryFieldList(u, clientId, expiry, encoded))
  }

  /** The signed query of a rewritten line: "url=…&schema=sports&sig=…&exp=…&client=…". */
  function RewrittenQuery(u: SignatureUtil, clientId: string, expiry: int, encoded: string): (q: string)
    ensures "url=" <= q
  {
    var fields := QueryFields(u, clientId, expiry, encoded);
    assert "url=" <= fields[0];
    Join(fields, "&")
  }

  /** A playlist line that sends the player back through the proxy for `fullUrl`, valid for 12 hours. */
  function ProxyLine(u: SignatureUtil, clientId: string, now: int, fullUrl: string): (line: string)
    ensures "/api/v1/proxy?url=" <= line
  {
    "/api/v1/proxy?" + RewrittenQuery(u, clientId, GenerateExpiry(now, 12), EncodeUrlParam(fullUrl))
  }

  /** Lines the rewrite removes: after trimming they start with "##". */
  predicate IsDropped(line: string) {
    "##" <= Trim(line)
  }

  /** The lines that survive the filter, in order. */
  function KeptLines(lines: seq<string>): (r: seq<string>)
    ensures |r| <= |lines|
    ensures forall k :: 0 <= k < |r| ==> !IsDropped(r[k])
  {
    if lines == [] then []
    else
      var rest := KeptLines(lines[1..]);
      if IsDropped(lines[0]) then rest
      else
        var r := [lines[0]] + rest;
        assert forall k :: 0 < k < |r| ==> r[k] == rest[k - 1];
        r
  }

  /** The filter distributes over concatenation, so it keeps every surviving line in its place. */
  lemma {:induction false} KeptLinesAppend(a: seq<string>, b: seq<string>)
    ensures KeptLines(a + b) == KeptLines(a) + KeptLines(b)
  {
    if a == [] {
      assert a + b == b;
    } else {
      assert (a + b)[1..] == a[1..] + b;
      KeptLinesAppend(a[1..], b);
    }
  }

  /** The filter only keeps lines it was given. */
  lemma {:induction false} KeptLinesFrom(lines: seq<string>)
    ensures forall k :: 0 <= k < |KeptLines(lines)| ==> KeptLines(lines)[k] in lines
  {
    if lines != [] {
      KeptLinesFrom(lines[1..]);
      assert forall x :: x in lines[1..] ==> x in lines;
    }
  }

  /** A single line survives exactly when it is not a "##" comment. */
  lemma KeptLine(line: string)
    ensures KeptLines([line]) == if IsDropped(line) then [] else [line]
  {
    assert [line][1..] == [];
  }

  /**
    One line of `process_m3u8`: blank lines and tags stay as they are; a URI
    (absolute, or resolved against the base path) becomes a proxy line; a
    reference that does not resolve stays as it is.
  */
  function RewriteLine(u: SignatureUtil, ops: UrlOps, basePath: string, clientId: string, now: int, line: string): (r: string)
    ensures Trim(line) == [] || "#" <= Trim(line) ==> r == line
    ensures IsHttpUrl(Trim(line)) ==> r == ProxyLine(u, clientId, now, Trim(line))
    ensures Trim(line) != [] && !("#" <= Trim(line)) && !IsHttpUrl(Trim(line)) ==>
      r == match ops.resolve(basePath, Trim(line))
           case Some(full) => ProxyLine(u, clientId, now, full)
           case None => line
    ensures r == line || "/api/v1/proxy?url=" <= r
    ensures '\n' !in line ==> '\n' !in r
  {
    var trimmed := Trim(line);
    assert IsHttpUrl(trimmed) ==> trimmed != [] && trimmed[0] == 'h';
    if trimmed == [] || "#" <= trimmed then line
    else if IsHttpUrl(trimmed) then
      ProxyLineHasNoNewline(u, clientId, now, trimmed);
      ProxyLine(u, clientId, now, trimmed)
    else match ops.resolve(basePath, trimmed)
      case None => line
      case Some(full) =>
        ProxyLineHasNoNewline(u, clientId, now, full);
        ProxyLine(u, clientId, now, full)
  }

  /**
    `process_m3u8`: every line of the playlist that is not a "##" comment,
    rewritten, joined with "\n"; an unparsable target URL is an internal error.
  */
  function ProcessM3u8(u: SignatureUtil, ops: UrlOps, clientId: string, now: int, text: string, targetUrl: string): (r: Result<string, Error>)
    ensures r.Err? <==> ops.parse(targetUrl).Err?
    ensures r.Err? ==> r.error == InternalServerErrorWithContext("Invalid base URL: " + ops.parse(targetUrl).error)
    ensures r.Ok? ==>
      r.value == Join(RewrittenLines(u, ops, BasePath(ops.parse(targetUrl).value), clientId, now, KeptLines(Lines(text))), "\n")
  {
    match ops.parse(targetUrl)
    case Err(e) => Err(InternalServerErrorWithContext("Invalid base URL: " + e))
    case Ok(base) =>
      var kept := KeptLines(Lines(text));
      Ok(Join(RewrittenLines(u, ops, BasePath(base), clientId, now, kept), "\n"))
  }

  /** The kept lines, each rewritten on its own. */
  function RewrittenLines(u: SignatureUtil, ops: UrlOps, basePath: string, clientId: string, now: int, lines: seq<string>): (r: seq<string>)
    ensures |r| == |lines|
    ensures forall k :: 0 <= k < |r| ==> r[k] == RewriteLine(u, ops, basePath, clientId, now, lines[k])
  {
    seq(|lines|, k requires 0 <= k < |lines| => RewriteLine(u, ops, basePath, clientId, now, lines[k]))
  }

  /**
    `process_m3u8_by_schema_with_retry`: an internal error is retried once
    (the retry reads the clock again, at `retryNow`); anything else is final.
  */
  function ProcessM3u8WithRetry(u: SignatureUtil, ops: UrlOps, clientId: string, now: int, retryNow: int, text: string, targetUrl: string): (r: Result<string, Error>)
    ensures r.Err? <==> ProcessM3u8(u, ops, clientId, now, text, targetUrl).Err?
    ensures r.Ok? ==> r == ProcessM3u8(u, ops, clientId, now, text, targetUrl)
    ensures r.Err? ==> r == ProcessM3u8(u, ops, clientId, now, text, targetUrl)
  {
    var first := ProcessM3u8(u, ops, clientId, now, text, targetUrl);
    if first.Err? && first.error.IsInternal() then ProcessM3u8(u, ops, clientId, retryNow, text, targetUrl) else first
  }

  /**
    The rewritten playlist splits at '\n' back into exactly the rewritten
    kept lines: no line, kept or produced, holds a '\n'.
  */
  lemma ProcessM3u8SplitsIntoLines(u: SignatureUtil, ops: UrlOps, clientId: string, now: int, text: string, targetUrl: string)
    requires ops.parse(targetUrl).Ok?
    ensures var out := RewrittenLines(u, ops, BasePath(ops.parse(targetUrl).value), clientId, now, KeptLines(Lines(text)));
      && (out == [] ==> ProcessM3u8(u, ops, clientId, now, text, targetUrl) == Ok(""))
      && (out != [] ==> Split(ProcessM3u8(u, ops, clientId, now, text, targetUrl).value, '\n') == out)
  {
    var lines := Lines(text);
    var kept := KeptLines(lines);
    var out := RewrittenLines(u, ops, BasePath(ops.parse(targetUrl).value), clientId, now, kept);
    KeptLinesFrom(lines);
    forall k | 0 <= k < |out| ensures '\n' !in out[k] {
      assert kept[k] in lines;
    }
    if out != [] {
      SplitJoin(out, '\n');
    }
  }

  /** A proxy line is one line: none of its parts holds a '\n'. */
  lemma ProxyLineHasNoNewline(u: SignatureUtil, clientId: string, now: int, fullUrl: string)
    ensures '\n' !in ProxyLine(u, clientId, now, fullUrl)
  {
    var expiry := GenerateExpiry(now, 12);
    var encoded := EncodeUrlParam(fullUrl);
    var fields := QueryFields(u, clientId, expiry, encoded);
    UnpaddedSymbols(fullUrl);
    assert Base64.Value(Base64.UrlSafe, '\n').None?;
    var sig := u.GenerateSignature(clientId, expiry, encoded);
    assert IsLowerHex(sig);
    FieldAvoids("url", encoded, '\n');
    FieldAvoids("schema", "sports", '\n');
    FieldAvoids("sig", sig, '\n');
    FieldAvoids("exp", ToDecimal(expiry), '\n');
    FieldAvoids("client", PercentEncoding.Encode(clientId), '\n');
    JoinAvoids(fields, "&", '\n');
    AvoidsAppend("/api/v1/proxy?", Join(fields, "&"), '\n');
  }

  /** Joining pieces that avoid `c` with a separator that avoids it gives text that avoids it. */
  lemma {:induction false} JoinAvoids(parts: seq<string>, sep: string, c: char)
    requires forall k :: 0 <= k < |parts| ==> c !in parts[k]
    requires c !in sep
    ensures Avoids(Join(parts, sep), c)
  {
    if |parts| > 1 {
      JoinAvoids(parts[1..], sep, c);
      AvoidsAppend(parts[0], sep, c);
      AvoidsAppend(parts[0] + sep, Join(parts[1..], sep), c);
    }
  }

  // ---- the rewrite and the extractor agree ----

  /** No character of `s` is `c`, written with an index so quantifiers trigger. */
  predicate Avoids(s: string, c: char) {
    forall i :: 0 <= i < |s| ==> s[i] != c
  }

  lemma AvoidsNotIn(s: string, c: char)
    requires Avoids(s, c)
    ensures c !in s
  {
  }

  lemma AvoidsAppend(a: string, b: string, c: char)
    requires Avoids(a, c) && Avoids(b, c)
    ensures Avoids(a + b, c)
  {
    forall i | 0 <= i < |a + b| ensures (a + b)[i] != c {
      if i < |a| {
        assert (a + b)[i] == a[i];
      } else {
        assert (a + b)[i] == b[i - |a|];
      }
    }
  }

  /** The unpadded base64url text has no '&'. */
  lemma UnpaddedAvoidsAmpersand(url: string)
    ensures Avoids(EncodeUrlParam(url), '&')
  {
    UnpaddedSymbols(url);
    assert Base64.Value(Base64.UrlSafe, '&').None?;
  }

  /** Lower-case hexadecimal and decimal numbers have none of the characters a query treats specially. */
  lemma PlainQueryValues(u: SignatureUtil, clientId: string, expiry: int, encoded: string)
    ensures var sig := u.GenerateSignature(clientId, expiry, encoded);
      Avoids(sig, '&') && Avoids(sig, '%') && Avoids(sig, '+')
    ensures Avoids(ToDecimal(expiry), '&') && Avoids(ToDecimal(expiry), '%') && Avoids(ToDecimal(expiry), '+')
    ensures Avoids(PercentEncoding.Encode(clientId), '&')
  {
    var sig := u.GenerateSignature(clientId, expiry, encoded);
    assert IsLowerHex(sig);
  }

  /** The rewritten query splits back into its five fields. */
  lemma QuerySegments(u: SignatureUtil, clientId: string, expiry: int, encoded: string)
    requires Avoids(encoded, '&')
    ensures Split(RewrittenQuery(u, clientId, expiry, encoded), '&') == QueryFields(u, clientId, expiry, encoded)
  {
    var fields := QueryFields(u, clientId, expiry, encoded);
    PlainQueryValues(u, clientId, expiry, encoded);
    FieldAvoids("url", encoded, '&');
    FieldAvoids("schema", "sports", '&');
    FieldAvoids("sig", u.GenerateSignature(clientId, expiry, encoded), '&');
    FieldAvoids("exp", ToDecimal(expiry), '&');
    FieldAvoids("client", PercentEncoding.Encode(clientId), '&');
    SplitJoin(fields, '&');
  }

  /** A field avoids a character its name and value avoid, unless it is the '='. */
  lemma FieldAvoids(name: string, value: string, c: char)
    requires c !in name && c != '=' && Avoids(value, c)
    ensures c !in Field(name, value)
  {
    AvoidsAppend(name + "=", value, c);
  }

  /** A `name=value` segment whose name has no '=' splits at the '=' after the name. */
  lemma SplitOnceAfterName(name: string, value: string)
    requires '=' !in name
    ensures SplitOnce(name + "=" + value, '=') == Some((name, value))
  {
    var s := name + "=" + value;
    assert s[|name|] == '=';
    assert s[..|name|] == name;
    assert s[|name| + 1..] == value;
  }

  /** A field "name=value" with a plain name is the pair of the name and the decoded value. */
  lemma FieldPair(name: string, value: string)
    requires '=' !in name && '%' !in name && '+' !in name
    ensures FormPair(Field(name, value)) == (name, PercentEncoding.FormComponent(value))
  {
    SplitOnceAfterName(name, value);
    PercentEncoding.FormComponentPlain(name);
  }

  /** A value without '&', '%' or '+' is read back as it is. */
  lemma PlainValue(v: string)
    requires Avoids(v, '%') && Avoids(v, '+')
    ensures PercentEncoding.FormComponent(v) == v
  {
    AvoidsNotIn(v, '%');
    AvoidsNotIn(v, '+');
    PercentEncoding.FormComponentPlain(v);
  }

  /** A field whose name needs no escaping is read back as its name and decoded value. */
  lemma PairOfRender(fs: seq<(string, string)>, k: nat)
    requires k < |fs|
    requires '=' !in fs[k].0 && '%' !in fs[k].0 && '+' !in fs[k].0
    ensures |FormPairs(Render(fs))| == |fs|
    ensures FormPairs(Render(fs))[k] == (fs[k].0, PercentEncoding.FormComponent(fs[k].1))
  {
    var fields := Render(fs);
    assert forall j :: 0 <= j < |fields| ==> fields[j] != [];
    FormPairsOfNonEmpty(fields);
    FieldPair(fs[k].0, fs[k].1);
  }

  /** The name a field whose name needs no escaping is read back as. */
  lemma NameOfRender(fs: seq<(string, string)>, k: nat)
    requires k < |fs|
    requires '=' !in fs[k].0 && '%' !in fs[k].0 && '+' !in fs[k].0
    ensures |FormPairs(Render(fs))| == |fs|
    ensures FormPairs(Render(fs))[k].0 == fs[k].0
  {
    PairOfRender(fs, k);
  }

  /** The first field is read back under the name `url`. */
  lemma UrlFieldName(u: SignatureUtil, clientId: string, expiry: int, encoded: string)
    ensures var pairs := FormPairs(QueryFields(u, clientId, expiry, encoded));
      |pairs| == 5 && pairs[0].0 == "url"
  {
    var fs := QueryFieldList(u, clientId, expiry, encoded);
    NameOfRender(fs, 0);
  }

  /** The second field is read back under the name `schema`. */
  lemma SchemaFieldName(u: SignatureUtil, clientId: string, expiry: int, encoded: string)
    ensures var pairs := FormPairs(QueryFields(u, clientId, expiry, encoded));
      |pairs| == 5 && pairs[1].0 == "schema"
  {
    var fs := QueryFieldList(u, clientId, expiry, encoded);
    NameOfRender(fs, 1);
  }

  /** The third field is read back as the signature. */
  lemma SigFieldPair(u: SignatureUtil, clientId: string, expiry: int, encoded: string)
    ensures var pairs := FormPairs(QueryFields(u, clientId, expiry, encoded));
      |pairs| == 5 && pairs[2] == ("sig", u.GenerateSignature(clientId, expiry, encoded))
  {
    var fs := QueryFieldList(u, clientId, expiry, encoded);
    PlainQueryValues(u, clientId, expiry, encoded);
    PairOfRender(fs, 2);
    PlainValue(fs[2].1);
  }

  /** The fourth field is read back as the expiry in decimal. */
  lemma ExpFieldPair(u: SignatureUtil, clientId: string, expiry: int, encoded: string)
    ensures var pairs := FormPairs(QueryFields(u, clientId, expiry, encoded));
      |pairs| == 5 && pairs[3] == ("exp", ToDecimal(expiry))
  {
    var fs := QueryFieldList(u, clientId, expiry, encoded);
    PlainQueryValues(u, clientId, expiry, encoded);
    PairOfRender(fs, 3);
    PlainValue(fs[3].1);
  }

  /** The fifth field is read back as the client id, decoded. */
  lemma ClientFieldPair(u: SignatureUtil, clientId: string, expiry: int, encoded: string)
    ensures var pairs := FormPairs(QueryFields(u, clientId, expiry, encoded));
      |pairs| == 5 && pairs[4] == ("client", clientId)
  {
    var fs := QueryFieldList(u, clientId, expiry, encoded);
    PairOfRender(fs, 4);
    PercentEncoding.FormComponentOfEncode(clientId);
  }

  /** The pairs the extractor reads from the five fields of a rewritten query. */
  lemma FieldPairs(u: SignatureUtil, clientId: string, expiry: int, encoded: string)
    ensures var pairs := FormPairs(QueryFields(u, clientId, expiry, encoded));
      && |pairs| == 5
      && pairs[0].0 == "url"
      && pairs[1].0 == "schema"
      && pairs[2] == ("sig", u.GenerateSignature(clientId, expiry, encoded))
      && pairs[3] == ("exp", ToDecimal(expiry))
      && pairs[4] == ("client", clientId)
  {
    UrlFieldName(u, clientId, expiry, encoded);
    SchemaFieldName(u, clientId, expiry, encoded);
    SigFieldPair(u, clientId, expiry, encoded);
    ExpFieldPair(u, clientId, expiry, encoded);
    ClientFieldPair(u, clientId, expiry, encoded);
  }

  /** The pairs the extractor reads from a rewritten query. */
  lemma QueryPairs(u: SignatureUtil, clientId: string, expiry: int, encoded: string)
    requires Avoids(encoded, '&')
    ensures var pairs := FormPairs(Split(RewrittenQuery(u, clientId, expiry, encoded), '&'));
      && |pairs| == 5
      && pairs[0].0 == "url"
      && pairs[1].0 == "schema"
      && pairs[2] == ("sig", u.GenerateSignature(clientId, expiry, encoded))
      && pairs[3] == ("exp", ToDecimal(expiry))
      && pairs[4] == ("client", clientId)
  {
    QuerySegments(u, clientId, expiry, encoded);
    FieldPairs(u, clientId, expiry, encoded);
  }

  /** Each of `sig`, `exp` and `client` occurs once among the five pairs. */
  lemma ValuesOfFive(pairs: seq<(string, string)>, sig: string, exp: string, client: string)
    requires |pairs| == 5 && pairs[0].0 == "url" && pairs[1].0 == "schema"
    requires pairs[2] == ("sig", sig) && pairs[3] == ("exp", exp) && pairs[4] == ("client", client)
    ensures ValuesOf(pairs, "sig") == [sig]
    ensures ValuesOf(pairs, "exp") == [exp]
    ensures ValuesOf(pairs, "client") == [client]
  {
    ValuesOfSingle(pairs, "sig", 2);
    ValuesOfSingle(pairs, "exp", 3);
    ValuesOfSingle(pairs, "client", 4);
  }

  /** The extractor reads back the rewrite's signature, expiry, client and `url` text. */
  lemma QueryReadsBack(u: SignatureUtil, clientId: string, expiry: int, encoded: string)
    requires Avoids(encoded, '&')
    ensures ParseSignedUrlQuery(Some(RewrittenQuery(u, clientId, expiry, encoded))) ==
      SignedUrlQuery(Some(u.GenerateSignature(clientId, expiry, encoded)), Some(ToDecimal(expiry)), Some(clientId))
    ensures UrlParam(Some(RewrittenQuery(u, clientId, expiry, encoded))) == Some(encoded)
  {
    SignedFieldsReadBack(u, clientId, expiry, encoded);
    UrlReadsBack(u, clientId, expiry, encoded);
  }

  lemma SignedFieldsReadBack(u: SignatureUtil, clientId: string, expiry: int, encoded: string)
    requires Avoids(encoded, '&')
    ensures ParseSignedUrlQuery(Some(RewrittenQuery(u, clientId, expiry, encoded))) ==
      SignedUrlQuery(Some(u.GenerateSignature(clientId, expiry, encoded)), Some(ToDecimal(expiry)), Some(clientId))
  {
    var q := RewrittenQuery(u, clientId, expiry, encoded);
    var pairs := FormPairs(Split(q, '&'));
    QueryPairs(u, clientId, expiry, encoded);
    ValuesOfFive(pairs, u.GenerateSignature(clientId, expiry, encoded), ToDecimal(expiry), clientId);
  }

  lemma UrlReadsBack(u: SignatureUtil, clientId: string, expiry: int, encoded: string)
    requires Avoids(encoded, '&')
    ensures UrlParam(Some(RewrittenQuery(u, clientId, expiry, encoded))) == Some(encoded)
  {
    QuerySegments(u, clientId, expiry, encoded);
    var first := Field("url", encoded);
    assert "url=" <= first && first[4..] == encoded;
  }

  /**
    A line the rewrite produces opens the proxy for the same URL: the
    extractor lets any client through with it until the expiry it carries,
    12 hours after the rewrite, and rejects it after that; and `decode_url`
    turns its `url` text back into the URL the playlist named.
  */
  lemma ProxyLineAccepted(u: SignatureUtil, hasher: ClientHasher, h: RequestHeaders, clientId: string, now: int, later: int, fullUrl: string)
    requires IsI64(GenerateExpiry(now, 12))
    ensures var query := RewrittenQuery(u, clientId, GenerateExpiry(now, 12), EncodeUrlParam(fullUrl));
      && ProxyLine(u, clientId, now, fullUrl) == "/api/v1/proxy?" + query
      && Authenticate(u, hasher, later, h, Some(query)) ==
           (if later <= now + 43200 then Ok(ClientId(hasher, h)) else Err(Unauthorized))
      && UrlParam(Some(query)) == Some(EncodeUrlParam(fullUrl))
      && DecodedUrl(EncodeUrlParam(fullUrl)) == Ok(fullUrl)
  {
    var expiry := GenerateExpiry(now, 12);
    var encoded := EncodeUrlParam(fullUrl);
    UnpaddedAvoidsAmpersand(fullUrl);
    QueryReadsBack(u, clientId, expiry, encoded);
    ParseI64OfDecimal(expiry);
    DecodeUrlOfRewrite(fullUrl);
  }

  // ---- proxy_get ----

  /** What the upstream request gave: no answer at all, or a status, two headers and the body read. */
  datatype Upstream =
    | Unreachable(reason: string)
    | Answered(success: bool, contentType: Option<string>, contentEncoding: Option<string>, body: Result<seq<byte>, string>)

  /** zstd and gzip decompression; None where the data is not in that format. */
  type Decompressor = (ContentEncoding, seq<byte>) -> Option<seq<byte>>

  /** The upstream body as `proxy_get` reads it: decompressed for "zstd" and "gzip", as it is otherwise. */
  function Decompressed(contentEncoding: Option<string>, bytes: seq<byte>, decompressor: Decompressor): (r: Option<seq<byte>>)
    ensures contentEncoding != Some("zstd") && contentEncoding != Some("gzip") ==> r == Some(bytes)
  {
    if contentEncoding == Some("zstd") then decompressor(Zstd, bytes)
    else if contentEncoding == Some("gzip") then decompressor(Gzip, bytes)
    else Some(bytes)
  }

  /**
    A body this proxy compressed and labelled, read by the same rules, comes
    back as it was, given a decompressor that undoes the compressor.
  */
  lemma DecompressedOfCompressed(e: ContentEncoding, data: seq<byte>, compressor: Compressor, decompressor: Decompressor)
    requires Compress(e, data, compressor).Some?
    requires e != Uncompressed ==> decompressor(e, compressor(e, data).value) == Some(data)
    ensures Decompressed(AsHeaderValue(e), Compress(e, data, compressor).value, decompressor) == Some(data)
  {
  }

  /**
    `proxy_get` after authentication: decode and check the target, take the
    upstream answer, decompress it, and answer with the rewritten playlist or
    the (ranged) segment.
  */
  method ProxyGet(u: SignatureUtil, ops: UrlOps, clientId: string, now: int, retryNow: int,
                  urlParam: string, range: Option<string>, acceptEncoding: Option<string>,
                  upstream: Upstream, compressor: Compressor, decompressor: Decompressor)
    returns (r: Result<Response, Error>)
    ensures DecodedUrl(urlParam).Err? ==> r == Err(DecodedUrl(urlParam).error)
    ensures DecodedUrl(urlParam).Ok? && !IsHttpUrl(DecodedUrl(urlParam).value) ==>
      r == Err(BadRequest("Invalid URL format"))
    ensures r.Ok? ==>
      && DecodedUrl(urlParam).Ok? && IsHttpUrl(DecodedUrl(urlParam).value)
      && upstream.Answered? && upstream.success && upstream.body.Ok?
    ensures DecodedUrl(urlParam).Ok? && IsHttpUrl(DecodedUrl(urlParam).value) ==>
      match upstream
      case Unreachable(reason) => r == Err(InternalServerErrorWithContext("Request failed: " + reason))
      case Answered(success, contentType, contentEncoding, body) =>
        if !success then r == Err(BadRequest("Api returned an invalid response"))
        else if body.Err? then r == Err(InternalServerErrorWithContext("Failed to read response: " + body.error))
        else match Decompressed(contentEncoding, body.value, decompressor)
          case None => r == Err(InternalServerErrorWithContext("Failed to decompress response"))
          case Some(data) =>
            var ct := contentType.GetOr("");
            if IsPlaylist(ct, data) then
              match Utf8.Decode(data)
              case None => r == Err(InternalServerErrorWithContext("Invalid m3u8 encoding"))
              case Some(text) =>
                match ProcessM3u8WithRetry(u, ops, clientId, now, retryNow, text, DecodedUrl(urlParam).value)
                case Err(e) => r == Err(e)
                case Ok(body) => r == PlaylistResponse(body, acceptEncoding, compressor)
            else r == SegmentResponse(data, Contains(ct, "video/mp4"), range, acceptEncoding, compressor)
  {
    var target := DecodeUrl(urlParam);
    if target.Err? {
      return Err(target.error);
    }
    var targetUrl := target.value;
    if !("http://" <= targetUrl) && !("https://" <= targetUrl) {
      return Err(BadRequest("Invalid URL format"));
    }
    if upstream.Unreachable? {
      return Err(InternalServerErrorWithContext("Request failed: " + upstream.reason));
    }
    if !upstream.success {
      return Err(BadRequest("Api returned an invalid response"));
    }
    var contentType := upstream.contentType.GetOr("");
    var isMp4 := Contains(contentType, "video/mp4");
    if upstream.body.Err? {
      return Err(InternalServerErrorWithContext("Failed to read response: " + upstream.body.error));
    }
    var decompressed := Decompressed(upstream.contentEncoding, upstream.body.value, decompressor);
    if decompressed.None? {
      return Err(InternalServerErrorWithContext("Failed to decompress response"));
    }
    var data := decompressed.value;
    var isM3u8 := if isMp4 then false
      else Utf8.Encode("#EXT") <= data || Contains(contentType, "mpegurl") || Contains(contentType, "m3u8");
    if isM3u8 {
      var text := Utf8.Decode(data);
      if text.None? {
        return Err(InternalServerErrorWithContext("Invalid m3u8 encoding"));
      }
      var processed := ProcessM3u8WithRetry(u, ops, clientId, now, retryNow, text.value, targetUrl);
      if processed.Err? {
        return Err(processed.error);
      }
      r := BuildPlaylistResponse(processed.value, acceptEncoding, compressor);
    } else {
      r := BuildSegmentResponse(data, isMp4, range, acceptEncoding, compressor);
    }
  }
}
