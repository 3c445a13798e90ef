# Reedstreams edge proxy: a Dafny model

This project models the decision logic of the Reedstreams backend, an HTTP
reverse proxy for HLS sports streams written in Rust. It covers the
following parts, and proves what each promises:

- **Signed URLs.** `SignatureUtil` signs `client_id ++ expiry ++ url` with
  HMAC-SHA256 and checks the expiry and the hex signature. The edge
  authentication extractor derives a client id from the client IP and user
  agent, then accepts or rejects a request from its `sig`, `exp`, `client`
  and `url` query parameters.
- **The proxy controller.**
  - `Accept-Encoding` negotiation.
  - Decoding of the `url` parameter: unpadded base64url, or a
    percent-encoded http(s) URL.
  - Playlist versus segment classification.
  - The `Range` decision.
  - The response headers and bodies.
  - The line-by-line playlist rewrite, which sends every media URI back
    through the proxy with a signed query.
  - `proxy_get` as a whole, once the upstream answer is given.
- **The ppvs.su provider service.** ROT-71, the base-128 varint writer and
  the protobuf field reader, the input checks and plaintext trimming of
  ChaCha20 decryption, and the game catalog: the one-hour staleness rule,
  the refresh decision, and the listing-to-games conversion.
- **The edge rate limiter.** Request counters, error counters and timeouts
  kept in Redis with expiries.
- **The cookie service.** Its merge of stored cookies with `Set-Cookie`
  lines.
- **The proxy cache.** Key namespacing and TTLs, cache reads and writes,
  the in-flight lookup, and the sequential part of segment prefetching.

Redis is modelled once, in `RedisStore`. A map from key to `Entry(value,
expiresAt)` gives the commands the services use (GET, TTL, INCR, EXPIRE,
SET EX, DEL). A clock `now` decides liveness, and an `up` flag stands for
"the store answered". Each service is a class over one shared `Store`, and
its methods state the new store as a function of the old one. Lemmas
about those functions carry the properties: read-back after write, TTL
boundaries, which keys are touched, and round trips.

Foreign code is passed in as function-typed parameters and is not
modelled. This covers:

- HMAC-SHA256 (`Hmac`), SHA-256 of a URL (`UrlHash`) and `DefaultHasher`
  (`ClientHasher`);
- the ChaCha20 keystream (`Keystream`);
- zstd/gzip (`Compressor`, `Decompressor`);
- `url::Url` parsing and joining (`UrlOps`).

The upstream HTTP answer is a value (`Upstream`, `ApiResponse`,
`DetailResponse`). UTF-8 (`as_bytes`, `from_utf8`, `from_utf8_lossy`),
base64 (standard and URL-safe, with canonical decoding), percent-encoding
and the string functions the code calls (`trim`, `split`, `split_once`,
`find`, integer parsing and printing) are written out in full in `Utf8`,
`Base64`, `PercentEncoding` and `Text`.

Source paths below are relative to the repository root.

## Model

| member | source | states |
|---|---|---|
| SignatureUtils.SignatureUtil.GenerateSignature | src/server/utils/signature_utils.rs:19-31 | The signature is the lower-case hex of the tag, two characters per tag byte. It is a function of secret, client, expiry and url alone, so it is deterministic. |
| SignatureUtils.SignatureUtil.VerifySignature | src/server/utils/signature_utils.rs:33-59 | Accepted iff `now <= expiry` and the presented text equals the generated signature. The OR-of-XOR fold is exact equality. |
| SignatureUtils.DiffBits | src/server/utils/signature_utils.rs:52-58 | The fold of `acc OR (x XOR y)` over equal-length byte strings is 0 iff the start value is 0 and the strings are equal. |
| SignatureUtils.XorZero | src/server/utils/signature_utils.rs:55 | `x ^ y == 0` iff `x == y`. |
| SignatureUtils.OrZero | src/server/utils/signature_utils.rs:55 | `x OR y == 0` iff both are 0. |
| SignatureUtils.ValidUntilExpiry | src/server/utils/signature_utils.rs:45-68 | A signature issued with `generate_expiry(hours)` verifies exactly until `issued + hours * 3600`, inclusive (tests/signature_utils_should.rs:14-24, 33-44). |
| SignatureUtils.OddLengthRejected | src/server/utils/signature_utils.rs:52 | A presented signature of odd length, such as "invalid", is never accepted (tests/signature_utils_should.rs:26-27). |
| SignatureUtils.OtherClientRejected | src/server/utils/signature_utils.rs:19-58 | One client's signature does not verify for a client whose tag differs. |
| SignatureUtils.SeparatorlessCollision | src/server/utils/signature_utils.rs:20 | The message has no separators, so ("ab1", 23) and ("ab", 123) get the same signature for any url. |
| EdgeAuthentication.GenerateClientId | src/server/extractors/edge_authentication_extractor.rs:24-29 | The client id is non-empty lower-case hex, and the number it spells is the hash of the IP and then the user agent, each "unknown" when missing. |
| EdgeAuthentication.UnknownDefaults | src/server/extractors/edge_authentication_extractor.rs:24-29 | A missing IP or user agent gives the same id as the text "unknown". |
| EdgeAuthentication.ClientIp | src/server/extractors/edge_authentication_extractor.rs:52-70 | Precedence: exactly the first comma-separated `x-forwarded-for` entry, trimmed (so comma-free, without outer whitespace, a substring of the header); else `x-real-ip`; else the peer address. None only when all three are absent. |
| EdgeAuthentication.ParseSignedUrlQuery | src/server/extractors/edge_authentication_extractor.rs:79-85 | A `sig`, `exp` or `client` field given twice makes the whole query empty. Otherwise each field given once has exactly its decoded value, and every value found is a decoded pair of the query; a field not given is None. |
| EdgeAuthentication.FormPairsOfNonEmpty | src/server/extractors/edge_authentication_extractor.rs:79-85 | A query with no empty segment gives one decoded pair per segment, in order. |
| EdgeAuthentication.ValuesOfSingle | src/server/extractors/edge_authentication_extractor.rs:79-85 | A name given once has exactly that one value. |
| EdgeAuthentication.ValuesOfAbsent | src/server/extractors/edge_authentication_extractor.rs:79-85 | A name never given has no value. |
| EdgeAuthentication.UrlSegment | src/server/extractors/edge_authentication_extractor.rs:94-105 | The value is the raw text after "url=" of the first segment that starts with "url=". None only when no segment starts with "url=". |
| EdgeAuthentication.UrlParam | src/server/extractors/edge_authentication_extractor.rs:94-101 | The `url` value is the rest of an '&'-separated segment of the raw query that starts with "url=". None when there is no query, or no segment starts with "url=". |
| EdgeAuthentication.ClientId | src/server/extractors/edge_authentication_extractor.rs:72 | The derived id is non-empty lower-case hex spelling the hash of the client IP (as `ClientIp` picks it) and the user agent, each "unknown" when missing. |
| EdgeAuthentication.ValuesOfRepeated | src/server/extractors/edge_authentication_extractor.rs:79-85 | A name has two or more values exactly when two pairs give it: the case where deserialising the query fails. |
| EdgeAuthentication.Authenticate | src/server/extractors/edge_authentication_extractor.rs:79-129 | Rejected (always `Unauthorized`) iff `sig` and `exp` are both present and one of these holds: `exp` is not an i64, there is no `url=` segment, `now > exp`, or `sig` is not the signature for (query `client` or else the derived id, exp, raw url text). Otherwise accepted, always with the derived id. |
| ProxyController.FromAcceptEncoding | src/server/api/proxy_controller.rs:33-51 | Zstd iff the header is present, not identity-only, and contains "zstd". Gzip iff the same holds with "gzip" and without "zstd". Otherwise none. |
| ProxyController.AsHeaderValue | src/server/api/proxy_controller.rs:53-59 | No header value exactly for the uncompressed encoding. A value that is present selects the same encoding again. |
| ProxyController.Compress | src/server/api/proxy_controller.rs:61-71 | Compression with no encoding is the identity. |
| ProxyController.PadToQuantum | src/server/api/proxy_controller.rs:605-608 | Appends at most three '=' and reaches a byte length that is a multiple of 4. |
| ProxyController.PadWithEquals | src/server/api/proxy_controller.rs:604-608 | The `while` loop ends with exactly the padding `PadToQuantum` describes. |
| ProxyController.PadCountExact | src/server/api/proxy_controller.rs:605-608 | Among the counts up to the padding count, only the padding count reaches a multiple of 4, so the loop stops at the first one. |
| ProxyController.DecodedUrl | src/server/api/proxy_controller.rs:595-623 | Every failure is `BadRequest("Invalid URL encoding")`. An http(s) parameter succeeds iff it percent-decodes (as `urlencoding::decode`, malformed escapes kept and rescanned) to UTF-8, and gives that text. Anything else succeeds iff it base64url-decodes after padding to UTF-8, and gives that text. |
| ProxyController.DecodeUrl | src/server/api/proxy_controller.rs:595-623 | The method (padding loop, base64url, UTF-8) computes `DecodedUrl`. |
| ProxyController.RepadRewrite | src/server/api/proxy_controller.rs:605-608 | The padding loop restores exactly the '=' the rewrite trimmed. See also src/server/api/proxy_controller.rs:799-802. |
| ProxyController.RewriteParamNotHttp | src/server/api/proxy_controller.rs:596 | A rewritten `url` parameter never takes the http(s) branch of `decode_url`. See also src/server/api/proxy_controller.rs:799-802. |
| ProxyController.DecodeUrlOfRewrite | src/server/api/proxy_controller.rs:595-623 | `decode_url` of the rewrite's unpadded base64url encoding of a URL gives that URL back. See also src/server/api/proxy_controller.rs:799-802. |
| ProxyController.DecodeUrlOfPlainHttp | src/server/api/proxy_controller.rs:596-602 | An http(s) URL without '%' decodes to itself. |
| ProxyController.PlaylistByContentType | src/server/api/proxy_controller.rs:340-346 | An HLS content type makes a playlist whatever the body is. "video/mp4" never does. |
| ProxyController.IsPlaylist | src/server/api/proxy_controller.rs:340-346 | A "video/mp4" content type is never a playlist. Otherwise an "mpegurl" or "m3u8" content type, or a body starting with "#EXT", makes one. |
| ProxyController.PlaylistByBody | src/server/api/proxy_controller.rs:340-346 | With a neutral content type, a body starting "#EXTM3U" is a playlist. |
| ProxyController.RangeOf | src/server/api/proxy_controller.rs:375-411 | A served range always satisfies `start <= end < total`. |
| ProxyController.RangeOfDecimal | src/server/api/proxy_controller.rs:375-392 | "bytes=a-b" with decimal parts comes down to the two parts. |
| ProxyController.ClosedRange | src/server/api/proxy_controller.rs:375-411 | "bytes=a-b" with `a <= b < total` selects exactly `a..=b`. |
| ProxyController.OpenRange | src/server/api/proxy_controller.rs:375-411 | "bytes=a-" with `a < total` selects `a..=total-1`. |
| ProxyController.SuffixRangeServesPrefix | src/server/api/proxy_controller.rs:385-393 | "bytes=-n" is read with start 0: the first n+1 bytes (clamped), not the last n. |
| ProxyController.RangePastEnd | src/server/api/proxy_controller.rs:396-411 | A range starting at or after the end of the body is ignored (200, full body). |
| ProxyController.ContentLengthReadsBack | src/server/api/proxy_controller.rs:150-154 | The `Content-Length` value reads back as the length of the body sent. See also src/server/api/proxy_controller.rs:491-500. |
| ProxyController.WithEncoding | src/server/api/proxy_controller.rs:147-149 | `Content-Encoding` is added exactly for a compressed body. |
| ProxyController.PlaylistResponse | src/server/api/proxy_controller.rs:97-157 | Fails (with "Failed to compress response") iff compression fails. Otherwise: status 200, the compressed body, exactly the playlist content type, `no-cache`, a matching `Content-Length` and `Content-Encoding` iff compressed. An uncompressed request gets the text's bytes unchanged. |
| ProxyController.BuildPlaylistResponse | src/server/api/proxy_controller.rs:97-157 | The successive header inserts build `PlaylistResponse`. |
| ProxyController.SegmentResponse | src/server/api/proxy_controller.rs:375-500 | A served range gives 206 with exactly `full[start..=end]` (length end-start+1), `Content-Range` "bytes start-end/total" and no compression. Otherwise 200 with the whole body, compressed as negotiated. `Content-Length` always equals the body sent. |
| ProxyController.PartialResponse | src/server/api/proxy_controller.rs:413-454 | The 206 answer: the slice, its `Content-Range`, the segment headers, no `Content-Encoding`, a matching length. See also src/server/api/proxy_controller.rs:491-500. |
| ProxyController.WholeResponse | src/server/api/proxy_controller.rs:413-500 | The 200 answer: fails iff compression fails. Otherwise the compressed body, the encoding declared, no `Content-Range`, and a matching length. |
| ProxyController.SegmentResponseOfPartial | src/server/api/proxy_controller.rs:375-500 | A served range always yields the 206 answer, never an error. |
| ProxyController.SegmentResponseOfWhole | src/server/api/proxy_controller.rs:375-500 | Otherwise the 200 answer with the negotiated encoding. |
| ProxyController.SelectRange | src/server/api/proxy_controller.rs:375-411 | The bytes, status and `Content-Range` value the range decision picks. |
| ProxyController.BuildSegmentResponse | src/server/api/proxy_controller.rs:413-500 | The successive header inserts build `SegmentResponse`. |
| ProxyController.BasePath | src/server/api/proxy_controller.rs:767-772 | "scheme://host" followed by the prefix of the path that runs up to and including its last '/'. A path without '/' contributes its first character. |
| ProxyController.KeptLines | src/server/api/proxy_controller.rs:776-778 | No kept line is a "##" comment, and no line is added. |
| ProxyController.KeptLinesAppend | src/server/api/proxy_controller.rs:776-778 | The filter distributes over concatenation, so surviving lines keep their order. |
| ProxyController.KeptLine | src/server/api/proxy_controller.rs:778 | A line survives iff its trim does not start with "##". |
| ProxyController.RewriteLine | src/server/api/proxy_controller.rs:779-817 | Blank lines and '#' lines are kept verbatim. An absolute http(s) line becomes the signed proxy line for its trimmed text. Any other line is resolved against the base path: a resolved URL becomes its proxy line, and an unresolvable one is kept verbatim. A line without '\n' gives a line without '\n'. |
| ProxyController.RewrittenLines | src/server/api/proxy_controller.rs:776-818 | One output line per kept line, each rewritten on its own. |
| ProxyController.ProcessM3u8 | src/server/api/proxy_controller.rs:756-821 | Fails iff the target URL does not parse, with "Invalid base URL: …". Otherwise the kept (non-"##") lines of the text, each rewritten against the target's base path, joined with "\n". |
| ProxyController.ProxyLine | src/server/api/proxy_controller.rs:799-816 | A rewritten line starts "/api/v1/proxy?url=". |
| ProxyController.RewrittenQuery | src/server/api/proxy_controller.rs:810-816 | The query starts with the `url` field. |
| ProxyController.ProcessM3u8WithRetry | src/server/api/proxy_controller.rs:733-754 | Fails iff the first attempt fails, and returns what the first attempt returns: the only failure does not depend on the clock, so the retry fails the same way. |
| ProxyController.ProcessM3u8SplitsIntoLines | src/server/api/proxy_controller.rs:776-820 | Splitting the rewritten playlist at '\n' gives back exactly the rewritten kept lines; with none kept the playlist is empty. |
| ProxyController.ProxyLineHasNoNewline | src/server/api/proxy_controller.rs:799-816 | A proxy line holds no '\n', so each rewritten line stays one line. |
| ProxyController.QueryReadsBack | src/server/api/proxy_controller.rs:810-816 | The extractor reads back exactly the rewrite's `sig`, `exp` and `client` (percent-decoded), and the raw `url` text. See also src/server/extractors/edge_authentication_extractor.rs:79-105. |
| ProxyController.QueryPairs | src/server/api/proxy_controller.rs:810-816 | The rewritten query splits into five pairs: url, schema, sig, exp, and the decoded client. |
| ProxyController.ProxyLineAccepted | src/server/api/proxy_controller.rs:799-816 | A rewritten line is accepted by the extractor at any time up to `now + 43200` and rejected after. Its `url` decodes back to the URL the playlist named. See also src/server/extractors/edge_authentication_extractor.rs:88-129. |
| ProxyController.Decompressed | src/server/api/proxy_controller.rs:312-335 | A body not marked "zstd" or "gzip" is used as read. |
| ProxyController.DecompressedOfCompressed | src/server/api/proxy_controller.rs:53-71 | For a codec pair that round-trips, a body compressed with the negotiated encoding and labelled with `as_header_value` decompresses back. See also src/server/api/proxy_controller.rs:312-335. |
| ProxyController.ProxyGet | src/server/api/proxy_controller.rs:159-502 | The full decision. A bad encoding gives `BadRequest("Invalid URL encoding")`, a non-http target `BadRequest("Invalid URL format")`, and then in turn: the failure of the request, of the status check, of the body read, of decompression, and of UTF-8 (for playlists). A playlist gets the rewritten `PlaylistResponse`; anything else gets `SegmentResponse` with the mp4 cache policy. |
| PpvsuServices.Rot71Char | src/server/services/ppvsu_services.rs:28-35 | Codes 33..=126 map to `33 + (c - 33 + 71) % 94` and stay in range. Other characters are unchanged. |
| PpvsuServices.Rot71Decode | src/server/services/ppvsu_services.rs:25-37 | The length is kept and each character is rotated on its own. |
| PpvsuServices.Rot71Inverse | src/server/services/ppvsu_services.rs:25-37 | ROT-71 is a bijection, undone by rotating by 23. |
| PpvsuServices.Varint | src/server/services/ppvsu_services.rs:39-45 | Every appended byte but the last has bit 0x80 set, and the last is below 0x80. |
| PpvsuServices.EncodeVariant | src/server/services/ppvsu_services.rs:39-45 | The loop appends `Varint(n)` and leaves `out` as its prefix. |
| PpvsuServices.FetchRequestBody | src/server/services/ppvsu_services.rs:309-313 | The body is tag 0x0a, the varint of the path's byte length, and the path's bytes. |
| PpvsuServices.VarintValue | src/server/services/ppvsu_services.rs:39-45 | The seven-bit groups of `Varint(n)` spell `n`. |
| PpvsuServices.LengthOfGroups | src/server/services/ppvsu_services.rs:59-72 | The length loop over a run of groups adds their value at the current shift. |
| PpvsuServices.ReadsVarint | src/server/services/ppvsu_services.rs:39-45 | The length loop decodes `encode_variant(n)` back to `n` and stops right after it. See also src/server/services/ppvsu_services.rs:59-72. |
| PpvsuServices.ReadLength | src/server/services/ppvsu_services.rs:59-72 | The inner loop computes `LengthFrom`. |
| PpvsuServices.ParseProtobuf | src/server/services/ppvsu_services.rs:50-95 | The method computes `Parse`. |
| PpvsuServices.FieldOverrun | src/server/services/ppvsu_services.rs:74-76 | A field whose length overruns the buffer ends parsing with the fields found so far. |
| PpvsuServices.KeepsLast | src/server/services/ppvsu_services.rs:81-89 | Field by field, each of tags 0x0a and 0x12 ends with the text of its last field. Other tags are skipped. |
| PpvsuServices.ParseIsLastFields | src/server/services/ppvsu_services.rs:50-95 | `Err` iff no complete 0x0a field. Otherwise the lossy text of the last 0x0a field and of the last 0x12 field, if any. |
| PpvsuServices.FetchBodyParses | src/server/services/ppvsu_services.rs:50-95 | The posted body parses back to the stream path. See also src/server/services/ppvsu_services.rs:309-313. |
| PpvsuServices.SingleField | src/server/services/ppvsu_services.rs:50-95 | A message holding only field 1 yields that field's text. |
| PpvsuServices.PrintablePrefix | src/server/services/ppvsu_services.rs:137-140 | The longest prefix of characters in 0x20..=0x7E. |
| PpvsuServices.TrimPlaintext | src/server/services/ppvsu_services.rs:131-142 | The result is a prefix of the plaintext. It ends right after the first ".m3u8" when there is one, and is the printable-ASCII prefix otherwise. |
| PpvsuServices.Chacha20Decrypt | src/server/services/ppvsu_services.rs:101-143 | Fails iff the input is shorter than 12 bytes or the key is not 32 bytes, with each message. Otherwise exactly the trimmed (`TrimPlaintext`) lossy plaintext of the keystream over bytes 12.. with nonce bytes ..12, a prefix of that plaintext. |
| PpvsuServices.DecryptStreamUrl | src/server/services/ppvsu_services.rs:150-171 | A parse failure is passed on. Field 1 that does not base64-decode after ROT-71 gives "failed to base64 decode after ROT-71: ". Otherwise it fails iff the decoded bytes are under 12 or the key is not 32 bytes, and succeeds with the trimmed lossy plaintext of the keystream over the decoded bytes. |
| PpvsuServices.DecryptsProviderBlob | src/server/services/ppvsu_services.rs:150-171 | A blob built the provider's way from a URL decrypts back to that URL, trimmed. |
| PpvsuServices.CategoryGamesExactly | src/server/services/ppvsu_services.rs:473-491 | A category gives exactly one game per stream with an iframe, with the category name, the iframe as link and the cache time. |
| PpvsuServices.ListingGamesExactly | src/server/services/ppvsu_services.rs:471-491 | A game comes from a listing iff some category holds its stream with an iframe. |
| PpvsuServices.ListingGamesShareCacheTime | src/server/services/ppvsu_services.rs:471-491 | All games of one fetch share its cache time. |
| PpvsuServices.Catalog.Lookup | src/database/stream/model.rs:82 | The game found has the id asked for, and none is found only when no cached game has it. |
| PpvsuServices.Catalog.StoreGame | src/database/stream/model.rs:81 | Upserts by id and keeps one game per id. |
| PpvsuServices.Catalog.ClearCache | src/server/services/ppvsu_services.rs:735-745 | No games and no last-fetch time. |
| PpvsuServices.Catalog.SetLastFetchTime | src/database/stream/model.rs:86 | Records the time and keeps the games. |
| PpvsuServices.Catalog.FetchAndCacheGames | src/server/services/ppvsu_services.rs:379-573 | An upstream error or `success == false` changes nothing and fails. Otherwise it returns `ListingGames` in listing order and stores each. |
| PpvsuServices.Catalog.CacheCategory | src/server/services/ppvsu_services.rs:474-490 | The inner loop appends and stores the category's games. |
| PpvsuServices.Catalog.PushGame | src/server/services/ppvsu_services.rs:476-488 | One listed game is appended and stored. |
| PpvsuServices.Catalog.GetGamesWithRefresh | src/server/services/ppvsu_services.rs:576-615 | A fresh last fetch returns the cached games and changes nothing. A stale or missing one clears, fetches and (on success) records `currentTime`. A failed fetch leaves the catalog empty. |
| PpvsuServices.Catalog.RefetchGame | src/server/services/ppvsu_services.rs:207-272 | The outcome is `RefetchOutcome` (error, `success == false`, no sources, or the game from the first source). A game is stored only on success. |
| PpvsuServices.Catalog.GetGameById | src/server/services/ppvsu_services.rs:695-733 | A cached game is served iff it is not stale. Otherwise the refetch result, with failure turned into `NotFound`. See also src/server/services/ppvsu_services.rs:756-759. |
| PpvsuServices.FindGame | src/database/stream/model.rs:82 | The game found has the id, and None means no game has it. |
| PpvsuServices.IndexOfId | src/database/stream/model.rs:82 | The first index holding the id. |
| PpvsuServices.UpsertContents | src/database/stream/model.rs:81 | After storing `g`, `g` is present, every other game has the same or another id, and every game with another id stays. |
| PpvsuServices.UpsertKeepsIds | src/database/stream/model.rs:81 | Storing a game keeps at most one game per id. |
| PpvsuServices.LookupAfterStore | src/database/stream/model.rs:81-82 | Looking up a stored game's id finds it. |
| RateLimitServices.KeysApart | src/server/services/rate_limit_services.rs:89-99 | The three key kinds never meet, and each key names one client. |
| RateLimitServices.CheckBounds | src/server/services/rate_limit_services.rs:104-150 | A failed store gives `Allowed(0)` and leaves the store unchanged. `TimedOut` iff a timeout is live, and then nothing changes. `retry_after >= 1` when limited, and `remaining <= max`. |
| RateLimitServices.TimedOutFirst | src/server/services/rate_limit_services.rs:104-110 | A timed-out client gets its reason and TTL, and its counter is not incremented. |
| RateLimitServices.CheckCounts | src/server/services/rate_limit_services.rs:115-139 | Without a timeout: the counter becomes n+1, expires one window after now, and the verdict is limited iff `n+1 > max`. |
| RateLimitServices.CheckTouchesOnlyCounter | src/server/services/rate_limit_services.rs:112-121 | A check changes no key but the client's counter. |
| RateLimitServices.ChecksWithinWindow | src/server/services/rate_limit_services.rs:115-139 | Requests each less than a window apart are counted on, so the k-th gets the verdict for count n+k. |
| RateLimitServices.WindowLimit | src/server/services/rate_limit_services.rs:115-139 | Starting from no counter, the first `max` requests are allowed with `max - k` left, and the next is limited for a full window. |
| RateLimitServices.FiveHundredPerWindow | src/server/services/rate_limit_services.rs:22-33 | With the defaults, the 500th request is allowed with 0 remaining and the 501st is limited for 60 s. See also src/server/services/rate_limit_services.rs:127-139. |
| RateLimitServices.ErrorCounted | src/server/services/rate_limit_services.rs:152-169 | Below the threshold, an error raises the count by one, expires it in 600 s, reads back through `get_error_count`, and leaves the timeout alone. |
| RateLimitServices.ErrorsTimeOut | src/server/services/rate_limit_services.rs:170-184 | At the threshold, the client is timed out with the "Automatic timeout: n errors in 600 seconds" reason for the timeout duration, and the next check answers `TimedOut`. See also src/server/services/rate_limit_services.rs:212-230. |
| RateLimitServices.TimeoutReadsBack | src/server/services/rate_limit_services.rs:192-230 | A written timeout reads back with its reason and remaining TTL until it runs out. |
| RateLimitServices.ClearEndsTimeout | src/server/services/rate_limit_services.rs:232-245 | Clearing reports true iff a live timeout existed, and afterwards no timeout is found. |
| RateLimitServices.ReadsCount | src/server/services/rate_limit_services.rs:247-261 | A counter written by INCR reads back as the same `u32`. |
| RateLimitServices.EdgeRateLimitService.CheckRateLimit | src/server/services/rate_limit_services.rs:104-150 | Returns the verdict and leaves the store `CheckOutcome` gives. |
| RateLimitServices.EdgeRateLimitService.RecordError | src/server/services/rate_limit_services.rs:152-190 | The store becomes `AfterRecordError`. |
| RateLimitServices.EdgeRateLimitService.TimeoutUser | src/server/services/rate_limit_services.rs:212-230 | The store becomes `AfterTimeout`: SET EX of the reason, and nothing changes on failure. |
| RateLimitServices.EdgeRateLimitService.ClearTimeout | src/server/services/rate_limit_services.rs:232-245 | The DEL and its reply, `false` on store failure. |
| RateLimitServices.EdgeRateLimitService.IsExempt | src/server/services/rate_limit_services.rs:263-266 | No client is exempt. |
| RedisStore.IncrCounts | src/server/services/rate_limit_services.rs:115-121 | INCR succeeds iff the counter is an integer and stays in i64. Then it reads back n+1, keeps a live key's TTL (or has none), and touches no other key. See also src/server/services/rate_limit_services.rs:156-161. |
| RedisStore.SetExHolds | src/server/services/cookie_services.rs:101-102 | After SET EX, the key reads the value for exactly `seconds` seconds, with the matching TTL. |
| RedisStore.ExpireHolds | src/server/services/rate_limit_services.rs:118 | EXPIRE with a positive time keeps the value and sets the remaining life. See also src/server/services/rate_limit_services.rs:159. |
| RedisStore.IntegerRoundTrip | src/server/services/rate_limit_services.rs:251 | The text GET returns for a counter parses back as the same integer. |
| CookieServices.NoCookies | src/server/services/cookie_services.rs:43-64 | `get_cookies` is None when the store fails or the key is missing. |
| CookieServices.HeaderReadsBack | src/server/services/cookie_services.rs:9 | The written header reads back under "proxy_cookies:{domain}" for exactly 86400 s. See also src/server/services/cookie_services.rs:29-31, 99-102. |
| CookieServices.MergedNames | src/server/services/cookie_services.rs:86-96 | After the merge, a name is in the jar iff it was stored or comes from a `Set-Cookie` line with '='. |
| CookieServices.SetCookieParts | src/server/services/cookie_services.rs:89-95 | Everything after the first ';' is dropped, lines without '=' are skipped, and name and value are trimmed. |
| CookieServices.SetCookieOverrides | src/server/services/cookie_services.rs:86-96 | A `Set-Cookie` line overrides the stored and earlier cookies of its name. The last one wins. |
| CookieServices.StoredCookieKept | src/server/services/cookie_services.rs:77-96 | A stored cookie no `Set-Cookie` line names is kept. |
| CookieServices.StoredSegmentWins | src/server/services/cookie_services.rs:77-83 | Stored segments are keyed by the untrimmed text before '=', and the last segment of a name wins. |
| CookieServices.HeaderRoundTrip | src/server/services/cookie_services.rs:99 | For a ';'-free, well-keyed jar, the joined header splits back into its values, and re-reading it gives the same jar. |
| CookieServices.JarSurvivesStore | src/server/services/cookie_services.rs:66-117 | With a stored header that reads back well-keyed and `Set-Cookie` names without whitespace, the merged jar written by `store_cookies` is well-keyed again and reads back unchanged until it expires, so the property carries from store to store. |
| CookieServices.CollectSegments | src/server/services/cookie_services.rs:77-83 | The first loop builds `StoredJar`. |
| CookieServices.MergeSetCookies | src/server/services/cookie_services.rs:86-96 | The second loop inserts the `Set-Cookie` puts in order. |
| CookieServices.WalkJar | src/server/services/cookie_services.rs:99 | The values in some order that lists each name once. |
| CookieServices.CookieService.StoreCookies | src/server/services/cookie_services.rs:66-117 | An empty slice changes nothing. Otherwise the store holds the join, in some walk order, of the merged jar under the domain's key for 86400 s (unchanged if the store fails). |
| ProxyCacheServices.KeysApart | src/server/services/proxy_cache_services.rs:60-66 | A playlist key never equals a segment key, for any two URLs. |
| ProxyCacheServices.KeysFollowHash | src/server/services/proxy_cache_services.rs:54-66 | Two URLs share a key iff they share a hash. |
| ProxyCacheServices.NamespacesApart | src/server/services/proxy_cache_services.rs:60-66 | Cache keys never collide with cookie or rate-limit keys. See also src/server/services/cookie_services.rs:29-31; src/server/services/rate_limit_services.rs:89-99. |
| ProxyCacheServices.CachedWhenDown | src/server/services/proxy_cache_services.rs:144-171 | A failed store reads as `(None, None)`. |
| ProxyCacheServices.PlaylistReadsBack | src/server/services/proxy_cache_services.rs:12 | A cached playlist reads back for exactly 10 s, and the segment entry is undisturbed. See also src/server/services/proxy_cache_services.rs:144-187. |
| ProxyCacheServices.SegmentReadsBack | src/server/services/proxy_cache_services.rs:13 | Cached segment bytes read back for exactly 300 s, and the playlist entry is undisturbed. See also src/server/services/proxy_cache_services.rs:144-171, 189-204. |
| ProxyCacheServices.Fetched | src/server/services/proxy_cache_services.rs:100-124 | Something is cached only for an answered, successful, fully read upstream. |
| ProxyCacheServices.UncompressedCachedAsIs | src/server/services/proxy_cache_services.rs:106-124 | A body not marked "zstd" or "gzip" is cached as read. |
| ProxyCacheServices.UncachedExactly | src/server/services/proxy_cache_services.rs:257-277 | A URL is fetched iff it was asked for and its segment key is absent. |
| ProxyCacheServices.FetchedAllCaches | src/server/services/proxy_cache_services.rs:127-131 | A URL fetched successfully, whose hash no other fetched URL shares, reads back its bytes for 300 s. See also src/server/services/proxy_cache_services.rs:295-309. |
| ProxyCacheServices.FetchedAllKeepsOthers | src/server/services/proxy_cache_services.rs:127-131 | The fetches touch no key but the segment keys of the URLs fetched. |
| ProxyCacheServices.PrefetchCaches | src/server/services/proxy_cache_services.rs:252-329 | After a prefetch, every uncached URL that fetched successfully is cached. |
| ProxyCacheServices.PrefetchKeepsOthers | src/server/services/proxy_cache_services.rs:252-329 | A prefetch changes no key but the segment keys of its URLs. |
| ProxyCacheServices.ProxyCacheService.CacheM3u8 | src/server/services/proxy_cache_services.rs:173-187 | SET EX of the text for 10 s. A failure changes nothing. |
| ProxyCacheServices.ProxyCacheService.CacheSegment | src/server/services/proxy_cache_services.rs:189-204 | SET EX of the bytes for 300 s. A failure changes nothing. |
| ProxyCacheServices.ProxyCacheService.WaitForInflight | src/server/services/proxy_cache_services.rs:206-250 | A URL with no in-flight entry, a wait that times out, or a failed store give None. Otherwise exactly the segment the store then holds under the URL's key. |
| ProxyCacheServices.ProxyCacheService.FetchAndCacheSegment | src/server/services/proxy_cache_services.rs:69-139 | Ok iff the upstream answered successfully and the body was read and decompressed. A failure writes nothing; a success writes the bytes for 300 s. |
| ProxyCacheServices.ProxyCacheService.FilterUncached | src/server/services/proxy_cache_services.rs:257-277 | The URLs whose segment key is absent, in order. |
| ProxyCacheServices.ProxyCacheService.Register | src/server/services/proxy_cache_services.rs:287-293 | Every uncached URL gets an in-flight entry. |
| ProxyCacheServices.ProxyCacheService.FetchEach | src/server/services/proxy_cache_services.rs:295-321 | Each URL is fetched, cached and removed from the in-flight map. |
| ProxyCacheServices.ProxyCacheService.PrefetchSegments | src/server/services/proxy_cache_services.rs:252-329 | An empty list or a failed store changes nothing. Otherwise exactly the uncached URLs are fetched and cached, and none of them is left in flight. |
| Text.TrimStart | src/server/api/proxy_controller.rs:780 | Drops exactly the leading whitespace: what remains is a suffix, starting with a non-whitespace character or empty. |
| Text.TrimEnd | src/server/api/proxy_controller.rs:780 | Drops exactly the trailing whitespace: what remains is a prefix, ending with a non-whitespace character or empty. |
| Text.Trim | src/server/api/proxy_controller.rs:778-780 | The result neither starts nor ends with whitespace, and it is a slice of the input with only whitespace cut on either side. See also src/server/extractors/edge_authentication_extractor.rs:57. |
| Text.TrimEndMatches | src/server/api/proxy_controller.rs:801 | Drops exactly the trailing run of `c`, leaving a prefix that does not end in `c`. |
| Text.TrimEndMatchesOf | src/server/api/proxy_controller.rs:801 | Trimming `u + v` removes exactly the run `v` of `c` that follows `u`. |
| Text.Find | src/server/api/proxy_controller.rs:340-346 | The first position where the pattern occurs, and None iff it occurs nowhere. |
| Text.BeforeFirst | src/server/services/cookie_services.rs:89 | The first piece of a `split`: a prefix without the separator, followed by it unless it is the whole text. See also src/server/extractors/edge_authentication_extractor.rs:56. |
| Text.SplitOnce | src/server/services/cookie_services.rs:79 | None iff the separator is absent. Otherwise the text is the separator-free head, the separator, and the rest. See also src/server/services/cookie_services.rs:92. |
| Text.Split | src/server/api/proxy_controller.rs:381 | Never empty, starts with the text before the first separator, and no piece holds the separator. See also src/server/extractors/edge_authentication_extractor.rs:98. |
| Text.SplitWithout | src/server/extractors/edge_authentication_extractor.rs:56 | Text without the separator splits into itself alone. |
| Text.SplitJoin | src/server/api/proxy_controller.rs:820 | Joining pieces that lack the separator and splitting again gives the pieces back. |
| Text.SplitStrJoin | src/server/services/cookie_services.rs:78 | The same round trip for the "; " separator of the cookie header. See also src/server/services/cookie_services.rs:99. |
| Text.Lines | src/server/api/proxy_controller.rs:777 | Empty iff the text is empty, and no line holds a newline. The lines are exactly the '\n'-separated pieces, each but the last with a final '\r' cut, and a final empty piece dropped (`LinesAsSplit`). |
| Text.LinesAsSplit | src/server/api/proxy_controller.rs:777 | `lines` is `split('\n')` with the '\r' before each '\n' cut and a final empty piece dropped. |
| Text.LinesOfJoin | src/server/api/proxy_controller.rs:777 | `lines` undoes joining with "\n" lines that hold no '\n', no '\r' before a separator, and no final empty line. See also src/server/api/proxy_controller.rs:820. |
| Text.LowerHexValueOfNatToHex | src/server/extractors/edge_authentication_extractor.rs:28 | The digits `{:x}` prints spell the number printed. |
| Text.NatToDecimal | src/server/services/rate_limit_services.rs:180 | A non-empty run of decimal digits. |
| Text.ToDecimal | src/server/api/proxy_controller.rs:813 | Digits, with a leading '-' for a negative number. |
| Text.ParseI64 | src/server/extractors/edge_authentication_extractor.rs:89-92 | Only values in i64 parse. |
| Text.ParseI64OfDecimal | src/server/extractors/edge_authentication_extractor.rs:89-92 | The printed expiry parses back to the same i64. See also src/server/api/proxy_controller.rs:813. |
| Text.ParseUsize | src/server/api/proxy_controller.rs:383-390 | Only values up to the 64-bit maximum parse. |
| Text.ParseUsizeOfDecimal | src/server/api/proxy_controller.rs:383-390 | A `usize` printed in decimal parses back to itself. |
| Text.HexEncode | src/server/utils/signature_utils.rs:30 | Two lower-case hex digits per byte. |
| Text.HexEncodeInjective | src/server/utils/signature_utils.rs:30 | Different tags give different hex text. |
| Text.NatToHex | src/server/extractors/edge_authentication_extractor.rs:28 | Non-empty lower-case hex. |
| Utf8.EncodeInjective | src/server/utils/signature_utils.rs:52-58 | Different strings have different bytes, so comparing the bytes compares the strings. |
| PercentEncoding.Encode | src/server/api/proxy_controller.rs:815 | The output is ASCII of unreserved characters and '%' only. |
| PercentEncoding.DecodePlain | src/server/api/proxy_controller.rs:597 | Text without '%' decodes to itself. |
| EdgeAuthentication.FormPairs | src/server/extractors/edge_authentication_extractor.rs:79-85 | At most one pair per `&` segment. |
| EdgeAuthentication.ValuesOf | src/server/extractors/edge_authentication_extractor.rs:79-85 | Every value found belongs to a pair with that name. |
| PpvsuServices.Rot23Encode | src/server/services/ppvsu_services.rs:25-37 | The inverse rotation, one character at a time, keeping the length. |
| PpvsuServices.RotCharInverse | src/server/services/ppvsu_services.rs:28-35 | Per character, rotating by 71 and by 23 undo each other. |
| PpvsuServices.LengthFrom | src/server/services/ppvsu_services.rs:59-72 | The length loop never reads past the buffer. |
| PpvsuServices.LengthFromContinues | src/server/services/ppvsu_services.rs:63-70 | A byte with the continuation bit adds its low seven bits at the current shift and moves on by 7. |
| PpvsuServices.ListStep | src/server/services/ppvsu_services.rs:57-91 | A field that fits is read whole, and parsing resumes after it. |
| PpvsuServices.LastWith | src/server/services/ppvsu_services.rs:81-89 | The index of the last field with a tag, and None iff no field has it. |
| ProxyController.RangeOfParts | src/server/api/proxy_controller.rs:381-411 | A range built from the two parts satisfies `start <= end < total`. |
| ProxyController.SplitRange | src/server/api/proxy_controller.rs:381 | "a-b" with decimal parts splits into exactly a and b. |
| ProxyController.UnpaddedSymbols | src/server/api/proxy_controller.rs:799-802 | Every character of the rewrite's `url` parameter is a base64url symbol. |
| ProxyController.UnpaddedIsAscii | src/server/api/proxy_controller.rs:799-802 | The rewrite's `url` parameter is ASCII. |
| ProxyController.PadAscii | src/server/api/proxy_controller.rs:605-608 | For ASCII text the byte length the loop checks is the length, so it pads as base64 does. |
| ProxyController.SignedFieldsReadBack | src/server/api/proxy_controller.rs:810-816 | The extractor's query parser reads back exactly the written signature, expiry and client. See also src/server/extractors/edge_authentication_extractor.rs:79-85. |
| ProxyController.UrlReadsBack | src/server/api/proxy_controller.rs:810-816 | The extractor's `url=` lookup reads back exactly the written parameter. See also src/server/extractors/edge_authentication_extractor.rs:94-105. |
| ProxyController.ValuesOfFive | src/server/extractors/edge_authentication_extractor.rs:79-88 | In the five pairs of a rewritten query, `sig`, `exp` and `client` each have exactly their one value. |
| ProxyCacheServices.Uncached | src/server/services/proxy_cache_services.rs:257-277 | Keeps at most the URLs asked for. |
| RateLimitServices.RunChecks | src/server/services/rate_limit_services.rs:104-150 | One verdict per request of a run. |
| RateLimitServices.VerdictsAt | src/server/services/rate_limit_services.rs:127-139 | The k-th verdict of a run counts from the start count plus k. |
| CookieServices.TextsIn | src/server/services/cookie_services.rs:99 | The jar's values, one per name walked, in that order. |
| CookieServices.InsertAllLastWins | src/server/services/cookie_services.rs:77-96 | After a run of inserts, a name holds the value of its last put. |
| CookieServices.InsertAllUntouched | src/server/services/cookie_services.rs:77-96 | A name no put mentions keeps its value. |
| CookieServices.InsertAllKeys | src/server/services/cookie_services.rs:77-96 | A name is present after the inserts iff it was before or some put names it. |
| CookieServices.SetCookieRekeys | src/server/services/cookie_services.rs:86-96 | A stored `Set-Cookie` text reads back under its own name. |
| CookieServices.SpacedNameRekeyed | src/server/services/cookie_services.rs:78-95 | A `Set-Cookie` name with a space before its '=' is re-keyed: "a =1" is written under "a" (the name is trimmed) and read back under "a " (the stored segment is split untrimmed). |
| CookieServices.StoredJarWellKeyed | src/server/services/cookie_services.rs:77-83 | A header whose "; "-separated segments hold no ';' reads back as a jar in which every text is stored under its own name. |
| CookieServices.CookieKey | src/server/services/cookie_services.rs:29-31 | The key is "proxy_cookies:" followed by the domain, which can be read back from it. |
| CookieServices.CookiesOf | src/server/services/cookie_services.rs:43-64 | None for a failed store or a missing key. Otherwise the stored bytes as UTF-8 text, None when they are not UTF-8. |
| CookieServices.CookieService.GetCookies | src/server/services/cookie_services.rs:43-64 | The service reads its store as `CookiesOf` describes. |
| ProxyCacheServices.M3u8Key | src/server/services/proxy_cache_services.rs:60-62 | The key is in the "pcache:" namespace, with the URL's hash readable after "pcache:m3u8:". |
| ProxyCacheServices.SegmentKey | src/server/services/proxy_cache_services.rs:64-66 | The key is in the "pcache:" namespace, with the URL's hash readable after "pcache:seg:". |
| ProxyCacheServices.CachedOf | src/server/services/proxy_cache_services.rs:144-171 | A failed store, or a playlist entry that is not UTF-8, gives (None, None). Otherwise the playlist entry as text and the segment entry, each None when missing. |
| ProxyCacheServices.ProxyCacheService.GetCached | src/server/services/proxy_cache_services.rs:144-171 | The service reads its store as `CachedOf` describes. |
| RateLimitServices.RateLimitKey | src/server/services/rate_limit_services.rs:89-91 | The key is "edge_rate_limit:" followed by the client id, which can be read back from it. |
| RateLimitServices.ErrorCountKey | src/server/services/rate_limit_services.rs:93-95 | The key is "edge_error_count:" followed by the client id, which can be read back from it. |
| RateLimitServices.TimeoutKey | src/server/services/rate_limit_services.rs:97-99 | The key is "edge_timeout:" followed by the client id, which can be read back from it. |
| RateLimitServices.TimeoutOf | src/server/services/rate_limit_services.rs:192-210 | None for a failed store. A timeout is reported with the stored UTF-8 reason and its positive TTL, and a live UTF-8 reason with TTL left is always reported. |
| RateLimitServices.ErrorCountOf | src/server/services/rate_limit_services.rs:247-261 | The count fits in u32, and a positive count is the stored UTF-8 decimal under the client's key; a failed store counts 0. |
| RateLimitServices.EdgeRateLimitService.IsUserTimedOut | src/server/services/rate_limit_services.rs:192-210 | The service reads its store as `TimeoutOf` describes. |
| RateLimitServices.EdgeRateLimitService.GetErrorCount | src/server/services/rate_limit_services.rs:247-261 | The service reads its store as `ErrorCountOf` describes. |
| RateLimitServices.EdgeRateLimitService.SetExempt | src/server/services/rate_limit_services.rs:268-270 | Setting an exemption changes nothing: the client is still not exempt. |
| SignatureUtils.GenerateExpiry | src/server/utils/signature_utils.rs:61-68 | The expiry lies exactly `hours` whole hours after now, so later than now for a positive count. |
| PpvsuServices.CacheStaleAfterOneHour | src/server/services/ppvsu_services.rs:756-759 | A cache is fresh for exactly one hour after it was written and stays stale once stale. |
| PercentEncoding.MalformedEscapeRescanned | src/server/api/proxy_controller.rs:597 | A '%' that opens no escape is kept, and the bytes after it are still read as escapes: "%%41" is "%A" and "%4%41" is "%4A". |
| PercentEncoding.StrayPercentBeforeEscape | src/server/api/proxy_controller.rs:597 | "%%C3%A9" decodes to "%é". |
| CookieServices.EmptyHeaderJar | src/server/services/cookie_services.rs:77-83 | An empty stored header reads as an empty jar. |
| Utf8.DecodeEncode | src/server/services/ppvsu_services.rs:110 | Strict UTF-8 decoding of a string's bytes gives the string back. |
| Utf8.LossyEncode | src/server/services/ppvsu_services.rs:83 | Lossy decoding of well-formed bytes changes nothing. See also src/server/services/ppvsu_services.rs:132. |
| Base64.DecodeEncode | src/server/api/proxy_controller.rs:611-622 | Decoding an encoding gives the bytes back. |
| Base64.EncodeDecode | src/server/api/proxy_controller.rs:611-622 | Canonical decoding accepts only what encoding produces. |
| Base64.RepadUnpadded | src/server/api/proxy_controller.rs:799-802 | Re-padding the trimmed encoding restores it. |
| PercentEncoding.DecodeOfEncode | src/server/api/proxy_controller.rs:597 | Percent-decoding an encoding gives the string back. See also src/server/api/proxy_controller.rs:815. |
| PercentEncoding.FormComponentOfEncode | src/server/api/proxy_controller.rs:815 | Form decoding of `urlencoding::encode(s)` gives `s`. See also src/server/extractors/edge_authentication_extractor.rs:79-85. |

## Left out

- HTTP and server plumbing: reqwest requests and their headers (`apply_schema_headers` at src/server/api/proxy_controller.rs:627, and the header table of `fetch_and_cache_segment` at src/server/services/proxy_cache_services.rs:74-98), axum routing and extractor wiring, the `fetch_video_link` request, its video-link cache and its `island` header lookup. The decrypting part of `fetch_video_link` is `DecryptStreamUrl`, and the body it posts is `FetchRequestBody`.
- Foreign primitives are parameters, not definitions: HMAC-SHA256, SHA-256 of a URL, `DefaultHasher`, the ChaCha20 keystream, zstd and gzip, `url::Url` parsing and joining, and serde JSON decoding. The model states what follows from their results, not what they compute.
- `extract_domain` (src/server/services/cookie_services.rs:33-37) is a call into `url::Url` alone.
- Concurrency and timing: `tokio::spawn` fire-and-forget work, the `Semaphore`, `JoinSet` and `Notify` mechanics, and the 3 s wait. `WaitForInflight` takes whether the wait completes as a parameter.
- ProxyCacheServices.ProxyCacheService.PrefetchSegments: runs the fetches one after another, at one clock reading. The source fetches concurrently, and a URL listed twice is fetched once per listing, as the source's filter keeps duplicates. So "each URL at most once" holds only for distinct URLs.
- The clock (`SystemTime::now`, `chrono::Utc::now`) is a parameter. `process_m3u8` takes one reading per playlist, where the source reads the clock once per line.
- ProxyController.ProxyGet: two effects are not part of the method. The cookie read and the fire-and-forget cookie write (src/server/api/proxy_controller.rs:176-180, 213-230) are modelled in `CookieServices` by `CookieService.GetCookies` and `CookieService.StoreCookies`. The fire-and-forget `record_error` calls (src/server/api/proxy_controller.rs:203, 258) are modelled in `RateLimitServices` by `EdgeRateLimitService.RecordError`.
- HashMap iteration order (the cookie join) is a nondeterministic walk (`WalkJar`). The cookie contracts hold for every order.
- Error texts that embed a foreign error's display text are modelled without that text: "Request failed: …" and "Failed to read response: …" carry a reason string, but "failed to base64 decode after ROT-71: ", "game … not found: " and the messages `fetch_and_cache_segment` only logs do not.
- PpvsuServices.LengthFrom: `length |= group << shift` is modelled on unbounded integers. A varint longer than ten bytes, which overflows or panics in `usize`, is not modelled, and neither is the overflow of `offset + length`.
- Integer widths: i64, u32 and u64 are unbounded integers with explicit range checks where the source relies on them (INCR into i64, `parse::<i64>`, counts read as `u32`). `GenerateExpiry` does not model i64 overflow.
- RedisStore: a value under the wrong type, a pipeline that fails halfway and connection errors are all the single `up == false` case. The services treat all of them the same way.
- PpvsuServices.Catalog: the stream repository is modelled as a store that cannot fail. Its errors, which the source passes on with `?`, are not modelled. These are `store_game` in `RefetchGame` and `FetchAndCacheGames` (src/server/services/ppvsu_services.rs:269, 488), `get_last_fetch_time`, `clear_cache` and `set_last_fetch_time` in `GetGamesWithRefresh` (579, 608-612), and `get_game` in `GetGameById` (698). Nor is the internal error a failed `get_games` becomes (589-595). The repository is a trait whose implementation is not part of this model.
- ProxyController.BasePath: for a URL whose path is empty, which only a URL without a hierarchical part can have, the source's slice `[..1]` panics. The model returns the bare "scheme://host" instead.
- The health controller, logger, configuration and `main` are wiring, I/O or floating point.
