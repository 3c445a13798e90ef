/**
  The proxy's own cache in the shared store: raw playlists for 10 seconds
  and segments for 5 minutes, each under a key derived from a hash of its
  URL, and a prefetch that fills the segment cache ahead of the player while
  recording which URLs are being fetched.
*/
module ProxyCacheServices {
  import opened Wrappers
  import opened Utf8
  import opened RedisStore
  import ProxyController
  import CookieServices
  import RateLimitServices

  const M3u8TtlSeconds: int := 10
  const SegmentTtlSeconds: int := 300

  /** The URL hash (SHA-256, lower-case hex), supplied by the caller. */
  type UrlHash = string -> string

  /** The playlist key: in the cache's namespace, with the URL's hash readable after the prefix. */
  function M3u8Key(hash: UrlHash, url: string): (k: string)
    ensures "pcache:" <= k && |k| == 12 + |hash(url)| && k[12..] == hash(url)
  {
    "pcache:m3u8:" + hash(url)
  }

  /** The segment key: in the cache's namespace, with the URL's hash readable after the prefix. */
  function SegmentKey(hash: UrlHash, url: string): (k: string)
    ensures "pcache:" <= k && |k| == 11 + |hash(url)| && k[11..] == hash(url)
  {
    "pcache:seg:" + hash(url)
  }

  /** A playlist key and a segment key never coincide, for any two URLs. */
  lemma KeysApart(hash: UrlHash, u: string, v: string)
    ensures M3u8Key(hash, u) != SegmentKey(hash, v)
  {
    assert M3u8Key(hash, u)[7] == 'm';
    assert SegmentKey(hash, v)[7] == 's';
  }

  /** Two URLs share a playlist key, or a segment key, exactly when they share a hash. */
  lemma KeysFollowHash(hash: UrlHash, u: string, v: string)
    ensures M3u8Key(hash, u) == M3u8Key(hash, v) <==> hash(u) == hash(v)
    ensures SegmentKey(hash, u) == SegmentKey(hash, v) <==> hash(u) == hash(v)
  {
    if M3u8Key(hash, u) == M3u8Key(hash, v) {
      assert hash(u) == M3u8Key(hash, u)[12..];
    }
    if SegmentKey(hash, u) == SegmentKey(hash, v) {
      assert hash(u) == SegmentKey(hash, u)[11..];
    }
  }

  /** The cache keys lie apart from the cookie and rate-limit keys, so no cache write touches those. */
  lemma NamespacesApart(hash: UrlHash, url: string, domain: string, clientId: string)
    ensures var keys := {M3u8Key(hash, url), SegmentKey(hash, url)};
      && CookieServices.CookieKey(domain) !in keys
      && RateLimitServices.RateLimitKey(clientId) !in keys
      && RateLimitServices.ErrorCountKey(clientId) !in keys
      && RateLimitServices.TimeoutKey(clientId) !in keys
  {
    assert M3u8Key(hash, url)[1] == 'c' && SegmentKey(hash, url)[1] == 'c';
    assert CookieServices.CookieKey(domain)[1] == 'r';
    assert RateLimitServices.RateLimitKey(clientId)[0] == 'e';
    assert RateLimitServices.ErrorCountKey(clientId)[0] == 'e';
    assert RateLimitServices.TimeoutKey(clientId)[0] == 'e';
  }

  /**
    `get_cached`: both keys in one pipeline. A failed store, and a playlist
    entry that is not UTF-8 (the pipeline's reply then does not convert),
    give (None, None).
  */
  function CachedOf(entries: Entries, now: int, up: bool, hash: UrlHash, url: string): (r: (Option<string>, Option<seq<byte>>))
    ensures !up ==> r == (None, None)
    ensures r.0.Some? ==>
      (up && Get(entries, now, M3u8Key(hash, url)).Some?
       && Decode(Get(entries, now, M3u8Key(hash, url)).value) == r.0)
    ensures r.1.Some? ==> up && r.1 == Get(entries, now, SegmentKey(hash, url))
    ensures up && Get(entries, now, M3u8Key(hash, url)).Some? && Decode(Get(entries, now, M3u8Key(hash, url)).value).None? ==>
      r == (None, None)
    ensures up && (Get(entries, now, M3u8Key(hash, url)).None? || Decode(Get(entries, now, M3u8Key(hash, url)).value).Some?) ==>
      r == (match Get(entries, now, M3u8Key(hash, url)) case None => None case Some(b) => Decode(b),
            Get(entries, now, SegmentKey(hash, url)))
  {
    if !up then (None, None)
    else
      var segment := Get(entries, now, SegmentKey(hash, url));
      match Get(entries, now, M3u8Key(hash, url))
      case None => (None, segment)
      case Some(b) =>
        match Decode(b)
        case None => (None, None)
        case Some(text) => (Some(text), segment)
  }

  /** A failed store reads as a miss on both. */
  lemma CachedWhenDown(entries: Entries, now: int, hash: UrlHash, url: string)
    ensures CachedOf(entries, now, false, hash, url) == (None, None)
  {
  }

  /** No playlist entry, or one that is UTF-8 text. */
  predicate PlaylistReadable(entries: Entries, now: int, hash: UrlHash, url: string) {
    match Get(entries, now, M3u8Key(hash, url))
    case None => true
    case Some(b) => Decode(b).Some?
  }

  /**
    A playlist cached by `cache_m3u8` reads back for exactly 10 seconds, and
    the segment entry of the same URL is not disturbed.
  */
  lemma PlaylistReadsBack(entries: Entries, now: int, hash: UrlHash, url: string, text: string, t: int)
    ensures var after := SetExLogged(entries, now, true, M3u8Key(hash, url), Encode(text), M3u8TtlSeconds);
      && PlaylistReadable(after, t, hash, url)
      && CachedOf(after, t, true, hash, url) ==
        (if t < now + M3u8TtlSeconds then Some(text) else None, Get(entries, t, SegmentKey(hash, url)))
  {
    KeysApart(hash, url, url);
    SetExHolds(entries, now, M3u8Key(hash, url), Encode(text), M3u8TtlSeconds, t);
    DecodeEncode(text);
  }

  /**
    Segment bytes cached by `cache_segment` (or by a prefetch) read back for
    exactly 5 minutes; the playlist side of the read is not disturbed.
  */
  lemma SegmentReadsBack(entries: Entries, now: int, hash: UrlHash, url: string, bytes: seq<byte>, t: int)
    ensures var after := SetExLogged(entries, now, true, SegmentKey(hash, url), bytes, SegmentTtlSeconds);
      && CachedOf(after, t, true, hash, url).0 == CachedOf(entries, t, true, hash, url).0
      && (PlaylistReadable(entries, t, hash, url) ==>
            CachedOf(after, t, true, hash, url).1 == if t < now + SegmentTtlSeconds then Some(bytes) else None)
  {
    KeysApart(hash, url, url);
    SetExHolds(entries, now, SegmentKey(hash, url), bytes, SegmentTtlSeconds, t);
    var after := SetExLogged(entries, now, true, SegmentKey(hash, url), bytes, SegmentTtlSeconds);
    assert Get(after, t, M3u8Key(hash, url)) == Get(entries, t, M3u8Key(hash, url));
  }

  /**
    `fetch_and_cache_segment`'s outcome: the upstream body, decompressed
    for "zstd" and "gzip" exactly as `proxy_get` does it; None for an
    unreachable upstream, a status other than success, a body that fails to
    arrive, and a body that fails to decompress.
  */
  function Fetched(upstream: ProxyController.Upstream, decompressor: ProxyController.Decompressor): (r: Option<seq<byte>>)
    ensures r.Some? ==> upstream.Answered? && upstream.success && upstream.body.Ok?
  {
    match upstream
    case Unreachable(_) => None
    case Answered(success, _, contentEncoding, body) =>
      if !success || body.Err? then None
      else ProxyController.Decompressed(contentEncoding, body.value, decompressor)
  }

  /** What a body not marked "zstd" or "gzip" caches as: its bytes unchanged. */
  lemma UncompressedCachedAsIs(upstream: ProxyController.Upstream, decompressor: ProxyController.Decompressor)
    requires upstream.Answered? && upstream.success && upstream.body.Ok?
    requires upstream.contentEncoding != Some("zstd") && upstream.contentEncoding != Some("gzip")
    ensures Fetched(upstream, decompressor) == Some(upstream.body.value)
  {
  }

  /** The store after one `fetch_and_cache_segment`: a failure writes nothing. */
  function AfterFetch(entries: Entries, now: int, hash: UrlHash, url: string,
                      upstream: ProxyController.Upstream, decompressor: ProxyController.Decompressor): Entries
  {
    match Fetched(upstream, decompressor)
    case None => entries
    case Some(bytes) => SetExLogged(entries, now, true, SegmentKey(hash, url), bytes, SegmentTtlSeconds)
  }

  /** The URLs a prefetch fetches: those whose segment key is absent, in order, duplicates kept. */
  function Uncached(entries: Entries, now: int, hash: UrlHash, urls: seq<string>): (r: seq<string>)
    ensures |r| <= |urls|
    decreases |urls|
  {
    if urls == [] then []
    else
      var last := urls[|urls| - 1];
      Uncached(entries, now, hash, urls[..|urls| - 1]) + (if Live(entries, now, SegmentKey(hash, last)) then [] else [last])
  }

  /** A URL is fetched iff it was asked for and its segment was not cached. */
  lemma {:induction false} UncachedExactly(entries: Entries, now: int, hash: UrlHash, urls: seq<string>)
    ensures forall u :: u in Uncached(entries, now, hash, urls) <==> u in urls && !Live(entries, now, SegmentKey(hash, u))
    decreases |urls|
  {
    if urls != [] {
      var prefix := urls[..|urls| - 1];
      UncachedExactly(entries, now, hash, prefix);
      assert urls == prefix + [urls[|urls| - 1]];
    }
  }

  /** The store after fetching `urls` one after another, all at the same second. */
  function FetchedAll(entries: Entries, now: int, hash: UrlHash, urls: seq<string>,
                      fetch: string -> ProxyController.Upstream, decompressor: ProxyController.Decompressor): Entries
    decreases |urls|
  {
    if urls == [] then entries
    else
      var last := urls[|urls| - 1];
      AfterFetch(FetchedAll(entries, now, hash, urls[..|urls| - 1], fetch, decompressor), now, hash, last, fetch(last), decompressor)
  }

  /**
    After the fetches, a URL whose hash no other URL of the batch shares and
    whose fetch succeeded reads back as the fetched bytes for 5 minutes.
  */
  lemma {:induction false} FetchedAllCaches(entries: Entries, now: int, hash: UrlHash, urls: seq<string>,
                                            fetch: string -> ProxyController.Upstream,
                                            decompressor: ProxyController.Decompressor, u: string, t: int)
    requires u in urls && Fetched(fetch(u), decompressor).Some?
    requires forall v :: v in urls && hash(v) == hash(u) ==> v == u
    requires t < now + SegmentTtlSeconds
    ensures Get(FetchedAll(entries, now, hash, urls, fetch, decompressor), t, SegmentKey(hash, u)) ==
      Fetched(fetch(u), decompressor)
    decreases |urls|
  {
    var prefix := urls[..|urls| - 1];
    var last := urls[|urls| - 1];
    var before := FetchedAll(entries, now, hash, prefix, fetch, decompressor);
    if last == u {
      SetExHolds(before, now, SegmentKey(hash, u), Fetched(fetch(u), decompressor).value, SegmentTtlSeconds, t);
    } else {
      assert urls == prefix + [last];
      KeysFollowHash(hash, u, last);
      FetchedAllCaches(entries, now, hash, prefix, fetch, decompressor, u, t);
    }
  }

  /** The fetches touch no key other than the segment keys of the URLs fetched. */
  lemma {:induction false} FetchedAllKeepsOthers(entries: Entries, now: int, hash: UrlHash, urls: seq<string>,
                                                 fetch: string -> ProxyController.Upstream,
                                                 decompressor: ProxyController.Decompressor, key: string)
    requires forall v :: v in urls ==> key != SegmentKey(hash, v)
    ensures var after := FetchedAll(entries, now, hash, urls, fetch, decompressor);
      (key in after <==> key in entries) && (key in entries ==> after[key] == entries[key])
    decreases |urls|
  {
    if urls != [] {
      var prefix := urls[..|urls| - 1];
      assert forall v :: v in prefix ==> v in urls;
      FetchedAllKeepsOthers(entries, now, hash, prefix, fetch, decompressor, key);
    }
  }

  lemma UncachedSnoc(entries: Entries, now: int, hash: UrlHash, urls: seq<string>, i: nat)
    requires i < |urls|
    ensures Uncached(entries, now, hash, urls[..i + 1]) ==
      Uncached(entries, now, hash, urls[..i]) + (if Live(entries, now, SegmentKey(hash, urls[i])) then [] else [urls[i]])
  {
    assert urls[..i + 1][..i] == urls[..i];
  }

  lemma FetchedAllSnoc(entries: Entries, now: int, hash: UrlHash, urls: seq<string>, i: nat,
                       fetch: string -> ProxyController.Upstream, decompressor: ProxyController.Decompressor)
    requires i < |urls|
    ensures FetchedAll(entries, now, hash, urls[..i + 1], fetch, decompressor) ==
      AfterFetch(FetchedAll(entries, now, hash, urls[..i], fetch, decompressor), now, hash, urls[i], fetch(urls[i]), decompressor)
  {
    assert urls[..i + 1][..i] == urls[..i];
  }

  /** The proxy cache service over the shared store, with its map of in-flight prefetches. */
  class ProxyCacheService {
    const store: Store
    const hash: UrlHash
    /** The URLs a prefetch is fetching right now (the keys of the in-flight map). */
    var inflight: set<string>

    constructor (store: Store, hash: UrlHash)
      ensures this.store == store && this.hash == hash && inflight == {}
    {
      this.store := store;
      this.hash := hash;
      inflight := {};
    }

    function GetCached(url: string): (r: (Option<string>, Option<seq<byte>>))
      reads store
      ensures r == CachedOf(store.entries, store.now, store.up, hash, url)
    {
      CachedOf(store.entries, store.now, store.up, hash, url)
    }

    /** `cache_m3u8`: the raw playlist text under its key for 10 seconds; a failure is only logged. */
    method CacheM3u8(url: string, text: string)
      modifies store
      ensures store.now == old(store.now) && store.up == old(store.up)
      ensures store.entries == SetExLogged(old(store.entries), store.now, store.up, M3u8Key(hash, url), Encode(text), M3u8TtlSeconds)
    {
      if store.up {
        var result := SetEx(store.entries, store.now, M3u8Key(hash, url), Encode(text), M3u8TtlSeconds);
        if result.Ok? {
          store.entries := result.value;
        }
      }
    }

    /** `cache_segment`: the segment bytes under their key for 5 minutes; a failure is only logged. */
    method CacheSegment(url: string, bytes: seq<byte>)
      modifies store
      ensures store.now == old(store.now) && store.up == old(store.up)
      ensures store.entries == SetExLogged(old(store.entries), store.now, store.up, SegmentKey(hash, url), bytes, SegmentTtlSeconds)
    {
      if store.up {
        var result := SetEx(store.entries, store.now, SegmentKey(hash, url), bytes, SegmentTtlSeconds);
        if result.Ok? {
          store.entries := result.value;
        }
      }
    }

    /**
      `wait_for_inflight`: None at once for a URL nobody is fetching, and
      None when the wait times out (`completes` false); otherwise the
      segment as the store then holds it.
    */
    function WaitForInflight(url: string, completes: bool): (r: Option<seq<byte>>)
      reads this, store
      ensures r.Some? ==> url in inflight && completes && store.up
      ensures r.Some? ==> r == Get(store.entries, store.now, SegmentKey(hash, url))
      ensures url in inflight && completes && store.up ==> r == Get(store.entries, store.now, SegmentKey(hash, url))
    {
      if url !in inflight then None
      else if !completes then None
      else if !store.up then None
      else Get(store.entries, store.now, SegmentKey(hash, url))
    }

    /**
      `fetch_and_cache_segment`: on success the decompressed body goes
      under the segment key for 5 minutes (a failed write is ignored) and
      the result is Ok; every failure is an Err and writes nothing.
    */
    method FetchAndCacheSegment(url: string, upstream: ProxyController.Upstream, decompressor: ProxyController.Decompressor)
      returns (ok: bool)
      modifies store
      ensures store.now == old(store.now) && store.up == old(store.up)
      ensures ok <==> Fetched(upstream, decompressor).Some?
      ensures !ok ==> store.entries == old(store.entries)
      ensures ok ==> store.entries == SetExLogged(old(store.entries), store.now, store.up, SegmentKey(hash, url),
                                                  Fetched(upstream, decompressor).value, SegmentTtlSeconds)
    {
      if upstream.Unreachable? {
        return false;
      }
      if !upstream.success {
        return false;
      }
      if upstream.body.Err? {
        return false;
      }
      var decompressed := ProxyController.Decompressed(upstream.contentEncoding, upstream.body.value, decompressor);
      if decompressed.None? {
        return false;
      }
      if store.up {
        var result := SetEx(store.entries, store.now, SegmentKey(hash, url), decompressed.value, SegmentTtlSeconds);
        if result.Ok? {
          store.entries := result.value;
        }
      }
      return true;
    }

    /** The EXISTS pipeline and the filter: the URLs whose segment key is absent. */
    method FilterUncached(urls: seq<string>) returns (uncached: seq<string>)
      ensures uncached == Uncached(store.entries, store.now, hash, urls)
    {
      uncached := [];
      var i := 0;
      while i < |urls|
        invariant 0 <= i <= |urls|
        invariant uncached == Uncached(store.entries, store.now, hash, urls[..i])
      {
        UncachedSnoc(store.entries, store.now, hash, urls, i);
        if !Live(store.entries, store.now, SegmentKey(hash, urls[i])) {
          uncached := uncached + [urls[i]];
        }
        i := i + 1;
      }
      assert urls[..i] == urls;
    }

    /** Each URL gets an in-flight entry; one already there is kept. */
    method Register(uncached: seq<string>)
      modifies this
      ensures inflight == old(inflight) + set u | u in uncached
    {
      var i := 0;
      while i < |uncached|
        invariant 0 <= i <= |uncached|
        invariant inflight == old(inflight) + set u | u in uncached[..i]
      {
        assert forall u :: u in uncached[..i + 1] <==> u in uncached[..i] || u == uncached[i];
        inflight := inflight + {uncached[i]};
        i := i + 1;
      }
      assert uncached[..i] == uncached;
    }

    /** The fetches, one after another; each URL leaves the in-flight map once its fetch is done. */
    method FetchEach(uncached: seq<string>, fetch: string -> ProxyController.Upstream,
                     decompressor: ProxyController.Decompressor)
      requires store.up
      modifies this, store
      ensures store.now == old(store.now) && store.up == old(store.up)
      ensures inflight == old(inflight) - set u | u in uncached
      ensures store.entries == FetchedAll(old(store.entries), store.now, hash, uncached, fetch, decompressor)
    {
      var j := 0;
      while j < |uncached|
        invariant 0 <= j <= |uncached|
        invariant store.now == old(store.now) && store.up == old(store.up)
        invariant inflight == old(inflight) - set u | u in uncached[..j]
        invariant store.entries == FetchedAll(old(store.entries), store.now, hash, uncached[..j], fetch, decompressor)
      {
        var url := uncached[j];
        FetchedAllSnoc(old(store.entries), store.now, hash, uncached, j, fetch, decompressor);
        var ok := FetchAndCacheSegment(url, fetch(url), decompressor);
        assert forall u :: u in uncached[..j + 1] <==> u in uncached[..j] || u == url;
        inflight := inflight - {url};
        j := j + 1;
      }
      assert uncached[..j] == uncached;
    }

    /**
      `prefetch_segments`, as one sequential pass: nothing for an empty
      list or a failed EXISTS pipeline; otherwise every URL whose segment
      is not cached is registered as in flight, fetched and cached in
      order, and then no longer in flight.
    */
    method PrefetchSegments(urls: seq<string>, fetch: string -> ProxyController.Upstream,
                            decompressor: ProxyController.Decompressor)
      modifies this, store
      ensures store.now == old(store.now) && store.up == old(store.up)
      ensures urls == [] || !store.up ==> inflight == old(inflight) && store.entries == old(store.entries)
      ensures store.up ==>
        var uncached := Uncached(old(store.entries), store.now, hash, urls);
        && inflight == old(inflight) - set u | u in uncached
        && store.entries == FetchedAll(old(store.entries), store.now, hash, uncached, fetch, decompressor)
    {
      if urls == [] {
        return;
      }
      if !store.up {
        return;
      }
      var uncached := FilterUncached(urls);
      assert uncached == Uncached(old(store.entries), store.now, hash, urls);
      ghost var fetched := set u | u in uncached;
      if uncached == [] {
        assert fetched == {};
        return;
      }
      Register(uncached);
      assert store.entries == old(store.entries);
      FetchEach(uncached, fetch, decompressor);
      assert inflight == (old(inflight) + fetched) - fetched == old(inflight) - fetched;
      assert store.entries == FetchedAll(old(store.entries), store.now, hash, uncached, fetch, decompressor);
    }
  }

  /**
    A prefetch leaves every URL it fetched cached for 5 minutes with the
    bytes its fetch produced, provided the fetch succeeded and no other URL
    of the batch shares its hash.
  */
  lemma PrefetchCaches(entries: Entries, now: int, hash: UrlHash, urls: seq<string>,
                       fetch: string -> ProxyController.Upstream, decompressor: ProxyController.Decompressor,
                       u: string, t: int)
    requires u in urls && !Live(entries, now, SegmentKey(hash, u)) && Fetched(fetch(u), decompressor).Some?
    requires forall v :: v in urls && hash(v) == hash(u) ==> v == u
    requires t < now + SegmentTtlSeconds
    ensures Get(FetchedAll(entries, now, hash, Uncached(entries, now, hash, urls), fetch, decompressor), t, SegmentKey(hash, u)) ==
      Fetched(fetch(u), decompressor)
  {
    UncachedExactly(entries, now, hash, urls);
    FetchedAllCaches(entries, now, hash, Uncached(entries, now, hash, urls), fetch, decompressor, u, t);
  }

  /** A prefetch changes no key but the segment keys of the URLs it was given. */
  lemma PrefetchKeepsOthers(entries: Entries, now: int, hash: UrlHash, urls: seq<string>,
                            fetch: string -> ProxyController.Upstream, decompressor: ProxyController.Decompressor,
                            key: string)
    requires forall v :: v in urls ==> key != SegmentKey(hash, v)
    ensures var after := FetchedAll(entries, now, hash, Uncached(entries, now, hash, urls), fetch, decompressor);
      (key in after <==> key in entries) && (key in entries ==> after[key] == entries[key])
  {
    UncachedExactly(entries, now, hash, urls);
    FetchedAllKeepsOthers(entries, now, hash, Uncached(entries, now, hash, urls), fetch, decompressor, key);
  }
}
