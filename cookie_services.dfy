/**
  The cookie jar the proxy keeps per upstream domain: one `Cookie` header
  per domain in the shared store, into which every batch of `Set-Cookie`
  lines an upstream answers with is merged, a new cookie replacing an older
  one of the same name.
*/
module CookieServices {
  import opened Wrappers
  import opened Utf8
  import opened Text
  import opened RedisStore

  /** A stored header lives 24 hours past its last write. */
  const CookieTtlSeconds: int := 86400

  /** The key of a domain's header: in the `proxy_cookies:` namespace, with the domain readable after it. */
  function CookieKey(domain: string): (k: string)
    ensures "proxy_cookies:" <= k && |k| == 14 + |domain| && k[14..] == domain
  {
    "proxy_cookies:" + domain
  }

  /**
    `get_cookies`: the stored header; None for a missing key, for a failed
    store, and for bytes that do not convert to a `String`.
  */
  function CookiesOf(entries: Entries, now: int, up: bool, domain: string): (r: Option<string>)
    ensures !up || Get(entries, now, CookieKey(domain)).None? ==> r.None?
    ensures up && Get(entries, now, CookieKey(domain)).Some? ==> r == Decode(Get(entries, now, CookieKey(domain)).value)
  {
    if !up then None
    else match Get(entries, now, CookieKey(domain))
      case None => None
      case Some(b) => Decode(b)
  }

  /** The cookies by name, as `store_cookies` collects them in its `HashMap`. */
  type Jar = map<string, string>

  /** One insertion into the jar: a name and the text kept for it; None for a piece that is skipped. */
  type Put = Option<(string, string)>

  predicate Names(p: Put, name: string) {
    p.Some? && p.value.0 == name
  }

  function Insert(jar: Jar, p: Put): Jar {
    match p
    case None => jar
    case Some((name, text)) => jar[name := text]
  }

  /** The insertions applied in order. */
  function InsertAll(jar: Jar, puts: seq<Put>): Jar
    decreases |puts|
  {
    if puts == [] then jar else Insert(InsertAll(jar, puts[..|puts| - 1]), puts[|puts| - 1])
  }

  /** A segment of the stored header: kept whole, under the text before its first '=' as it stands. */
  function SegmentPut(segment: string): Put {
    match SplitOnce(segment, '=')
    case None => None
    case Some((name, _)) => Some((name, segment))
  }

  /** A `Set-Cookie` line: its part before the first ';', trimmed, under its trimmed name. */
  function SetCookiePut(cookie: string): Put {
    var pair := BeforeFirst(cookie, ';');
    match SplitOnce(pair, '=')
    case None => None
    case Some((name, _)) => Some((Trim(name), Trim(pair)))
  }

  /** Each text through `parse`, in order. */
  function Parsed(parse: string -> Put, texts: seq<string>): (r: seq<Put>)
    ensures |r| == |texts| && forall i :: 0 <= i < |r| ==> r[i] == parse(texts[i])
  {
    seq(|texts|, i requires 0 <= i < |texts| => parse(texts[i]))
  }

  function SegmentPuts(segments: seq<string>): (r: seq<Put>)
    ensures |r| == |segments| && forall i :: 0 <= i < |r| ==> r[i] == SegmentPut(segments[i])
  {
    Parsed(SegmentPut, segments)
  }

  function SetCookiePuts(cookies: seq<string>): (r: seq<Put>)
    ensures |r| == |cookies| && forall i :: 0 <= i < |r| ==> r[i] == SetCookiePut(cookies[i])
  {
    Parsed(SetCookiePut, cookies)
  }

  /** The jar `store_cookies` starts from: the "; "-separated segments of the stored header. */
  function StoredJar(existing: Option<string>): Jar {
    match existing
    case None => map[]
    case Some(header) => InsertAll(map[], SegmentPuts(SplitStr(header, "; ")))
  }

  /** The jar `store_cookies` writes: the stored one with the new lines merged over it, in order. */
  function MergedJar(existing: Option<string>, cookies: seq<string>): Jar {
    InsertAll(StoredJar(existing), SetCookiePuts(cookies))
  }

  /** `names` lists every name of the jar exactly once: one order the map may be walked in. */
  predicate Enumerates(names: seq<string>, jar: Jar) {
    && (forall i :: 0 <= i < |names| ==> names[i] in jar)
    && (forall name :: name in jar ==> name in names)
    && (forall i, j :: 0 <= i < j < |names| ==> names[i] != names[j])
  }

  /** The jar's texts in the order of `names`. */
  function TextsIn(jar: Jar, names: seq<string>): (r: seq<string>)
    requires forall i :: 0 <= i < |names| ==> names[i] in jar
    ensures |r| == |names| && forall i :: 0 <= i < |r| ==> r[i] == jar[names[i]]
  {
    seq(|names|, i requires 0 <= i < |names| => jar[names[i]])
  }

  /** The `Cookie` header written for a jar walked in the order of `names`. */
  function Header(jar: Jar, names: seq<string>): string
    requires forall i :: 0 <= i < |names| ==> names[i] in jar
  {
    Join(TextsIn(jar, names), "; ")
  }

  /** SET EX of the header for 24 hours; a failed write leaves the store as it was. */
  function AfterStore(entries: Entries, now: int, up: bool, domain: string, header: string): Entries {
    SetExLogged(entries, now, up, CookieKey(domain), Encode(header), CookieTtlSeconds)
  }

  /** A missing header and a failed store both read as no cookies. */
  lemma NoCookies(entries: Entries, now: int, up: bool, domain: string)
    ensures CookiesOf(entries, now, up, domain).Some? ==> up && Live(entries, now, CookieKey(domain))
    ensures !up || !Live(entries, now, CookieKey(domain)) ==> CookiesOf(entries, now, up, domain).None?
  {
  }

  /** After the insertions a name is in the jar iff it was there or some insertion names it. */
  lemma {:induction false} InsertAllKeys(jar: Jar, puts: seq<Put>)
    ensures forall name :: name in InsertAll(jar, puts) <==>
      (name in jar || exists i :: 0 <= i < |puts| && Names(puts[i], name))
    decreases |puts|
  {
    if puts != [] {
      var prefix := puts[..|puts| - 1];
      InsertAllKeys(jar, prefix);
      assert forall i :: 0 <= i < |prefix| ==> prefix[i] == puts[i];
    }
  }

  /** The last insertion naming a name decides its text. */
  lemma {:induction false} InsertAllLastWins(jar: Jar, puts: seq<Put>, i: nat, name: string)
    requires i < |puts| && Names(puts[i], name)
    requires forall j :: i < j < |puts| ==> !Names(puts[j], name)
    ensures name in InsertAll(jar, puts) && InsertAll(jar, puts)[name] == puts[i].value.1
    decreases |puts|
  {
    var n := |puts| - 1;
    if i < n {
      var prefix := puts[..n];
      assert prefix[i] == puts[i];
      assert forall j :: i < j < |prefix| ==> prefix[j] == puts[j];
      InsertAllLastWins(jar, prefix, i, name);
    }
  }

  /** A name no insertion names keeps its text, or stays absent. */
  lemma {:induction false} InsertAllUntouched(jar: Jar, puts: seq<Put>, name: string)
    requires forall i :: 0 <= i < |puts| ==> !Names(puts[i], name)
    ensures name in InsertAll(jar, puts) <==> name in jar
    ensures name in jar ==> InsertAll(jar, puts)[name] == jar[name]
    decreases |puts|
  {
    if puts != [] {
      var prefix := puts[..|puts| - 1];
      assert forall i :: 0 <= i < |prefix| ==> prefix[i] == puts[i];
      InsertAllUntouched(jar, prefix, name);
    }
  }

  /**
    `Set-Cookie` lines merged over a jar: a name is in the result iff it was
    in the jar or a line with a '=' before its first ';' names it.
  */
  lemma MergedNames(jar: Jar, cookies: seq<string>)
    ensures forall name :: name in InsertAll(jar, SetCookiePuts(cookies)) <==>
      (name in jar || exists i :: 0 <= i < |cookies| && Names(SetCookiePut(cookies[i]), name))
  {
    InsertAllKeys(jar, SetCookiePuts(cookies));
  }

  /** The last line naming a cookie overrides the stored one and every earlier line. */
  lemma SetCookieOverrides(jar: Jar, cookies: seq<string>, i: nat, name: string)
    requires i < |cookies| && Names(SetCookiePut(cookies[i]), name)
    requires forall j :: i < j < |cookies| ==> !Names(SetCookiePut(cookies[j]), name)
    ensures name in InsertAll(jar, SetCookiePuts(cookies))
    ensures InsertAll(jar, SetCookiePuts(cookies))[name] == SetCookiePut(cookies[i]).value.1
  {
    InsertAllLastWins(jar, SetCookiePuts(cookies), i, name);
  }

  /** A stored cookie no new line names is kept as it was. */
  lemma StoredCookieKept(jar: Jar, cookies: seq<string>, name: string)
    requires name in jar
    requires forall i :: 0 <= i < |cookies| ==> !Names(SetCookiePut(cookies[i]), name)
    ensures name in InsertAll(jar, SetCookiePuts(cookies))
    ensures InsertAll(jar, SetCookiePuts(cookies))[name] == jar[name]
  {
    InsertAllUntouched(jar, SetCookiePuts(cookies), name);
  }

  /** Of the stored header's segments, the last one keyed by a name is what the jar holds for it. */
  lemma StoredSegmentWins(header: string, i: nat, name: string)
    requires i < |SplitStr(header, "; ")| && Names(SegmentPut(SplitStr(header, "; ")[i]), name)
    requires forall j :: i < j < |SplitStr(header, "; ")| ==> !Names(SegmentPut(SplitStr(header, "; ")[j]), name)
    ensures name in StoredJar(Some(header)) && StoredJar(Some(header))[name] == SplitStr(header, "; ")[i]
  {
    InsertAllLastWins(map[], SegmentPuts(SplitStr(header, "; ")), i, name);
  }

  /** A `Set-Cookie` line is cut at its first ';'; one without a '=' before that is skipped. */
  lemma SetCookieParts(cookie: string)
    ensures SetCookiePut(cookie).None? <==> '=' !in BeforeFirst(cookie, ';')
    ensures SetCookiePut(cookie).Some? ==> ';' !in SetCookiePut(cookie).value.1
  {
    var pair := BeforeFirst(cookie, ';');
    TrimIsSlice(pair);
  }

  /**
    A jar in which each text reads back under its own name from a header:
    it holds no ';' and its part before the first '=' is its name.
  */
  predicate WellKeyed(jar: Jar) {
    forall name :: name in jar ==> ';' !in jar[name] && SegmentPut(jar[name]) == Some((name, jar[name]))
  }

  /** After SET EX the header reads back for exactly 24 hours. */
  lemma HeaderReadsBack(entries: Entries, now: int, domain: string, header: string, t: int)
    ensures CookiesOf(AfterStore(entries, now, true, domain, header), t, true, domain) ==
      if t < now + CookieTtlSeconds then Some(header) else None
  {
    SetExHolds(entries, now, CookieKey(domain), Encode(header), CookieTtlSeconds, t);
    DecodeEncode(header);
  }

  /** Distinct names each inserted once with the jar's text rebuild the jar. */
  lemma DistinctPutsJar(jar: Jar, names: seq<string>, puts: seq<Put>)
    requires Enumerates(names, jar) && |puts| == |names|
    requires forall i :: 0 <= i < |puts| ==> puts[i] == Some((names[i], jar[names[i]]))
    ensures InsertAll(map[], puts) == jar
  {
    var back := InsertAll(map[], puts);
    InsertAllKeys(map[], puts);
    forall name | name in jar
      ensures name in back && back[name] == jar[name]
    {
      var i :| 0 <= i < |names| && names[i] == name;
      assert Names(puts[i], name);
      forall j | i < j < |puts|
        ensures !Names(puts[j], name)
      {
        assert names[j] != names[i];
      }
      InsertAllLastWins(map[], puts, i, name);
    }
    forall name | name in back
      ensures name in jar
    {
      var i :| 0 <= i < |puts| && Names(puts[i], name);
    }
  }

  /** An empty header reads back as an empty jar. */
  lemma EmptyHeaderJar()
    ensures StoredJar(Some("")) == map[]
  {
    FindNone("", "; ");
    assert SplitStr("", "; ") == [""];
    assert SegmentPuts([""]) == [None];
    assert InsertAll(map[], [None]) == Insert(InsertAll(map[], []), None);
  }

  /**
    The header written for a well-keyed jar, split on "; " as the next
    `store_cookies` splits it, holds one segment per name and gives back
    exactly that jar, whatever order the map was walked in.
  */
  lemma HeaderRoundTrip(jar: Jar, names: seq<string>)
    requires Enumerates(names, jar) && WellKeyed(jar)
    ensures names != [] ==> SplitStr(Header(jar, names), "; ") == TextsIn(jar, names)
    ensures StoredJar(Some(Header(jar, names))) == jar
  {
    var texts := TextsIn(jar, names);
    if names == [] {
      assert texts == [];
      EmptyHeaderJar();
    } else {
      assert forall k :: 0 <= k < |texts| ==> "; "[0] !in texts[k];
      SplitStrJoin(texts, "; ");
      var puts := SegmentPuts(texts);
      assert forall i :: 0 <= i < |puts| ==> puts[i] == Some((names[i], jar[names[i]]));
      DistinctPutsJar(jar, names, puts);
    }
  }

  /** Insertions whose texts read back under their own names keep a jar well-keyed. */
  lemma {:induction false} InsertAllKeeps(jar: Jar, puts: seq<Put>)
    requires WellKeyed(jar)
    requires forall i :: 0 <= i < |puts| && puts[i].Some? ==>
      ';' !in puts[i].value.1 && SegmentPut(puts[i].value.1) == puts[i]
    ensures WellKeyed(InsertAll(jar, puts))
    decreases |puts|
  {
    if puts != [] {
      var prefix := puts[..|puts| - 1];
      assert forall i :: 0 <= i < |prefix| ==> prefix[i] == puts[i];
      InsertAllKeeps(jar, prefix);
    }
  }

  /** A stored header whose "; "-separated segments hold no ';' reads back as a well-keyed jar. */
  lemma StoredJarWellKeyed(header: string)
    requires forall k :: 0 <= k < |SplitStr(header, "; ")| ==> ';' !in SplitStr(header, "; ")[k]
    ensures WellKeyed(StoredJar(Some(header)))
  {
    InsertAllKeeps(map[], SegmentPuts(SplitStr(header, "; ")));
  }

  /** A `Set-Cookie` line whose name, before its first '=', holds no whitespace. */
  predicate PlainName(cookie: string) {
    match SplitOnce(BeforeFirst(cookie, ';'), '=')
    case None => true
    case Some((name, _)) => forall k :: 0 <= k < |name| ==> !IsWhitespace(name[k])
  }

  /** Trimming a pair whose name holds no whitespace keeps the name and its '='. */
  lemma TrimKeyed(name: string, rest: string)
    requires forall k :: 0 <= k < |name| ==> !IsWhitespace(name[k])
    ensures Trim(name) == name
    ensures |Trim(name + "=" + rest)| > |name| && Trim(name + "=" + rest)[..|name| + 1] == name + "="
  {
    var pair := name + "=" + rest;
    var n := |name|;
    assert pair[n] == '=';
    var e := TrimEnd(pair);
    assert |e| > n;
    assert e[..n + 1] == pair[..n + 1] == name + "=";
    assert e[0] == pair[0];
    assert TrimStart(e) == e;
  }

  /** A text starting with a name free of '=' and then a '=' splits at that '='. */
  lemma SplitOnceKeyed(s: string, name: string)
    requires '=' !in name && |s| > |name| && s[..|name| + 1] == name + "="
    ensures SplitOnce(s, '=').Some? && SplitOnce(s, '=').value.0 == name
  {
    assert s[|name|] == '=';
    var a := SplitOnce(s, '=').value.0;
    assert s[..|a|] == a && s[|a|] == '=';
    assert a == s[..|name|];
  }

  /**
    A `Set-Cookie` line whose name holds no whitespace is stored under a
    name the next read gives back: its text holds no ';' and starts with
    that name and a '='.
  */
  lemma SetCookieRekeys(cookie: string)
    requires PlainName(cookie)
    ensures SetCookiePut(cookie).Some? ==>
      ';' !in SetCookiePut(cookie).value.1 && SegmentPut(SetCookiePut(cookie).value.1) == SetCookiePut(cookie)
  {
    var pair := BeforeFirst(cookie, ';');
    SetCookieParts(cookie);
    match SplitOnce(pair, '=')
    case None =>
    case Some((name, rest)) =>
      TrimKeyed(name, rest);
      SplitOnceKeyed(Trim(pair), name);
  }

  /**
    Why `PlainName` is needed: `store_cookies` trims a `Set-Cookie` name,
    but the next read splits the stored text without trimming. So "a =1"
    is written under "a" and read back under "a ".
  */
  lemma SpacedNameRekeyed()
    ensures SetCookiePut("a =1") == Some(("a", "a =1"))
    ensures StoredJar(Some("a =1")) == map["a " := "a =1"]
    ensures StoredJar(Some("a =1")) != MergedJar(None, ["a =1"])
  {
    SpacedNameSplits();
    SpacedNameTrims();
    SpacedHeaderIsOneSegment();
    var stored: Put := Some(("a ", "a =1"));
    var written: Put := Some(("a", "a =1"));
    assert SegmentPuts(["a =1"]) == [stored];
    assert SetCookiePuts(["a =1"]) == [written];
    SingleInsert(stored);
    SingleInsert(written);
    assert "a " !in MergedJar(None, ["a =1"]);
  }

  lemma SingleInsert(p: Put)
    ensures InsertAll(map[], [p]) == Insert(map[], p)
  {
    assert [p][..0] == [];
  }

  lemma SpacedNameSplits()
    ensures BeforeFirst("a =1", ';') == "a =1"
    ensures SplitOnce("a =1", '=') == Some(("a ", "1"))
  {
    assert IndexOf("=1", '=') == Some(0);
    assert " =1"[1..] == "=1" && IndexOf(" =1", '=') == Some(1);
    assert "a =1"[1..] == " =1" && IndexOf("a =1", '=') == Some(2);
    assert "a =1"[..2] == "a " && "a =1"[3..] == "1";
  }

  lemma SpacedNameTrims()
    ensures Trim("a ") == "a" && Trim("a =1") == "a =1"
  {
    assert TrimEnd("a ") == TrimEnd("a ="[..1]) == "a";
    assert TrimEnd("a =1") == "a =1";
  }

  lemma SpacedHeaderIsOneSegment()
    ensures SplitStr("a =1", "; ") == ["a =1"]
  {
    assert "1"[..0] == [];
    assert Find("1", "; ") == None;
    assert "=1"[1..] == "1" && "=1"[..2][0] != "; "[0];
    assert Find("=1", "; ") == None;
    assert " =1"[1..] == "=1" && " =1"[..2][0] != "; "[0];
    assert Find(" =1", "; ") == None;
    assert "a =1"[1..] == " =1" && "a =1"[..2][0] != "; "[0];
    assert Find("a =1", "; ") == None;
  }

  /**
    Lines whose names hold no whitespace, merged over a stored header that
    reads back well-keyed (any header an earlier store wrote does): within
    the next 24 hours the next `store_cookies` reads back exactly the jar
    that was written, whatever order it was written in, and that jar is
    well-keyed again, so the property carries over from store to store.
  */
  lemma JarSurvivesStore(existing: Option<string>, cookies: seq<string>, names: seq<string>,
                         entries: Entries, now: int, domain: string, t: int)
    requires existing.Some? ==> WellKeyed(StoredJar(existing))
    requires forall i :: 0 <= i < |cookies| ==> PlainName(cookies[i])
    requires Enumerates(names, MergedJar(existing, cookies))
    requires t < now + CookieTtlSeconds
    ensures WellKeyed(MergedJar(existing, cookies))
    ensures var jar := MergedJar(existing, cookies);
      StoredJar(CookiesOf(AfterStore(entries, now, true, domain, Header(jar, names)), t, true, domain)) == jar
  {
    var jar := MergedJar(existing, cookies);
    var puts := SetCookiePuts(cookies);
    forall i | 0 <= i < |puts| && puts[i].Some?
      ensures ';' !in puts[i].value.1 && SegmentPut(puts[i].value.1) == puts[i]
    {
      SetCookieRekeys(cookies[i]);
    }
    InsertAllKeeps(StoredJar(existing), puts);
    HeaderReadsBack(entries, now, domain, Header(jar, names), t);
    HeaderRoundTrip(jar, names);
  }

  lemma InsertAllSnoc(jar: Jar, puts: seq<Put>, p: Put)
    ensures InsertAll(jar, puts + [p]) == Insert(InsertAll(jar, puts), p)
  {
    assert (puts + [p])[..|puts|] == puts;
  }

  /** One more text parses to one more put at the end. */
  lemma ParsedSnoc(parse: string -> Put, texts: seq<string>, i: nat)
    requires i < |texts|
    ensures Parsed(parse, texts[..i + 1]) == Parsed(parse, texts[..i]) + [parse(texts[i])]
  {
    var longer := Parsed(parse, texts[..i + 1]);
    var shorter := Parsed(parse, texts[..i]);
    forall j | 0 <= j < |longer|
      ensures longer[j] == (shorter + [parse(texts[i])])[j]
    {
      assert texts[..i + 1][j] == texts[j];
    }
  }

  /** The first loop of `store_cookies`: the stored header's segments into the map, by name. */
  method CollectSegments(header: string) returns (jar: Jar)
    ensures jar == StoredJar(Some(header))
  {
    var segments := SplitStr(header, "; ");
    jar := map[];
    var i := 0;
    while i < |segments|
      invariant 0 <= i <= |segments|
      invariant jar == InsertAll(map[], SegmentPuts(segments[..i]))
    {
      var segment := segments[i];
      InsertAllSnoc(map[], SegmentPuts(segments[..i]), SegmentPut(segment));
      ParsedSnoc(SegmentPut, segments, i);
      assert SegmentPuts(segments[..i + 1]) == SegmentPuts(segments[..i]) + [SegmentPut(segment)];
      match SplitOnce(segment, '=') {
        case Some((name, _)) => jar := jar[name := segment];
        case None =>
      }
      i := i + 1;
    }
    assert segments[..i] == segments;
  }

  /** The second loop: each `Set-Cookie` line's trimmed pair under its trimmed name. */
  method MergeSetCookies(stored: Jar, cookies: seq<string>) returns (jar: Jar)
    ensures jar == InsertAll(stored, SetCookiePuts(cookies))
  {
    jar := stored;
    var k := 0;
    while k < |cookies|
      invariant 0 <= k <= |cookies|
      invariant jar == InsertAll(stored, SetCookiePuts(cookies[..k]))
    {
      var cookie := cookies[k];
      InsertAllSnoc(stored, SetCookiePuts(cookies[..k]), SetCookiePut(cookie));
      ParsedSnoc(SetCookiePut, cookies, k);
      assert SetCookiePuts(cookies[..k + 1]) == SetCookiePuts(cookies[..k]) + [SetCookiePut(cookie)];
      var pair := BeforeFirst(cookie, ';');
      match SplitOnce(pair, '=') {
        case Some((name, _)) => jar := jar[Trim(name) := Trim(pair)];
        case None =>
      }
      k := k + 1;
    }
    assert cookies[..k] == cookies;
  }

  /**
    The map's values collected for joining: each name once, in whatever
    order the map is walked; `names` records that order.
  */
  method WalkJar(jar: Jar) returns (texts: seq<string>, ghost names: seq<string>)
    ensures Enumerates(names, jar) && texts == TextsIn(jar, names)
  {
    var remaining := jar.Keys;
    texts := [];
    names := [];
    while remaining != {}
      invariant remaining <= jar.Keys
      invariant forall i :: 0 <= i < |names| ==> names[i] in jar && names[i] !in remaining
      invariant forall name :: name in jar ==> name in remaining || name in names
      invariant forall i, j :: 0 <= i < j < |names| ==> names[i] != names[j]
      invariant texts == TextsIn(jar, names)
      decreases remaining
    {
      var name :| name in remaining;
      texts := texts + [jar[name]];
      names := names + [name];
      remaining := remaining - {name};
    }
  }

  /** The cookie service over the shared store. */
  class CookieService {
    const store: Store

    constructor (store: Store)
      ensures this.store == store
    {
      this.store := store;
    }

    function GetCookies(domain: string): (r: Option<string>)
      reads store
      ensures r == CookiesOf(store.entries, store.now, store.up, domain)
    {
      CookiesOf(store.entries, store.now, store.up, domain)
    }

    /**
      `store_cookies`: nothing for an empty batch; otherwise the stored
      header's segments, then the new lines, go into a map by name, and the
      map's texts, in whatever order the map is walked, are joined with "; "
      and written for 24 hours.
    */
    method StoreCookies(domain: string, cookies: seq<string>)
      modifies store
      ensures store.now == old(store.now) && store.up == old(store.up)
      ensures cookies == [] ==> store.entries == old(store.entries)
      ensures cookies != [] ==>
        var jar := MergedJar(CookiesOf(old(store.entries), store.now, store.up, domain), cookies);
        exists names :: Enumerates(names, jar) &&
          store.entries == AfterStore(old(store.entries), store.now, store.up, domain, Header(jar, names))
    {
      if cookies == [] {
        return;
      }
      var existing := GetCookies(domain);
      var jar: Jar := map[];
      if existing.Some? {
        jar := CollectSegments(existing.value);
      }
      assert jar == StoredJar(existing);
      jar := MergeSetCookies(jar, cookies);
      assert jar == MergedJar(existing, cookies);
      var texts;
      ghost var names;
      texts, names := WalkJar(jar);
      var header := Join(texts, "; ");
      assert header == Header(jar, names);
      if store.up {
        var written := SetEx(store.entries, store.now, CookieKey(domain), Encode(header), CookieTtlSeconds);
        if written.Ok? {
          store.entries := written.value;
        }
      }
      assert store.entries == AfterStore(old(store.entries), store.now, store.up, domain, header);
    }
  }
}
