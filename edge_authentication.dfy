/**
  The edge authentication extractor: it derives a client id from the client
  IP and user agent and, when a request carries `sig` and `exp`, checks the
  signed-URL parameters before letting it through.
*/
module EdgeAuthentication {
  import opened Wrappers
  import opened Text
  import opened Errors
  import opened PercentEncoding
  import opened SignatureUtils

  type U64 = n: int | 0 <= n < 0x1_0000_0000_0000_0000

  /** `DefaultHasher` fed the IP and then the user agent: the value `finish` returns. */
  type ClientHasher = (string, string) -> U64

  /** `generate_client_id`: a missing IP or user agent counts as "unknown"; the hash in lower-case hex. */
  function GenerateClientId(hasher: ClientHasher, ip: Option<string>, userAgent: Option<string>): (id: string)
    ensures |id| > 0 && IsLowerHex(id)
    ensures LowerHexValue(id) == hasher(ip.GetOr("unknown"), userAgent.GetOr("unknown"))
  {
    LowerHexValueOfNatToHex(hasher(ip.GetOr("unknown"), userAgent.GetOr("unknown")));
    NatToHex(hasher(ip.GetOr("unknown"), userAgent.GetOr("unknown")))
  }

  /**
    The request headers the extractor reads, each already passed through
    `to_str().ok()` (a value that is not visible ASCII is absent), and the
    peer address of the connection.
  */
  datatype RequestHeaders = RequestHeaders(
    userAgent: Option<string>,
    forwardedFor: Option<string>,
    realIp: Option<string>,
    socketIp: Option<string>)

  /** The client IP: the first entry of `x-forwarded-for`, trimmed; else `x-real-ip`; else the peer address. */
  function ClientIp(h: RequestHeaders): (ip: Option<string>)
    ensures ip.None? <==> h.forwardedFor.None? && h.realIp.None? && h.socketIp.None?
    ensures h.forwardedFor.Some? ==> ip == Some(Trim(BeforeFirst(h.forwardedFor.value, ',')))
    ensures h.forwardedFor.Some? ==>
      (',' !in ip.value
       && (ip.value == [] || (!IsWhitespace(ip.value[0]) && !IsWhitespace(ip.value[|ip.value| - 1])))
       && exists k :: OccursAt(h.forwardedFor.value, ip.value, k))
    ensures h.forwardedFor.None? && h.realIp.Some? ==> ip == h.realIp
    ensures h.forwardedFor.None? && h.realIp.None? ==> ip == h.socketIp
  {
    if h.forwardedFor.Some? then
      var first := BeforeFirst(h.forwardedFor.value, ',');
      TrimIsSlice(first);
      var t := Trim(first);
      assert OccursAt(h.forwardedFor.value, t, TrimStartCount(first)) by {
        assert first == h.forwardedFor.value[..|first|];
      }
      Some(t)
    else if h.realIp.Some? then h.realIp
    else h.socketIp
  }

  /** The client id the extractor derives for a request: the lower-case hex of the hash of its IP and user agent. */
  function ClientId(hasher: ClientHasher, h: RequestHeaders): (id: string)
    ensures |id| > 0 && IsLowerHex(id)
    ensures LowerHexValue(id) == hasher(ClientIp(h).GetOr("unknown"), h.userAgent.GetOr("unknown"))
  {
    GenerateClientId(hasher, ClientIp(h), h.userAgent)
  }

  // ---- the query string ----

  /** The part of a form-encoded query the extractor deserialises. */
  datatype SignedUrlQuery = SignedUrlQuery(sig: Option<string>, exp: Option<string>, client: Option<string>)

  /** One `name=value` segment, both halves decoded; a segment with no '=' has an empty value. */
  function FormPair(segment: string): (string, string) {
    match SplitOnce(segment, '=')
    case None => (FormComponent(segment), "")
    case Some((name, value)) => (FormComponent(name), FormComponent(value))
  }

  /** `form_urlencoded::parse`: the pairs of the non-empty '&'-separated segments, in order. */
  function FormPairs(segments: seq<string>): (pairs: seq<(string, string)>)
    ensures |pairs| <= |segments|
  {
    if segments == [] then []
    else if segments[0] == [] then FormPairs(segments[1..])
    else [FormPair(segments[0])] + FormPairs(segments[1..])
  }

  /** The values given for `name`, in order. */
  function ValuesOf(pairs: seq<(string, string)>, name: string): (values: seq<string>)
    ensures |values| <= |pairs|
    ensures forall v :: v in values ==> (name, v) in pairs
  {
    if pairs == [] then []
    else if pairs[0].0 == name then [pairs[0].1] + ValuesOf(pairs[1..], name)
    else ValuesOf(pairs[1..], name)
  }

  /** With no empty segment, every segment gives one pair, in order. */
  lemma {:induction false} FormPairsOfNonEmpty(segments: seq<string>)
    requires forall k :: 0 <= k < |segments| ==> segments[k] != []
    ensures |FormPairs(segments)| == |segments|
    ensures forall k :: 0 <= k < |segments| ==> FormPairs(segments)[k] == FormPair(segments[k])
  {
    if segments != [] {
      FormPairsOfNonEmpty(segments[1..]);
    }
  }

  /** Some name is given by two different pairs. */
  predicate Repeated(pairs: seq<(string, string)>, name: string) {
    exists i, j :: 0 <= i < j < |pairs| && pairs[i].0 == name && pairs[j].0 == name
  }

  /** A name that is given has at least one value. */
  lemma {:induction false} ValuesOfPresent(pairs: seq<(string, string)>, name: string, i: nat)
    requires i < |pairs| && pairs[i].0 == name
    ensures |ValuesOf(pairs, name)| > 0
  {
    if i > 0 {
      ValuesOfPresent(pairs[1..], name, i - 1);
    }
  }

  /** A name has two or more values exactly when it is given twice. */
  lemma ValuesOfRepeated(pairs: seq<(string, string)>, name: string)
    ensures |ValuesOf(pairs, name)| > 1 <==> Repeated(pairs, name)
  {
    if Repeated(pairs, name) {
      RepeatedValues(pairs, name);
    }
    if |ValuesOf(pairs, name)| > 1 {
      ValuesRepeated(pairs, name);
    }
  }

  lemma RepeatedValues(pairs: seq<(string, string)>, name: string)
    requires Repeated(pairs, name)
    ensures |ValuesOf(pairs, name)| > 1
  {
    var i, j :| 0 <= i < j < |pairs| && pairs[i].0 == name && pairs[j].0 == name;
    RepeatedAtValues(pairs, name, i, j);
  }

  lemma {:induction false} RepeatedAtValues(pairs: seq<(string, string)>, name: string, i: nat, j: nat)
    requires i < j < |pairs| && pairs[i].0 == name && pairs[j].0 == name
    ensures |ValuesOf(pairs, name)| > 1
  {
    if i > 0 {
      RepeatedAtValues(pairs[1..], name, i - 1, j - 1);
    } else {
      ValuesOfPresent(pairs[1..], name, j - 1);
    }
  }

  lemma {:induction false} ValuesRepeated(pairs: seq<(string, string)>, name: string)
    requires |ValuesOf(pairs, name)| > 1
    ensures Repeated(pairs, name)
  {
    var rest := pairs[1..];
    if pairs[0].0 == name {
      var v := ValuesOf(rest, name)[0];
      assert (name, v) in rest;
      var k :| 0 <= k < |rest| && rest[k] == (name, v);
      assert pairs[0].0 == name && pairs[k + 1].0 == name;
    } else {
      ValuesRepeated(rest, name);
      var i, j :| 0 <= i < j < |rest| && rest[i].0 == name && rest[j].0 == name;
      assert pairs[i + 1].0 == name && pairs[j + 1].0 == name;
    }
  }

  /** A name given exactly once has exactly that one value. */
  lemma {:induction false} ValuesOfSingle(pairs: seq<(string, string)>, name: string, i: nat)
    requires i < |pairs| && pairs[i].0 == name
    requires forall k :: 0 <= k < |pairs| && k != i ==> pairs[k].0 != name
    ensures ValuesOf(pairs, name) == [pairs[i].1]
  {
    if i > 0 {
      ValuesOfSingle(pairs[1..], name, i - 1);
    } else {
      ValuesOfAbsent(pairs[1..], name);
    }
  }

  lemma {:induction false} ValuesOfAbsent(pairs: seq<(string, string)>, name: string)
    requires forall k :: 0 <= k < |pairs| ==> pairs[k].0 != name
    ensures ValuesOf(pairs, name) == []
  {
    if pairs != [] {
      ValuesOfAbsent(pairs[1..], name);
    }
  }

  function FirstOf(values: seq<string>): Option<string> {
    if values == [] then None else Some(values[0])
  }

  /** The decoded pairs of a raw query string; no query reads as the empty one. */
  function QueryFormPairs(rawQuery: Option<string>): seq<(string, string)> {
    FormPairs(Split(rawQuery.GetOr(""), '&'))
  }

  /** No field of `SignedUrlQuery` is given twice. */
  predicate FieldsGivenOnce(pairs: seq<(string, string)>) {
    !Repeated(pairs, "sig") && !Repeated(pairs, "exp") && !Repeated(pairs, "client")
  }

  /**
    `Query<SignedUrlQuery>`, with a rejection replaced by the empty query: a
    field given twice makes deserialisation fail, other names are ignored.
  */
  function ParseSignedUrlQuery(rawQuery: Option<string>): (q: SignedUrlQuery)
    ensures q.sig.Some? ==> ("sig", q.sig.value) in QueryFormPairs(rawQuery)
    ensures q.exp.Some? ==> ("exp", q.exp.value) in QueryFormPairs(rawQuery)
    ensures q.client.Some? ==> ("client", q.client.value) in QueryFormPairs(rawQuery)
    ensures !FieldsGivenOnce(QueryFormPairs(rawQuery)) ==> q == SignedUrlQuery(None, None, None)
    ensures var p := QueryFormPairs(rawQuery);
      FieldsGivenOnce(p) ==>
        forall i :: 0 <= i < |p| ==>
          (p[i].0 == "sig" ==> q.sig == Some(p[i].1))
          && (p[i].0 == "exp" ==> q.exp == Some(p[i].1))
          && (p[i].0 == "client" ==> q.client == Some(p[i].1))
  {
    var pairs := QueryFormPairs(rawQuery);
    var sigs, exps, clients := ValuesOf(pairs, "sig"), ValuesOf(pairs, "exp"), ValuesOf(pairs, "client");
    ValuesOfRepeated(pairs, "sig");
    ValuesOfRepeated(pairs, "exp");
    ValuesOfRepeated(pairs, "client");
    if |sigs| > 1 || |exps| > 1 || |clients| > 1 then SignedUrlQuery(None, None, None)
    else
      assert forall i :: 0 <= i < |pairs| ==>
          (pairs[i].0 == "sig" ==> sigs == [pairs[i].1])
          && (pairs[i].0 == "exp" ==> exps == [pairs[i].1])
          && (pairs[i].0 == "client" ==> clients == [pairs[i].1]) by {
        forall i | 0 <= i < |pairs|
          ensures pairs[i].0 == "sig" ==> sigs == [pairs[i].1]
          ensures pairs[i].0 == "exp" ==> exps == [pairs[i].1]
          ensures pairs[i].0 == "client" ==> clients == [pairs[i].1]
        {
          GivenOnceSingle(pairs, "sig", i);
          GivenOnceSingle(pairs, "exp", i);
          GivenOnceSingle(pairs, "client", i);
        }
      }
      SignedUrlQuery(FirstOf(sigs), FirstOf(exps), FirstOf(clients))
  }

  /** A name that is not repeated and is given at `i` has just that value. */
  lemma GivenOnceSingle(pairs: seq<(string, string)>, name: string, i: nat)
    requires i < |pairs| && !Repeated(pairs, name)
    ensures pairs[i].0 == name ==> ValuesOf(pairs, name) == [pairs[i].1]
  {
    if pairs[i].0 == name {
      forall k | 0 <= k < |pairs| && k != i
        ensures pairs[k].0 != name
      {
        assert !(pairs[i].0 == name && pairs[k].0 == name);
      }
      ValuesOfSingle(pairs, name, i);
    }
  }

  /** The first '&'-separated segment that starts with "url=", without that prefix. */
  function UrlSegment(segments: seq<string>): (r: Option<string>)
    ensures r.Some? ==> "url=" + r.value in segments
    ensures r.Some? ==>
      exists i :: 0 <= i < |segments| && segments[i] == "url=" + r.value
        && forall j :: 0 <= j < i ==> !("url=" <= segments[j])
    ensures r.None? ==> forall s :: s in segments ==> !("url=" <= s)
  {
    if segments == [] then None
    else if "url=" <= segments[0] then
      assert "url=" + segments[0][4..] == segments[0];
      Some(segments[0][4..])
    else
      var r := UrlSegment(segments[1..]);
      assert forall s :: s in segments ==> s == segments[0] || s in segments[1..];
      if r.Some? then
        var i :| 0 <= i < |segments[1..]| && segments[1..][i] == "url=" + r.value
          && forall j :: 0 <= j < i ==> !("url=" <= segments[1..][j]);
        assert segments[i + 1] == "url=" + r.value;
        assert forall j :: 0 <= j < i + 1 ==> !("url=" <= segments[j]) by {
          forall j | 0 <= j < i + 1
            ensures !("url=" <= segments[j])
          {
            if j > 0 {
              assert segments[j] == segments[1..][j - 1];
            }
          }
        }
        r
      else r
  }

  /** The raw, undecoded `url` parameter the signature covers. */
  function UrlParam(rawQuery: Option<string>): (r: Option<string>)
    ensures r.Some? ==> rawQuery.Some? && "url=" + r.value in Split(rawQuery.value, '&')
    ensures rawQuery.Some? && r.None? ==> forall s :: s in Split(rawQuery.value, '&') ==> !("url=" <= s)
  {
    match rawQuery
    case None => None
    case Some(q) => UrlSegment(Split(q, '&'))
  }

  /**
    `EdgeAuthentication::from_request_parts` at time `now`: a request with
    both `sig` and `exp` must carry an integer expiry, a `url` segment and a
    signature that verifies for the query's `client` (or else the derived id);
    every other request is let through. The identity is always the derived id.
  */
  function Authenticate(u: SignatureUtil, hasher: ClientHasher, now: int, h: RequestHeaders, rawQuery: Option<string>): (r: Result<string, Error>)
    ensures r.Ok? ==> r.value == ClientId(hasher, h)
    ensures r.Err? ==> r.error == Unauthorized
    ensures var q := ParseSignedUrlQuery(rawQuery);
      (r.Err? <==>
        (q.sig.Some? && q.exp.Some?
         && (ParseI64(q.exp.value).None? || UrlParam(rawQuery).None?
             || now > ParseI64(q.exp.value).value
             || q.sig.value != u.GenerateSignature(q.client.GetOr(ClientId(hasher, h)), ParseI64(q.exp.value).value, UrlParam(rawQuery).value))))
  {
    var clientId := ClientId(hasher, h);
    var q := ParseSignedUrlQuery(rawQuery);
    if q.sig.Some? && q.exp.Some? then
      match ParseI64(q.exp.value)
      case None => Err(Unauthorized)
      case Some(expiry) =>
        match UrlParam(rawQuery)
        case None => Err(Unauthorized)
        case Some(url) =>
          var signatureClientId := q.client.GetOr(clientId);
          if !u.VerifySignature(now, signatureClientId, expiry, url, q.sig.value) then Err(Unauthorized)
          else Ok(clientId)
    else Ok(clientId)
  }

  /** A missing IP or user agent hashes like the text "unknown". */
  lemma UnknownDefaults(hasher: ClientHasher, ip: Option<string>, userAgent: Option<string>)
    ensures GenerateClientId(hasher, None, userAgent) == GenerateClientId(hasher, Some("unknown"), userAgent)
    ensures GenerateClientId(hasher, ip, None) == GenerateClientId(hasher, ip, Some("unknown"))
  {
  }
}
