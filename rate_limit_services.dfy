/**
  The edge rate limiter: a per-client request counter that lives one window
  past the client's last request, a per-client error counter, and a timeout
  that a burst of errors switches on. All three live in the shared store.
*/
module RateLimitServices {
  import opened Wrappers
  import opened Utf8
  import opened Text
  import opened RedisStore

  datatype RateLimitConfig = RateLimitConfig(
    maxRequestsPerWindow: nat,
    windowSeconds: nat,
    maxErrorsBeforeTimeout: nat,
    errorWindowSeconds: nat,
    timeoutDurationSeconds: nat)

  /** The limits the service runs with. */
  const DefaultConfig := RateLimitConfig(500, 60, 50, 600, 300)

  datatype RateLimitResult =
    | Allowed(remaining: nat, resetAt: int)
    | RateLimited(retryAfter: nat)
    | TimedOut(reason: string, retryAfter: nat)

  /** The request counter's key: the `edge_rate_limit:` namespace, then the client id. */
  function RateLimitKey(clientId: string): (k: string)
    ensures "edge_rate_limit:" <= k && |k| == 16 + |clientId| && k[16..] == clientId
  {
    "edge_rate_limit:" + clientId
  }

  /** The error counter's key: the `edge_error_count:` namespace, then the client id. */
  function ErrorCountKey(clientId: string): (k: string)
    ensures "edge_error_count:" <= k && |k| == 17 + |clientId| && k[17..] == clientId
  {
    "edge_error_count:" + clientId
  }

  /** The timeout's key: the `edge_timeout:` namespace, then the client id. */
  function TimeoutKey(clientId: string): (k: string)
    ensures "edge_timeout:" <= k && |k| == 13 + |clientId| && k[13..] == clientId
  {
    "edge_timeout:" + clientId
  }

  /** The three kinds of key never meet, and each key belongs to one client. */
  lemma KeysApart(a: string, b: string)
    ensures RateLimitKey(a) != ErrorCountKey(b)
    ensures RateLimitKey(a) != TimeoutKey(b)
    ensures ErrorCountKey(a) != TimeoutKey(b)
    ensures RateLimitKey(a) == RateLimitKey(b) ==> a == b
    ensures ErrorCountKey(a) == ErrorCountKey(b) ==> a == b
    ensures TimeoutKey(a) == TimeoutKey(b) ==> a == b
  {
    assert RateLimitKey(a)[5] == 'r' && ErrorCountKey(a)[5] == 'e' && TimeoutKey(a)[5] == 't';
    assert RateLimitKey(b)[5] == 'r' && ErrorCountKey(b)[5] == 'e' && TimeoutKey(b)[5] == 't';
    assert RateLimitKey(a)[16..] == a && RateLimitKey(b)[16..] == b;
    assert ErrorCountKey(a)[17..] == a && ErrorCountKey(b)[17..] == b;
    assert TimeoutKey(a)[13..] == a && TimeoutKey(b)[13..] == b;
  }

  /**
    `is_user_timed_out`: the stored reason and the seconds it has left, while
    a reason is stored with time left; None as well when the store fails.
  */
  function TimeoutOf(entries: Entries, now: int, up: bool, clientId: string): (r: Option<(string, nat)>)
    ensures !up ==> r.None?
    ensures r.Some? ==> r.value.1 > 0 && r.value.1 == Ttl(entries, now, TimeoutKey(clientId))
    ensures r.Some? ==>
      (Get(entries, now, TimeoutKey(clientId)).Some?
       && Decode(Get(entries, now, TimeoutKey(clientId)).value) == Some(r.value.0))
    ensures (up && Get(entries, now, TimeoutKey(clientId)).Some? && Ttl(entries, now, TimeoutKey(clientId)) > 0
             && Decode(Get(entries, now, TimeoutKey(clientId)).value).Some?) ==> r.Some?
  {
    if !up then None
    else match Get(entries, now, TimeoutKey(clientId))
      case None => None
      case Some(v) =>
        match Decode(v)
        case None => None
        case Some(reason) =>
          var ttl := Ttl(entries, now, TimeoutKey(clientId));
          if ttl > 0 then Some((reason, ttl)) else None
  }

  /** The answer to a request that brought the counter to `count`, with `ttl` seconds left on it. */
  function Verdict(config: RateLimitConfig, count: nat, ttl: int, now: int): RateLimitResult {
    if count > config.maxRequestsPerWindow then RateLimited(if ttl > 1 then ttl else 1)
    else Allowed(config.maxRequestsPerWindow - count, now + ttl)
  }

  /**
    `check_rate_limit`: a timed-out client is answered before anything is
    counted; otherwise one atomic INCR, EXPIRE window, TTL, and a failed
    store lets the request through with nothing remaining.
  */
  function CheckOutcome(config: RateLimitConfig, entries: Entries, now: int, up: bool, clientId: string): (RateLimitResult, Entries) {
    match TimeoutOf(entries, now, up, clientId)
    case Some((reason, retryAfter)) => (TimedOut(reason, retryAfter), entries)
    case None =>
      var key := RateLimitKey(clientId);
      var failOpen := Allowed(0, now + config.windowSeconds);
      if !up then (failOpen, entries)
      else match Incr(entries, now, key)
        case Err(_) => (failOpen, Expire(entries, now, key, config.windowSeconds).0)
        case Ok((counted, count)) =>
          var expired := Expire(counted, now, key, config.windowSeconds).0;
          if !IsU32(count) then (failOpen, expired)
          else (Verdict(config, count, Ttl(expired, now, key), now), expired)
  }

  /**
    Every check: a failing store lets the request through with nothing
    remaining and the store untouched; the client is timed out exactly when a
    timeout with time left is stored, and then nothing is counted; a refusal
    asks for at least one second; what remains never exceeds the limit.
  */
  lemma CheckBounds(config: RateLimitConfig, entries: Entries, now: int, up: bool, clientId: string)
    ensures var r := CheckOutcome(config, entries, now, up, clientId);
      && (!up ==> r == (Allowed(0, now + config.windowSeconds), entries))
      && (r.0.TimedOut? <==> TimeoutOf(entries, now, up, clientId).Some?)
      && (r.0.TimedOut? ==> r.1 == entries && r.0.retryAfter > 0)
      && (r.0.RateLimited? ==> r.0.retryAfter >= 1)
      && (r.0.Allowed? ==> r.0.remaining <= config.maxRequestsPerWindow)
  {
  }

  /** A check changes the client's request counter and no other key. */
  lemma CheckTouchesOnlyCounter(config: RateLimitConfig, entries: Entries, now: int, up: bool, clientId: string, k: string)
    requires k != RateLimitKey(clientId)
    ensures k in CheckOutcome(config, entries, now, up, clientId).1 <==> k in entries
    ensures k in entries ==> CheckOutcome(config, entries, now, up, clientId).1[k] == entries[k]
  {
  }

  /**
    One check by a client that is not timed out and whose counter stands at
    `n`: the counter becomes n + 1 and lives one full window from now, and
    the answer is the verdict on n + 1 with the whole window left.
  */
  lemma CheckCounts(config: RateLimitConfig, entries: Entries, now: int, clientId: string, n: int)
    requires config.windowSeconds > 0
    requires TimeoutOf(entries, now, true, clientId).None?
    requires Counter(entries, now, RateLimitKey(clientId)) == Some(n)
    requires 0 <= n && n + 1 <= U32Max
    ensures CheckOutcome(config, entries, now, true, clientId) ==
      (Verdict(config, n + 1, config.windowSeconds, now),
       entries[RateLimitKey(clientId) := Entry(Int(n + 1), Some(now + config.windowSeconds))])
  {
    var key := RateLimitKey(clientId);
    var incr := Incr(entries, now, key);
    assert incr.Ok? && incr.value.1 == n + 1;
    var counted := incr.value.0;
    assert Live(counted, now, key);
    var expired := Expire(counted, now, key, config.windowSeconds).0;
    assert expired == entries[key := Entry(Int(n + 1), Some(now + config.windowSeconds))];
    assert Ttl(expired, now, key) == config.windowSeconds;
  }

  /** Successive checks by one client at the given seconds: the answers and the store after them. */
  function RunChecks(config: RateLimitConfig, entries: Entries, up: bool, clientId: string, times: seq<int>): (r: (seq<RateLimitResult>, Entries))
    ensures |r.0| == |times|
    decreases |times|
  {
    if times == [] then ([], entries)
    else
      var (first, next) := CheckOutcome(config, entries, times[0], up, clientId);
      var (rest, last) := RunChecks(config, next, up, clientId, times[1..]);
      ([first] + rest, last)
  }

  /** The verdicts on the counts c, c + 1, ... at the given seconds, a full window left each time. */
  function Verdicts(config: RateLimitConfig, c: nat, times: seq<int>): (r: seq<RateLimitResult>)
    ensures |r| == |times|
    decreases |times|
  {
    if times == [] then [] else [Verdict(config, c, config.windowSeconds, times[0])] + Verdicts(config, c + 1, times[1..])
  }

  lemma {:induction false} VerdictsAt(config: RateLimitConfig, c: nat, times: seq<int>, i: nat)
    requires i < |times|
    ensures Verdicts(config, c, times)[i] == Verdict(config, c + i, config.windowSeconds, times[i])
    decreases i
  {
    if i > 0 {
      VerdictsAt(config, c + 1, times[1..], i - 1);
    }
  }

  /**
    Requests less than a window apart keep one counter going: starting from a
    counter at `n`, the requests of the run are judged on n + 1, n + 2, ...
  */
  lemma {:induction false} ChecksWithinWindow(config: RateLimitConfig, entries: Entries, clientId: string, times: seq<int>, n: nat)
    requires config.windowSeconds > 0
    requires TimeoutKey(clientId) !in entries
    requires |times| > 0 ==> Counter(entries, times[0], RateLimitKey(clientId)) == Some(n)
    requires forall i :: 0 < i < |times| ==> times[i] < times[i - 1] + config.windowSeconds
    requires n + |times| <= U32Max
    ensures RunChecks(config, entries, true, clientId, times).0 == Verdicts(config, n + 1, times)
    decreases |times|
  {
    if times != [] {
      var next := FirstCheck(config, entries, clientId, times, n);
      ChecksWithinWindow(config, next, clientId, times[1..], n + 1);
    }
  }

  /** The first check of a run: its verdict, and a store from which the rest of the run counts on. */
  lemma FirstCheck(config: RateLimitConfig, entries: Entries, clientId: string, times: seq<int>, n: nat) returns (next: Entries)
    requires config.windowSeconds > 0
    requires TimeoutKey(clientId) !in entries
    requires |times| > 0 && Counter(entries, times[0], RateLimitKey(clientId)) == Some(n)
    requires forall i :: 0 < i < |times| ==> times[i] < times[i - 1] + config.windowSeconds
    requires n + 1 <= U32Max
    ensures RunChecks(config, entries, true, clientId, times).0 ==
      [Verdict(config, n + 1, config.windowSeconds, times[0])] + RunChecks(config, next, true, clientId, times[1..]).0
    ensures TimeoutKey(clientId) !in next
    ensures |times| > 1 ==> Counter(next, times[1], RateLimitKey(clientId)) == Some(n + 1)
    ensures forall i :: 0 < i < |times[1..]| ==> times[1..][i] < times[1..][i - 1] + config.windowSeconds
  {
    KeysApart(clientId, clientId);
    assert TimeoutOf(entries, times[0], true, clientId).None?;
    CheckCounts(config, entries, times[0], clientId, n);
    next := entries[RateLimitKey(clientId) := Entry(Int(n + 1), Some(times[0] + config.windowSeconds))];
    RunChecksFirst(config, entries, true, clientId, times, Verdict(config, n + 1, config.windowSeconds, times[0]), next);
    var tail := times[1..];
    assert forall i :: 0 < i < |tail| ==> tail[i] == times[i + 1] && tail[i - 1] == times[i];
  }

  lemma RunChecksFirst(config: RateLimitConfig, entries: Entries, up: bool, clientId: string, times: seq<int>,
                       first: RateLimitResult, next: Entries)
    requires |times| > 0 && CheckOutcome(config, entries, times[0], up, clientId) == (first, next)
    ensures RunChecks(config, entries, up, clientId, times).0 == [first] + RunChecks(config, next, up, clientId, times[1..]).0
  {
  }

  /**
    Requests less than a window apart: the first `maxRequestsPerWindow` are
    let through, the k-th with max - k left and its reset a full window away,
    and the next one is refused for a full window.
  */
  lemma WindowLimit(config: RateLimitConfig, entries: Entries, clientId: string, times: seq<int>)
    requires config.windowSeconds > 0
    requires TimeoutKey(clientId) !in entries
    requires |times| == config.maxRequestsPerWindow + 1 <= U32Max
    requires !Live(entries, times[0], RateLimitKey(clientId))
    requires forall i :: 0 < i < |times| ==> times[i] < times[i - 1] + config.windowSeconds
    ensures forall i :: 0 <= i < |times| - 1 ==>
      RunChecks(config, entries, true, clientId, times).0[i] == Allowed(config.maxRequestsPerWindow - (i + 1), times[i] + config.windowSeconds)
    ensures RunChecks(config, entries, true, clientId, times).0[|times| - 1] == RateLimited(config.windowSeconds)
  {
    var rs := RunChecks(config, entries, true, clientId, times).0;
    ChecksWithinWindow(config, entries, clientId, times, 0);
    forall i | 0 <= i < |times|
      ensures rs[i] == Verdict(config, i + 1, config.windowSeconds, times[i])
    {
      VerdictsAt(config, 1, times, i);
    }
  }

  /**
    Under the default limits a client's 500th request in a window is let
    through with nothing remaining and the 501st is refused for the window's
    full 60 seconds.
  */
  lemma FiveHundredPerWindow(entries: Entries, clientId: string, times: seq<int>)
    requires TimeoutKey(clientId) !in entries
    requires |times| == 501 && !Live(entries, times[0], RateLimitKey(clientId))
    requires forall i :: 0 < i < |times| ==> times[i] < times[i - 1] + 60
    ensures forall i :: 0 <= i < 500 ==> RunChecks(DefaultConfig, entries, true, clientId, times).0[i].Allowed?
    ensures RunChecks(DefaultConfig, entries, true, clientId, times).0[499] == Allowed(0, times[499] + 60)
    ensures RunChecks(DefaultConfig, entries, true, clientId, times).0[500] == RateLimited(60)
  {
    WindowLimit(DefaultConfig, entries, clientId, times);
  }

  /** `timeout_user`: SET EX of the reason; a failed write leaves the store as it was. */
  function AfterTimeout(entries: Entries, now: int, up: bool, clientId: string, reason: string, durationSeconds: nat): Entries {
    if !up then entries
    else match SetEx(entries, now, TimeoutKey(clientId), Encode(reason), durationSeconds)
      case Err(_) => entries
      case Ok(after) => after
  }

  function TimeoutReason(config: RateLimitConfig, count: nat): string {
    "Automatic timeout: " + NatToDecimal(count) + " errors in " + NatToDecimal(config.errorWindowSeconds) + " seconds"
  }

  /**
    `record_error`: one atomic INCR and EXPIRE of the error counter; from the
    threshold on, every further error (re)starts the timeout.
  */
  function AfterRecordError(config: RateLimitConfig, entries: Entries, now: int, up: bool, clientId: string): Entries {
    if !up then entries
    else
      var key := ErrorCountKey(clientId);
      match Incr(entries, now, key)
      case Err(_) => Expire(entries, now, key, config.errorWindowSeconds).0
      case Ok((counted, count)) =>
        var expired := Expire(counted, now, key, config.errorWindowSeconds).0;
        if IsU32(count) && count >= config.maxErrorsBeforeTimeout then
          AfterTimeout(expired, now, up, clientId, TimeoutReason(config, count), config.timeoutDurationSeconds)
        else expired
  }

  /** `get_error_count`: the stored count, 0 when there is none or the store fails. */
  function ErrorCountOf(entries: Entries, now: int, up: bool, clientId: string): (r: nat)
    ensures r <= U32Max
    ensures r > 0 ==>
      (up && Get(entries, now, ErrorCountKey(clientId)).Some?
       && Decode(Get(entries, now, ErrorCountKey(clientId)).value).Some?
       && ParseUsize(Decode(Get(entries, now, ErrorCountKey(clientId)).value).value) == Some(r))
  {
    if !up then 0
    else match Get(entries, now, ErrorCountKey(clientId))
      case None => 0
      case Some(v) =>
        match Decode(v)
        case None => 0
        case Some(s) =>
          match ParseUsize(s)
          case None => 0
          case Some(c) => if c <= U32Max then c else 0
  }

  /** `clear_timeout`: DEL of the timeout; true iff a live one was removed. */
  function ClearOutcome(entries: Entries, now: int, up: bool, clientId: string): (Entries, bool) {
    if !up then (entries, false)
    else
      var (after, deleted) := Del(entries, now, TimeoutKey(clientId));
      (after, deleted > 0)
  }

  /**
    An error below the threshold counts one more and leaves the timeout as it
    was; the count reads back, and the error counter lives one error window.
  */
  lemma ErrorCounted(config: RateLimitConfig, entries: Entries, now: int, clientId: string, n: nat)
    requires config.errorWindowSeconds > 0
    requires Counter(entries, now, ErrorCountKey(clientId)) == Some(n) && n + 1 <= U32Max
    requires n + 1 < config.maxErrorsBeforeTimeout
    ensures AfterRecordError(config, entries, now, true, clientId) ==
      entries[ErrorCountKey(clientId) := Entry(Int(n + 1), Some(now + config.errorWindowSeconds))]
    ensures ErrorCountOf(AfterRecordError(config, entries, now, true, clientId), now, true, clientId) == n + 1
    ensures TimeoutOf(AfterRecordError(config, entries, now, true, clientId), now, true, clientId) == TimeoutOf(entries, now, true, clientId)
  {
    var key := ErrorCountKey(clientId);
    KeysApart(clientId, clientId);
    var incr := Incr(entries, now, key);
    assert incr.Ok? && incr.value.1 == n + 1;
    assert Live(incr.value.0, now, key);
    var after := entries[key := Entry(Int(n + 1), Some(now + config.errorWindowSeconds))];
    assert AfterRecordError(config, entries, now, true, clientId) == after;
    ReadsCount(n + 1);
    assert Get(after, now, TimeoutKey(clientId)) == Get(entries, now, TimeoutKey(clientId));
    assert Ttl(after, now, TimeoutKey(clientId)) == Ttl(entries, now, TimeoutKey(clientId));
  }

  /** A count INCR wrote reads back as the same `u32`. */
  lemma ReadsCount(n: nat)
    requires n <= U32Max
    ensures Decode(Bytes(Int(n))) == Some(NatToDecimal(n))
    ensures ParseUsize(NatToDecimal(n)) == Some(n)
  {
    DecodeEncode(ToDecimal(n));
    ParseUsizeOfDecimal(n);
  }

  /**
    The error that reaches the threshold times the client out: for the next
    `timeout_duration_seconds` every check answers TimedOut with that reason
    and the seconds left, and counts nothing.
  */
  lemma ErrorsTimeOut(config: RateLimitConfig, entries: Entries, now: int, clientId: string, n: nat, t: int)
    requires config.errorWindowSeconds > 0 && config.timeoutDurationSeconds > 0
    requires Counter(entries, now, ErrorCountKey(clientId)) == Some(n) && n + 1 <= U32Max
    requires n + 1 >= config.maxErrorsBeforeTimeout
    requires t < now + config.timeoutDurationSeconds
    ensures var after := AfterRecordError(config, entries, now, true, clientId);
      && TimeoutOf(after, t, true, clientId) == Some((TimeoutReason(config, n + 1), now + config.timeoutDurationSeconds - t))
      && CheckOutcome(config, after, t, true, clientId) ==
         (TimedOut(TimeoutReason(config, n + 1), now + config.timeoutDurationSeconds - t), after)
  {
    var key := ErrorCountKey(clientId);
    var incr := Incr(entries, now, key);
    assert incr.Ok? && incr.value.1 == n + 1;
    var expired := Expire(incr.value.0, now, key, config.errorWindowSeconds).0;
    var reason := TimeoutReason(config, n + 1);
    var after := AfterTimeout(expired, now, true, clientId, reason, config.timeoutDurationSeconds);
    assert AfterRecordError(config, entries, now, true, clientId) == after;
    TimeoutReadsBack(expired, now, clientId, reason, config.timeoutDurationSeconds, t);
    TimedOutFirst(config, after, t, clientId);
  }

  /** A timeout that was written reads back with its reason until it runs out. */
  lemma TimeoutReadsBack(entries: Entries, now: int, clientId: string, reason: string, durationSeconds: nat, t: int)
    requires durationSeconds > 0 && t < now + durationSeconds
    ensures TimeoutOf(AfterTimeout(entries, now, true, clientId, reason, durationSeconds), t, true, clientId) ==
      Some((reason, now + durationSeconds - t))
  {
    DecodeEncode(reason);
  }

  /** A timed-out client is answered with its timeout, and the store is left as it was. */
  lemma TimedOutFirst(config: RateLimitConfig, entries: Entries, now: int, clientId: string)
    requires TimeoutOf(entries, now, true, clientId).Some?
    ensures var (reason, left) := TimeoutOf(entries, now, true, clientId).value;
      CheckOutcome(config, entries, now, true, clientId) == (TimedOut(reason, left), entries)
  {
  }

  /** After a successful clear no check finds the client timed out, at any time. */
  lemma ClearEndsTimeout(entries: Entries, now: int, clientId: string, t: int)
    ensures ClearOutcome(entries, now, true, clientId).1 <==> Live(entries, now, TimeoutKey(clientId))
    ensures TimeoutOf(ClearOutcome(entries, now, true, clientId).0, t, true, clientId).None?
  {
  }

  /** The service over the shared store, with the default limits. */
  class EdgeRateLimitService {
    const store: Store
    const config: RateLimitConfig

    constructor (store: Store)
      ensures this.store == store && config == DefaultConfig
    {
      this.store := store;
      config := DefaultConfig;
    }

    function IsUserTimedOut(clientId: string): (r: Option<(string, nat)>)
      reads store
      ensures r == TimeoutOf(store.entries, store.now, store.up, clientId)
    {
      TimeoutOf(store.entries, store.now, store.up, clientId)
    }

    method CheckRateLimit(clientId: string) returns (r: RateLimitResult)
      modifies store
      ensures (r, store.entries) == CheckOutcome(config, old(store.entries), store.now, store.up, clientId)
      ensures store.now == old(store.now) && store.up == old(store.up)
    {
      var timedOut := IsUserTimedOut(clientId);
      if timedOut.Some? {
        return TimedOut(timedOut.value.0, timedOut.value.1);
      }
      var key := RateLimitKey(clientId);
      var failOpen := Allowed(0, store.now + config.windowSeconds);
      if !store.up {
        return failOpen;
      }
      var incr := Incr(store.entries, store.now, key);
      var counted := if incr.Ok? then incr.value.0 else store.entries;
      store.entries := Expire(counted, store.now, key, config.windowSeconds).0;
      if incr.Err? || !IsU32(incr.value.1) {
        return failOpen;
      }
      var count := incr.value.1;
      var ttl := Ttl(store.entries, store.now, key);
      var resetAt := store.now + ttl;
      if count > config.maxRequestsPerWindow {
        r := RateLimited(if ttl > 1 then ttl else 1);
      } else {
        r := Allowed(config.maxRequestsPerWindow - count, resetAt);
      }
    }

    method RecordError(clientId: string, errorType: string)
      modifies store
      ensures store.entries == AfterRecordError(config, old(store.entries), store.now, store.up, clientId)
      ensures store.now == old(store.now) && store.up == old(store.up)
    {
      if !store.up {
        return;
      }
      var key := ErrorCountKey(clientId);
      var incr := Incr(store.entries, store.now, key);
      var counted := if incr.Ok? then incr.value.0 else store.entries;
      store.entries := Expire(counted, store.now, key, config.errorWindowSeconds).0;
      if incr.Ok? && IsU32(incr.value.1) && incr.value.1 >= config.maxErrorsBeforeTimeout {
        var count := incr.value.1;
        TimeoutUser(clientId, TimeoutReason(config, count), config.timeoutDurationSeconds);
      }
    }

    method TimeoutUser(clientId: string, reason: string, durationSeconds: nat)
      modifies store
      ensures store.entries == AfterTimeout(old(store.entries), store.now, store.up, clientId, reason, durationSeconds)
      ensures store.now == old(store.now) && store.up == old(store.up)
    {
      if store.up {
        var written := SetEx(store.entries, store.now, TimeoutKey(clientId), Encode(reason), durationSeconds);
        if written.Ok? {
          store.entries := written.value;
        }
      }
    }

    method ClearTimeout(clientId: string) returns (cleared: bool)
      modifies store
      ensures (store.entries, cleared) == ClearOutcome(old(store.entries), store.now, store.up, clientId)
      ensures store.now == old(store.now) && store.up == old(store.up)
    {
      if !store.up {
        return false;
      }
      var deleted;
      store.entries, deleted := Del(store.entries, store.now, TimeoutKey(clientId)).0, Del(store.entries, store.now, TimeoutKey(clientId)).1;
      cleared := deleted > 0;
    }

    function GetErrorCount(clientId: string): (r: nat)
      reads store
      ensures r == ErrorCountOf(store.entries, store.now, store.up, clientId)
    {
      ErrorCountOf(store.entries, store.now, store.up, clientId)
    }

    /** No client is exempt at the edge. */
    predicate IsExempt(clientId: string)
      ensures !IsExempt(clientId)
    {
      false
    }

    /** Exemptions are not kept at the edge: nothing changes. */
    method SetExempt(clientId: string, exempt: bool)
      ensures !IsExempt(clientId)
    {
    }
  }
}
