/**
  The Redis server the services share, as far as they use it: string keys
  holding byte strings, each with an optional second at which it expires, a
  clock, and whether the server answers at all. Every command the services
  send is a function of the key space and the clock; the services apply
  them to one shared `Store`.
*/
module RedisStore {
  import opened Wrappers
  import opened Utf8
  import opened Text

  /**
    What a key holds: a byte string, or an integer that Redis keeps in its
    integer encoding and hands out as its decimal text.
  */
  datatype Value = Int(n: int) | Str(bytes: seq<byte>)

  /** A stored value and the second it expires at, if it has an expiry. */
  datatype Entry = Entry(value: Value, expiresAt: Option<int>)

  type Entries = map<string, Entry>

  /** Why a command or a pipeline gives the caller no usable reply. */
  datatype StoreError =
    | Unreachable        // the connection failed
    | NotAnInteger       // INCR on a value that is not a 64-bit integer, or that would overflow
    | InvalidExpireTime  // SET EX with a number of seconds that is not positive
    | WrongReplyType     // the reply does not convert to the type the caller asked for

  const U32Max: int := 0xFFFF_FFFF

  predicate IsU32(n: int) {
    0 <= n <= U32Max
  }

  /** A key exists until the second it expires at. */
  predicate Live(entries: Entries, now: int, key: string) {
    key in entries && (entries[key].expiresAt.None? || now < entries[key].expiresAt.value)
  }

  /** The bytes a value reads as. */
  function Bytes(v: Value): seq<byte> {
    match v
    case Int(n) => Encode(ToDecimal(n))
    case Str(b) => b
  }

  /** GET. */
  function Get(entries: Entries, now: int, key: string): Option<seq<byte>> {
    if Live(entries, now, key) then Some(Bytes(entries[key].value)) else None
  }

  /** TTL: the seconds a key has left; -2 for a missing key and -1 for a key without expiry. */
  function Ttl(entries: Entries, now: int, key: string): int {
    if !Live(entries, now, key) then -2
    else match entries[key].expiresAt
      case None => -1
      case Some(t) => t - now
  }

  /** The value of a run of ASCII digits, most significant first; None if a byte is not a digit. */
  function DecimalDigits(b: seq<byte>): Option<nat>
    decreases |b|
  {
    if b == [] then Some(0)
    else
      var last := b[|b| - 1];
      if last < 48 || last > 57 then None
      else match DecimalDigits(b[..|b| - 1])
        case None => None
        case Some(v) => Some(v * 10 + (last - 48))
  }

  /** Digits without a leading zero (but "0" itself), as a number. */
  function CanonicalValue(digits: seq<byte>): Option<nat> {
    if digits == [] || (digits[0] == 48 && |digits| > 1) then None else DecimalDigits(digits)
  }

  /**
    The integer a string spells: canonical digits, or a '-' and canonical
    digits other than "0".
  */
  function IntegerValue(b: seq<byte>): Option<int> {
    if |b| > 0 && b[0] == 45 then
      match CanonicalValue(b[1..])
      case None => None
      case Some(v) => if v > 0 then Some(-(v as int)) else None
    else
      match CanonicalValue(b)
      case None => None
      case Some(v) => Some(v)
  }

  /** What INCR counts up from: 0 for a missing key, the integer a live key holds otherwise. */
  function Counter(entries: Entries, now: int, key: string): Option<int> {
    if !Live(entries, now, key) then Some(0)
    else match entries[key].value
      case Int(n) => Some(n)
      case Str(b) => IntegerValue(b)
  }

  /**
    INCR: the counter goes up by one; a live key keeps its expiry, a new key
    has none; the old and the new count must fit in 64 bits.
  */
  function Incr(entries: Entries, now: int, key: string): Result<(Entries, int), StoreError> {
    match Counter(entries, now, key)
    case None => Err(NotAnInteger)
    case Some(n) =>
      if !IsI64(n) || !IsI64(n + 1) then Err(NotAnInteger)
      else
        var expiresAt := if Live(entries, now, key) then entries[key].expiresAt else None;
        Ok((entries[key := Entry(Int(n + 1), expiresAt)], n + 1))
  }

  /** EXPIRE: a live key expires `seconds` from now (at once when that is not positive); 1 iff the key was live. */
  function Expire(entries: Entries, now: int, key: string, seconds: int): (Entries, int) {
    if !Live(entries, now, key) then (entries, 0)
    else if seconds <= 0 then (entries - {key}, 1)
    else (entries[key := entries[key].(expiresAt := Some(now + seconds))], 1)
  }

  /** SET key value EX seconds. */
  function SetEx(entries: Entries, now: int, key: string, value: seq<byte>, seconds: int): Result<Entries, StoreError> {
    if seconds <= 0 then Err(InvalidExpireTime)
    else Ok(entries[key := Entry(Str(value), Some(now + seconds))])
  }

  /** SET EX whose reply the caller only logs: an unreachable store or a refused write leaves every key as it was. */
  function SetExLogged(entries: Entries, now: int, up: bool, key: string, value: seq<byte>, seconds: int): Entries {
    if !up then entries
    else match SetEx(entries, now, key, value, seconds)
      case Err(_) => entries
      case Ok(after) => after
  }

  /** DEL: the key is gone; the reply counts it iff it was live. */
  function Del(entries: Entries, now: int, key: string): (Entries, int) {
    (entries - {key}, if Live(entries, now, key) then 1 else 0)
  }

  /**
    The text GET hands out for an integer counts on from the same integer:
    INCR after a GET-and-SET round trip continues where the integer was.
  */
  lemma IntegerRoundTrip(n: int)
    ensures IntegerValue(Bytes(Int(n))) == Some(n)
  {
    var m: nat := if n < 0 then -n else n;
    var d := NatToDecimal(m);
    var e := Encode(d);
    EncodeAscii(d);
    DigitBytes(e, d);
    DigitsOfDecimal(m);
    LeadingDigit(m);
    assert e[0] == d[0] as int;
    if n < 0 {
      assert ToDecimal(n) == "-" + d;
      EncodeAppend("-", d);
      var b := Bytes(Int(n));
      assert b == [45] + e;
      assert b[1..] == e;
      NegatedDigits(b, m);
    } else {
      assert ToDecimal(n) == d;
      CanonicalDigits(e, m);
    }
  }

  /** Canonical digits read as their value. */
  lemma CanonicalDigits(e: seq<byte>, m: nat)
    requires DecimalDigits(e) == Some(m) && |e| > 0 && e[0] != 45 && (e[0] == 48 ==> m == 0 && |e| == 1)
    ensures IntegerValue(e) == Some(m)
  {
  }

  /** A '-' before canonical digits other than "0" reads as the negated value. */
  lemma NegatedDigits(b: seq<byte>, m: nat)
    requires |b| > 1 && b[0] == 45 && b[1] != 48 && DecimalDigits(b[1..]) == Some(m)
    requires 0 < m
    ensures IntegerValue(b) == Some(-(m as int))
  {
    assert CanonicalValue(b[1..]) == Some(m);
  }

  /** The bytes of a run of decimal digits read as the number the digits spell. */
  lemma {:induction false} DigitBytes(b: seq<byte>, s: string)
    requires AllDigits(s) && |b| == |s|
    requires forall i :: 0 <= i < |s| ==> b[i] == s[i] as int
    ensures DecimalDigits(b) == Some(DigitsValue(s))
    decreases |s|
  {
    if s != [] {
      DigitBytes(b[..|b| - 1], s[..|s| - 1]);
    }
  }

  /** A natural number's decimal text starts with '0' only when it is "0". */
  lemma {:induction false} LeadingDigit(m: nat)
    ensures NatToDecimal(m)[0] == '0' ==> m == 0 && |NatToDecimal(m)| == 1
  {
    if m >= 10 {
      LeadingDigit(m / 10);
      assert NatToDecimal(m)[0] == NatToDecimal(m / 10)[0];
    }
  }

  /**
    INCR succeeds exactly when the key counts from a 64-bit integer with room
    for one more; then the key reads back one higher, keeps its expiry, and no
    other key changes.
  */
  lemma IncrCounts(entries: Entries, now: int, key: string)
    ensures Incr(entries, now, key).Ok? <==>
      Counter(entries, now, key).Some? && IsI64(Counter(entries, now, key).value) && IsI64(Counter(entries, now, key).value + 1)
    ensures Incr(entries, now, key).Ok? ==>
      var (after, n) := Incr(entries, now, key).value;
      && n == Counter(entries, now, key).value + 1
      && Counter(after, now, key) == Some(n)
      && Ttl(after, now, key) == (if Live(entries, now, key) then Ttl(entries, now, key) else -1)
      && (forall k :: k != key ==> (k in after <==> k in entries))
      && (forall k :: k != key && k in entries ==> after[k] == entries[k])
  {
  }

  /** After SET EX the key holds the value for exactly `seconds` seconds. */
  lemma SetExHolds(entries: Entries, now: int, key: string, value: seq<byte>, seconds: int, t: int)
    requires seconds > 0
    ensures SetEx(entries, now, key, value, seconds).Ok?
    ensures Get(SetEx(entries, now, key, value, seconds).value, t, key) == (if t < now + seconds then Some(value) else None)
    ensures t < now + seconds ==> Ttl(SetEx(entries, now, key, value, seconds).value, t, key) == now + seconds - t
  {
  }

  /** After EXPIRE with a positive time a live key keeps its value and lives exactly that long. */
  lemma ExpireHolds(entries: Entries, now: int, key: string, seconds: int, t: int)
    requires Live(entries, now, key) && seconds > 0
    ensures Get(Expire(entries, now, key, seconds).0, t, key) == (if t < now + seconds then Get(entries, now, key) else None)
    ensures Ttl(Expire(entries, now, key, seconds).0, now, key) == seconds
  {
  }

  /** The server as the services see it. */
  class Store {
    var entries: Entries
    var now: int
    var up: bool

    constructor (now: int, up: bool)
      ensures entries == map[] && this.now == now && this.up == up
    {
      entries := map[];
      this.now := now;
      this.up := up;
    }

    /** The clock moves on; keys whose second has come read as missing from then on. */
    method Advance(seconds: nat)
      modifies this
      ensures now == old(now) + seconds && entries == old(entries) && up == old(up)
    {
      now := now + seconds;
    }
  }
}
