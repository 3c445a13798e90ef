/**
  Signed proxy URLs: an HMAC-SHA256 (RFC 2104) tag over the client id, the
  expiry and the url, written as lower-case hex, and its verification.
  The MAC is a parameter of the utility; the clock is the `now` argument.
*/
module SignatureUtils {
  import opened Utf8
  import opened Text

  /** HMAC-SHA256: the tag of a message under a key. */
  type Hmac = (seq<byte>, seq<byte>) -> seq<byte>

  /** Bitwise exclusive or of two naturals, bit by bit from the lowest. */
  function BitXor(x: nat, y: nat): nat
    decreases x + y
  {
    if x == 0 && y == 0 then 0 else 2 * BitXor(x / 2, y / 2) + (if x % 2 == y % 2 then 0 else 1)
  }

  /** Bitwise or of two naturals. */
  function BitOr(x: nat, y: nat): nat
    decreases x + y
  {
    if x == 0 && y == 0 then 0 else 2 * BitOr(x / 2, y / 2) + (if x % 2 == 1 || y % 2 == 1 then 1 else 0)
  }

  /** `x ^ y` is zero exactly when the two are equal. */
  lemma {:induction false} XorZero(x: nat, y: nat)
    ensures BitXor(x, y) == 0 <==> x == y
    decreases x + y
  {
    if x != 0 || y != 0 {
      XorZero(x / 2, y / 2);
    }
  }

  /** `x | y` is zero exactly when both are. */
  lemma {:induction false} OrZero(x: nat, y: nat)
    ensures BitOr(x, y) == 0 <==> x == 0 && y == 0
    decreases x + y
  {
    if x != 0 || y != 0 {
      OrZero(x / 2, y / 2);
    }
  }

  /** The OR of the XORs of corresponding bytes, folded from the left starting at `acc`. */
  function DiffBits(acc: nat, a: seq<byte>, b: seq<byte>): (r: nat)
    requires |a| == |b|
    ensures r == 0 <==> acc == 0 && a == b
    decreases |a|
  {
    if a == [] then acc
    else
      var d := BitXor(a[0], b[0]);
      XorZero(a[0], b[0]);
      OrZero(acc, d);
      assert a == b <==> a[0] == b[0] && a[1..] == b[1..] by {
        if a[0] == b[0] && a[1..] == b[1..] {
          assert a == [a[0]] + a[1..] && b == [b[0]] + b[1..];
        }
      }
      DiffBits(BitOr(acc, d), a[1..], b[1..])
  }

  datatype SignatureUtil = SignatureUtil(secret: string, hmac: Hmac) {

    /** The signed text: client id, expiry in decimal and url, with no separators. */
    function Message(clientId: string, expiry: int, url: string): string {
      clientId + ToDecimal(expiry) + url
    }

    /** The tag of a message under the secret. */
    function Tag(clientId: string, expiry: int, url: string): seq<byte> {
      hmac(Utf8.Encode(secret), Utf8.Encode(Message(clientId, expiry, url)))
    }

    /** `generate_signature`: the tag in lower-case hex. */
    function GenerateSignature(clientId: string, expiry: int, url: string): (sig: string)
      ensures |sig| == 2 * |Tag(clientId, expiry, url)| && IsLowerHex(sig)
    {
      HexEncode(Tag(clientId, expiry, url))
    }

    /**
      `verify_signature`: rejects once `now` is past the expiry, otherwise compares
      the byte strings by length and an OR-of-XOR fold; this is exact equality.
    */
    function VerifySignature(now: int, clientId: string, expiry: int, url: string, signature: string): (ok: bool)
      ensures ok <==> now <= expiry && signature == GenerateSignature(clientId, expiry, url)
    {
      if now > expiry then false
      else
        var expected := GenerateSignature(clientId, expiry, url);
        var a, b := Utf8.Encode(signature), Utf8.Encode(expected);
        EncodeInjective(signature, expected);
        |a| == |b| && DiffBits(0, a, b) == 0
    }
  }

  /** `generate_expiry`: `hours` from now, in seconds. */
  function GenerateExpiry(now: int, hours: int): (r: int)
    ensures (r - now) % 3600 == 0 && (r - now) / 3600 == hours
    ensures hours > 0 ==> r > now
  {
    now + hours * 3600
  }

  /** A signature is accepted from its creation until its expiry, inclusive, and never after. */
  lemma ValidUntilExpiry(u: SignatureUtil, issued: int, hours: int, now: int, clientId: string, url: string)
    requires issued <= now
    ensures var e := GenerateExpiry(issued, hours);
      u.VerifySignature(now, clientId, e, url, u.GenerateSignature(clientId, e, url)) <==> now <= issued + hours * 3600
  {
  }

  /** A presented signature with an odd number of bytes, such as "invalid", is never accepted. */
  lemma OddLengthRejected(u: SignatureUtil, now: int, clientId: string, expiry: int, url: string, signature: string)
    requires |signature| % 2 == 1
    ensures !u.VerifySignature(now, clientId, expiry, url, signature)
  {
  }

  /** The signature of one client does not verify for another client whose tag differs. */
  lemma OtherClientRejected(u: SignatureUtil, now: int, c1: string, c2: string, expiry: int, url: string)
    requires u.Tag(c1, expiry, url) != u.Tag(c2, expiry, url)
    ensures !u.VerifySignature(now, c2, expiry, url, u.GenerateSignature(c1, expiry, url))
  {
    if u.GenerateSignature(c1, expiry, url) == u.GenerateSignature(c2, expiry, url) {
      HexEncodeInjective(u.Tag(c1, expiry, url), u.Tag(c2, expiry, url));
    }
  }

  /**
    The message has no separators, so different (client, expiry) pairs can sign
    the same text: ("ab1", 23) and ("ab", 123) get the same signature for every url.
  */
  lemma SeparatorlessCollision(u: SignatureUtil, url: string)
    ensures u.GenerateSignature("ab1", 23, url) == u.GenerateSignature("ab", 123, url)
  {
    assert ToDecimal(23) == "23" by {
      assert NatToDecimal(2) == "2";
    }
    assert ToDecimal(123) == "123" by {
      assert NatToDecimal(1) == "1";
      assert NatToDecimal(12) == "12";
    }
    assert u.Message("ab1", 23, url) == u.Message("ab", 123, url);
  }
}
