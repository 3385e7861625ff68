/** Webhook signatures of shared/auth/webhook.go. Go strings are sequences of char, one char a byte.
    HMAC-SHA256 is the parameter `mac`: any function of secret and message to 32 bytes. */
module Webhook {
  import opened Wrappers
  import opened Decimal
  import Hex

  type Digest = d: seq<Hex.Byte> | |d| == 32 witness seq(32, _ => 0)
  type Mac = (string, string) -> Digest

  datatype WebhookError =
    | MissingSignature
    | UnsupportedScheme
    | InvalidTimestamp
    | ReplayWindow
    | SignatureMismatch

  const SIGNATURE_PREFIX := "sha256="
  const SECOND: int := 1_000_000_000
  const DEFAULT_REPLAY_WINDOW: Int64 := 300 * SECOND

  /** The bytes fed to the hash by the three writes. */
  function Message(timestamp: string, body: string): string {
    timestamp + "." + body
  }

  function SignWebhook(mac: Mac, secret: string, timestamp: string, body: string): (signature: string)
    ensures SIGNATURE_PREFIX <= signature && |signature| == |SIGNATURE_PREFIX| + 64
    ensures signature == "sha256=" + Hex.Encode(mac(secret, timestamp + "." + body))
  {
    SIGNATURE_PREFIX + Hex.Encode(mac(secret, Message(timestamp, body)))
  }

  /** The signature character by character. */
  lemma {:induction false} SignatureExactly(mac: Mac, secret: string, timestamp: string, body: string)
    ensures var signature := SignWebhook(mac, secret, timestamp, body);
            var digest := mac(secret, timestamp + "." + body);
            && signature[..7] == "sha256=" && |signature| == 71
            && forall i | 0 <= i < 32 ::
                 && signature[7 + 2 * i] == "0123456789abcdef"[digest[i] / 16]
                 && signature[7 + 2 * i + 1] == "0123456789abcdef"[digest[i] % 16]
  {
    Hex.EncodeDigits(mac(secret, timestamp + "." + body));
  }

  /** The whole seconds of the window (nanoseconds) after the default has been put in. */
  function WindowSeconds(window: Int64): (seconds: nat)
    ensures seconds <= 9_223_372_036
    ensures window <= 0 ==> seconds == 300
    ensures window > 0 ==> seconds * 1_000_000_000 <= window < (seconds + 1) * 1_000_000_000
  {
    (if window <= 0 then DEFAULT_REPLAY_WINDOW else window) / SECOND
  }

  /** The skew as int64 arithmetic computes it: both the subtraction and the negation wrap. */
  function Skew(now: Int64, ts: Int64): Int64 {
    var skew: int := Wrap(now - ts);
    if skew < 0 then Wrap(-skew) else skew
  }

  /** None is Go's nil error: the signature is accepted. */
  function VerifyWebhook(mac: Mac, secret: string, timestamp: string, body: string, signature: string,
                         now: Int64, window: Int64): Option<WebhookError>
  {
    if signature == "" || timestamp == "" then Some(MissingSignature)
    else if |signature| < |SIGNATURE_PREFIX| || signature[..|SIGNATURE_PREFIX|] != SIGNATURE_PREFIX then
      Some(UnsupportedScheme)
    else
      match ParseInt(timestamp)
      case None => Some(InvalidTimestamp)
      case Some(ts) =>
        if Skew(now, ts) > WindowSeconds(window) then Some(ReplayWindow)
        else
          match Hex.Decode(signature[|SIGNATURE_PREFIX|..])
          case None => Some(SignatureMismatch)
          case Some(provided) =>
            match Hex.Decode(SignWebhook(mac, secret, timestamp, body)[|SIGNATURE_PREFIX|..])
            case None => Some(SignatureMismatch)
            case Some(expected) =>
              if expected != provided then Some(SignatureMismatch) else None
  }

  // ---------- the replay window ----------

  function Distance(a: int, b: int): nat {
    if a < b then b - a else a - b
  }

  /** The replay check over the unbounded integers, for every pair of int64 values: besides the
      distances within the window it lets pass those within the window of 2^64, where the
      subtraction wraps round to a small number, and the distance 2^63, whose negation is itself. */
  lemma {:induction false} ReplayCheckExactly(now: Int64, ts: Int64, seconds: nat)
    requires seconds < TWO63
    ensures Skew(now, ts) <= seconds <==>
            Distance(now, ts) <= seconds || TWO64 - Distance(now, ts) <= seconds || Distance(now, ts) == TWO63
  {
    var d := now - ts;
    var w := Wrap(d);
    assert w == d || w == d + TWO64 || w == d - TWO64;
  }

  /** For clocks between 1970 and 2^62 seconds the check is exact but for one timestamp. */
  lemma {:induction false} ReplayCheckOnRealClocks(now: Int64, ts: Int64, window: Int64)
    requires 0 <= now < TWO63 / 2
    ensures Skew(now, ts) <= WindowSeconds(window) <==>
            Distance(now, ts) <= WindowSeconds(window) || ts == now - TWO63
  {
    ReplayCheckExactly(now, ts, WindowSeconds(window));
  }

  /** The exception is reached: a timestamp 2^63 seconds in the past is accepted at any window. */
  lemma {:induction false} AncientTimestampAccepted(mac: Mac, secret: string, body: string, window: Int64)
    ensures var now := 1718000000;
            var timestamp := FormatInt(now - TWO63);
            VerifyWebhook(mac, secret, timestamp, body, SignWebhook(mac, secret, timestamp, body), now, window) == None
  {
    var now := 1718000000;
    SignedVerifies(mac, secret, now - TWO63, body, now, window);
    ReplayCheckOnRealClocks(now, now - TWO63, window);
  }

  /** When a signed message is accepted, for any timestamp and clock; on a clock between 1970 and 2^62
      that is exactly during [ts - W, ts + W] and in the one second 2^63 after ts. */
  lemma {:induction false} AcceptingTimesAreAnInterval(mac: Mac, secret: string, ts: Int64, body: string, now: Int64,
                                                       window: Int64)
    ensures var timestamp, w := FormatInt(ts), WindowSeconds(window);
            var signature := SignWebhook(mac, secret, timestamp, body);
            var r := VerifyWebhook(mac, secret, timestamp, body, signature, now, window);
            && (r == None <==> Distance(now, ts) <= w || TWO64 - Distance(now, ts) <= w || Distance(now, ts) == TWO63)
            && (0 <= now < TWO63 / 2 ==> (r == None <==> ts - w <= now <= ts + w || now == ts + TWO63))
  {
    SignedVerifies(mac, secret, ts, body, now, window);
    ReplayCheckExactly(now, ts, WindowSeconds(window));
  }

  /** For a window of w whole seconds the interval is [ts - w, ts + w]; without a window it is five
      minutes to either side. */
  lemma {:induction false} AcceptingTimesInSeconds(mac: Mac, secret: string, ts: Int64, body: string, now: Int64,
                                                   w: nat)
    requires 0 <= now < TWO63 / 2 && 1 <= w <= 9_223_372_036
    ensures var timestamp := FormatInt(ts);
            var signature := SignWebhook(mac, secret, timestamp, body);
            && (VerifyWebhook(mac, secret, timestamp, body, signature, now, w * 1_000_000_000) == None <==>
                ts - w <= now <= ts + w || now == ts + TWO63)
            && (VerifyWebhook(mac, secret, timestamp, body, signature, now, 0) == None <==>
                ts - 300 <= now <= ts + 300 || now == ts + TWO63)
  {
    AcceptingTimesAreAnInterval(mac, secret, ts, body, now, w * 1_000_000_000);
    AcceptingTimesAreAnInterval(mac, secret, ts, body, now, 0);
    assert WindowSeconds(w * 1_000_000_000) == w;
  }

  // ---------- what is accepted ----------

  /** The timestamp is a base-10 int64 and passes the replay check, in unbounded arithmetic. */
  predicate Timely(timestamp: string, now: Int64, window: Int64) {
    match ParseInt(timestamp)
    case None => false
    case Some(ts) =>
      var distance, seconds := Distance(now, ts), WindowSeconds(window);
      distance <= seconds || TWO64 - distance <= seconds || distance == TWO63
  }

  predicate HasPrefix(signature: string) {
    SIGNATURE_PREFIX <= signature
  }

  /** After the scheme prefix, `a` and `b` differ in letter case at most. */
  predicate SameButForCase(a: string, b: string)
    requires HasPrefix(a) && HasPrefix(b)
  {
    Hex.Lower(a[|SIGNATURE_PREFIX|..]) == Hex.Lower(b[|SIGNATURE_PREFIX|..])
  }

  lemma {:induction false} DigestComparison(mac: Mac, secret: string, timestamp: string, body: string,
                                            signature: string)
    requires HasPrefix(signature)
    ensures var own := SignWebhook(mac, secret, timestamp, body);
            var digest := mac(secret, Message(timestamp, body));
            && HasPrefix(own)
            && Hex.Decode(own[|SIGNATURE_PREFIX|..]) == Some(digest)
            && (Hex.Decode(signature[|SIGNATURE_PREFIX|..]) == Some(digest) <==> SameButForCase(signature, own))
  {
    var digest := mac(secret, Message(timestamp, body));
    var own := SignWebhook(mac, secret, timestamp, body);
    assert own[|SIGNATURE_PREFIX|..] == Hex.Encode(digest);
    Hex.DecodeEncode(digest);
    Hex.EncodeIsLower(digest);
    Hex.DecodeExactly(signature[|SIGNATURE_PREFIX|..], digest);
  }

  /** The signatures accepted for a timely timestamp are exactly the case variants of the sender's
      own signature; nothing is accepted for any other timestamp. */
  lemma {:induction false} VerifyAcceptsExactly(mac: Mac, secret: string, timestamp: string, body: string,
                                                signature: string, now: Int64, window: Int64)
    ensures HasPrefix(SignWebhook(mac, secret, timestamp, body))
    ensures VerifyWebhook(mac, secret, timestamp, body, signature, now, window) == None <==>
            && Timely(timestamp, now, window)
            && HasPrefix(signature)
            && SameButForCase(signature, SignWebhook(mac, secret, timestamp, body))
  {
    DigestComparison(mac, secret, timestamp, body, SIGNATURE_PREFIX);
    if HasPrefix(signature) {
      DigestComparison(mac, secret, timestamp, body, signature);
      if ParseInt(timestamp).Some? {
        ReplayCheckExactly(now, ParseInt(timestamp).value, WindowSeconds(window));
      }
    }
  }

  /** Each error is reported for exactly one class of calls, and the classes are tried in order. */
  lemma {:induction false} VerifyRejectsExactly(mac: Mac, secret: string, timestamp: string, body: string,
                                                signature: string, now: Int64, window: Int64)
    ensures HasPrefix(SignWebhook(mac, secret, timestamp, body))
    ensures var r := VerifyWebhook(mac, secret, timestamp, body, signature, now, window);
            var present := signature != "" && timestamp != "";
            && (r == Some(MissingSignature) <==> !present)
            && (r == Some(UnsupportedScheme) <==> present && !HasPrefix(signature))
            && (r == Some(InvalidTimestamp) <==> present && HasPrefix(signature) && ParseInt(timestamp).None?)
            && (r == Some(ReplayWindow) <==>
                HasPrefix(signature) && ParseInt(timestamp).Some? && !Timely(timestamp, now, window))
            && (r == Some(SignatureMismatch) <==>
                HasPrefix(signature) && Timely(timestamp, now, window) &&
                !SameButForCase(signature, SignWebhook(mac, secret, timestamp, body)))
  {
    VerifyAcceptsExactly(mac, secret, timestamp, body, signature, now, window);
    if ParseInt(timestamp).Some? {
      ReplayCheckExactly(now, ParseInt(timestamp).value, WindowSeconds(window));
    }
  }

  /** What the sender signs the receiver accepts, as long as it is not a replay. */
  lemma {:induction false} SignedVerifies(mac: Mac, secret: string, ts: Int64, body: string, now: Int64, window: Int64)
    ensures VerifyWebhook(mac, secret, FormatInt(ts), body, SignWebhook(mac, secret, FormatInt(ts), body), now, window)
            == if Skew(now, ts) <= WindowSeconds(window) then None else Some(ReplayWindow)
  {
    var timestamp := FormatInt(ts);
    ParseFormatInt(ts);
    VerifyAcceptsExactly(mac, secret, timestamp, body, SignWebhook(mac, secret, timestamp, body), now, window);
    ReplayCheckExactly(now, ts, WindowSeconds(window));
  }

  // ---------- framing ----------

  /** The first full stop is the separator as soon as the timestamps have none of their own. */
  lemma {:induction false} MessageInjective(t1: string, b1: string, t2: string, b2: string)
    requires '.' !in t1 && '.' !in t2
    requires Message(t1, b1) == Message(t2, b2)
    ensures t1 == t2 && b1 == b2
  {
    var m := Message(t1, b1);
    assert m[|t1|] == '.' && m[|t2|] == '.';
    assert m[..|t1|] == t1 && m[..|t2|] == t2;
    assert forall i | 0 <= i < |t1| :: m[i] == t1[i] && m[i] in t1;
    assert forall i | 0 <= i < |t2| :: m[i] == t2[i] && m[i] in t2;
    assert m[|t1| + 1..] == b1 && m[|t2| + 1..] == b2;
  }

  /** Without that the framing is ambiguous: the signer itself does not look at the timestamp. */
  lemma {:induction false} DottedTimestampsCollide(mac: Mac, secret: string)
    ensures SignWebhook(mac, secret, "1.2", "3") == SignWebhook(mac, secret, "1", "2.3")
  {
    assert Message("1.2", "3") == Message("1", "2.3");
  }

  /** Accepting a signature made for another timestamp or body takes a collision of the MAC. */
  lemma {:induction false} TransferTakesCollision(mac: Mac, secret: string, signedTs: string, signedBody: string,
                                                  timestamp: string, body: string, now: Int64, window: Int64)
    requires ParseInt(signedTs).Some?
    requires VerifyWebhook(mac, secret, timestamp, body, SignWebhook(mac, secret, signedTs, signedBody), now, window)
             == None
    requires (timestamp, body) != (signedTs, signedBody)
    ensures Message(timestamp, body) != Message(signedTs, signedBody)
    ensures mac(secret, Message(timestamp, body)) == mac(secret, Message(signedTs, signedBody))
  {
    var signature := SignWebhook(mac, secret, signedTs, signedBody);
    VerifyAcceptsExactly(mac, secret, timestamp, body, signature, now, window);
    DigestComparison(mac, secret, timestamp, body, signature);
    DigestComparison(mac, secret, signedTs, signedBody, signature);
    ParsedHasNoDot(timestamp);
    ParsedHasNoDot(signedTs);
    if Message(timestamp, body) == Message(signedTs, signedBody) {
      MessageInjective(timestamp, body, signedTs, signedBody);
    }
  }
}
