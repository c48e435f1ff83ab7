/**
  `WebhookSignatureServiceImpl`: the Standard Webhooks (Svix) verdict on an
  inbound identity-provider event. HMAC-SHA256, base64 and UTF-8 encoding
  are not modelled; they arrive as the function-valued fields of a `Crypto`
  record, so every property below holds for whatever those primitives do.
  The clock reading `now` is a parameter.
 */
module WebhookSignature {
  import opened Lang

  type byte = b: int | 0 <= b < 256

  datatype Crypto = Crypto(
    base64Decode: string -> Option<seq<byte>>,        // None: IllegalArgumentException
    base64Encode: seq<byte> -> string,
    hmacSha256: (seq<byte>, seq<byte>) -> seq<byte>,  // (key, message)
    utf8: string -> seq<byte>)

  const TIMESTAMP_TOLERANCE: int := 300
  const SECRET_PREFIX: string := "whsec_"
  const SCHEME_TAG: string := "v1,"

  // ---------------------------------------------------------------------
  // Freshness window

  /** The intended window: the timestamp is at most 300 s away from `now`, either way. */
  predicate WithinWindow(now: Long, ts: Long) {
    -TIMESTAMP_TOLERANCE <= now - ts <= TIMESTAMP_TOLERANCE
  }

  /** `Math.abs(long)`: the negation wraps, so `abs(Long.MIN_VALUE)` is `Long.MIN_VALUE`. */
  function JavaAbs(x: Long): (r: Long)
    ensures x != -TWO_63 ==> r >= 0 && (r == x || r == -(x as int))
    ensures x == -TWO_63 ==> r == x
  {
    if x < 0 then Wrap64(-(x as int)) else x
  }

  /** `Math.abs(currentTime - timestamp) <= TIMESTAMP_TOLERANCE` evaluated in `long` arithmetic. */
  predicate WithinWindowAsWritten(now: Long, ts: Long) {
    JavaAbs(Wrap64(now - ts)) <= TIMESTAMP_TOLERANCE
  }

  /** `isTimestampValid`, with the window the code evidently intends. */
  predicate IsTimestampValid(svixTimestamp: JString, now: Long) {
    match ParseLong(svixTimestamp)
    case None => false
    case Some(ts) => WithinWindow(now, ts)
  }

  /** `isTimestampValid` exactly as written, wrap-around included. */
  predicate IsTimestampValidAsWritten(svixTimestamp: JString, now: Long) {
    match ParseLong(svixTimestamp)
    case None => false
    case Some(ts) => WithinWindowAsWritten(now, ts)
  }

  /**
    The wrap-around admits a timestamp 2^63 seconds in the past: the
    difference wraps to `Long.MIN_VALUE`, whose absolute value is negative.
   */
  lemma AncientTimestampPassesAsWritten(now: Long)
    requires now >= 0
    ensures IsLong(now - TWO_63)
    ensures var header := Some(IntToString(now - TWO_63));
      IsTimestampValidAsWritten(header, now) && !IsTimestampValid(header, now)
  {
    var ts: int := now as int - TWO_63;
    assert IsLong(ts);
    ParseLongOfIntToString(ts);
    assert Wrap64(now - ts) == -TWO_63;
  }

  /**
    For any clock reading up to 2^62 seconds, that one timestamp is the only
    input on which the written check and the intended window disagree.
   */
  lemma WindowAsWrittenAgreesElsewhere(now: Long, ts: Long)
    requires 0 <= now <= TWO_63 / 2
    requires ts != now - TWO_63
    ensures WithinWindowAsWritten(now, ts) == WithinWindow(now, ts)
  {
    var d: int := now as int - ts as int;
    if d >= TWO_63 {
      assert d % TWO_64 == d;
      assert Wrap64(d) == d - TWO_64;
    }
  }

  /** The corrected check rejects every timestamp more than 300 s away from `now`. */
  lemma StaleTimestampRejected(svixTimestamp: JString, now: Long, ts: Long)
    requires ParseLong(svixTimestamp) == Some(ts)
    requires ts < now - TIMESTAMP_TOLERANCE || ts > now + TIMESTAMP_TOLERANCE
    ensures !IsTimestampValid(svixTimestamp, now)
  {
  }

  // ---------------------------------------------------------------------
  // Signed content and key

  /** The bytes-to-be-signed, before UTF-8 encoding: `id.timestamp.payload`. */
  function SignedContent(id: string, timestamp: string, payload: string): (m: string)
    ensures |m| == |id| + |timestamp| + |payload| + 2
    ensures m[..|id|] == id && m[|id|] == '.'
    ensures m[|id| + 1..|id| + 1 + |timestamp|] == timestamp && m[|id| + 1 + |timestamp|] == '.'
    ensures m[|id| + |timestamp| + 2..] == payload
  {
    id + "." + timestamp + "." + payload
  }

  /** Altering any single part of an event alters the signed content. */
  lemma SignedContentDeterminesEachPart(id: string, ts: string, p: string, id': string, ts': string, p': string)
    requires SignedContent(id, ts, p) == SignedContent(id', ts', p')
    ensures id == id' && ts == ts' ==> p == p'
    ensures ts == ts' && p == p' ==> id == id'
    ensures id == id' && p == p' ==> ts == ts'
  {
    var m := SignedContent(id, ts, p);
    if ts == ts' && p == p' {
      assert |id| == |id'|;
    }
  }

  /** The base64 body of the configured secret: a leading `whsec_` is removed. */
  function SecretBody(secret: string): (body: string)
    ensures StartsWith(secret, SECRET_PREFIX) ==> SECRET_PREFIX + body == secret
    ensures !StartsWith(secret, SECRET_PREFIX) ==> body == secret
  {
    if StartsWith(secret, SECRET_PREFIX) then secret[|SECRET_PREFIX|..] else secret
  }

  /** The prefix is stripped once: a doubled prefix leaves the second one in place. */
  lemma SecretPrefixStrippedOnce(key: string)
    ensures SecretBody(SECRET_PREFIX + key) == key
  {
    assert (SECRET_PREFIX + key)[..|SECRET_PREFIX|] == SECRET_PREFIX;
  }

  /**
    The base64 signature the sender must have produced, or `None` when the
    secret does not decode or decodes to no bytes (`SecretKeySpec` rejects an
    empty key); both exceptions end in a `false` verdict.
   */
  function ExpectedSignature(crypto: Crypto, secret: string, signed: string): Option<string> {
    match crypto.base64Decode(SecretBody(secret))
    case None => None
    case Some(key) =>
      if |key| == 0 then None
      else Some(crypto.base64Encode(crypto.hmacSha256(key, crypto.utf8(signed))))
  }

  // ---------------------------------------------------------------------
  // Constant-time comparison

  /** The value of `result` after the loop has folded positions `0..n` with `|=` and `^`. */
  function Accumulate(a: string, b: string, n: nat): nat
    requires n <= |a| == |b|
  {
    if n == 0 then 0 else BitOr(Accumulate(a, b, n - 1), BitXor(a[n - 1] as int, b[n - 1] as int))
  }

  lemma {:induction false} AccumulateZero(a: string, b: string, n: nat)
    requires n <= |a| == |b|
    ensures Accumulate(a, b, n) == 0 <==> a[..n] == b[..n]
  {
    if n > 0 {
      AccumulateZero(a, b, n - 1);
      BitOrZero(Accumulate(a, b, n - 1), BitXor(a[n - 1] as int, b[n - 1] as int));
      BitXorZero(a[n - 1] as int, b[n - 1] as int);
      assert a[..n] == a[..n - 1] + [a[n - 1]];
      assert b[..n] == b[..n - 1] + [b[n - 1]];
    }
  }

  /** `constantTimeEquals`, as the value its loop computes. */
  predicate CtEquals(expected: string, actual: string) {
    |expected| == |actual| && Accumulate(expected, actual, |expected|) == 0
  }

  lemma CtEqualsIsEquality(expected: string, actual: string)
    ensures CtEquals(expected, actual) <==> expected == actual
  {
    if |expected| == |actual| {
      AccumulateZero(expected, actual, |expected|);
    }
  }

  /**
    `constantTimeEquals`: equal lengths first, then one pass over every
    position with no early exit. `steps` counts loop iterations; it depends
    on the lengths only, never on where the strings differ.
   */
  method ConstantTimeEquals(expected: string, actual: string) returns (equal: bool, steps: nat)
    ensures equal <==> expected == actual
    ensures steps == (if |expected| == |actual| then |expected| else 0)
  {
    if |expected| != |actual| {
      return false, 0;
    }
    var result: nat := 0;
    var i := 0;
    steps := 0;
    while i < |expected|
      invariant 0 <= i <= |expected|
      invariant result == Accumulate(expected, actual, i)
      invariant steps == i
    {
      result := BitOr(result, BitXor(expected[i] as int, actual[i] as int));
      i := i + 1;
      steps := steps + 1;
    }
    AccumulateZero(expected, actual, |expected|);
    equal := result == 0;
  }

  // ---------------------------------------------------------------------
  // Header scan and verdict

  /** The loop over the header's tokens: a `v1,` token whose rest equals `expected`. */
  function AnyTokenMatches(tokens: seq<string>, expected: string): (found: bool)
    ensures found <==> SCHEME_TAG + expected in tokens
  {
    if |tokens| == 0 then false
    else
      var t := tokens[0];
      var hit := StartsWith(t, SCHEME_TAG) && CtEquals(expected, t[|SCHEME_TAG|..]);
      assert hit <==> t == SCHEME_TAG + expected by {
        if t == SCHEME_TAG + expected {
          assert t[|SCHEME_TAG|..] == expected;
        }
        if StartsWith(t, SCHEME_TAG) {
          CtEqualsIsEquality(expected, t[|SCHEME_TAG|..]);
          assert t == t[..|SCHEME_TAG|] + t[|SCHEME_TAG|..];
        }
      }
      assert tokens == [t] + tokens[1..];
      hit || AnyTokenMatches(tokens[1..], expected)
  }

  /**
    The verdict once the secret and the timestamp have passed: the secret
    decodes to a usable key and the header carries `v1,` plus the base64
    HMAC of the signed text as one of its space-separated tokens.
   */
  predicate HeaderCarriesSignature(crypto: Crypto, secret: string, svixId: JString, svixTimestamp: string,
                                   svixSignature: JString, payload: JString)
  {
    && svixSignature.Some?
    && var expected := ExpectedSignature(crypto, secret, SignedContent(Render(svixId), svixTimestamp, Render(payload)));
       expected.Some? && SCHEME_TAG + expected.value in Split(svixSignature.value, ' ')
  }

  /** The header scan of `verifyWebhookSignature`, after the secret and timestamp checks. */
  function ScanHeader(crypto: Crypto, secret: string, svixId: JString, svixTimestamp: string,
                      svixSignature: JString, payload: JString): (ok: bool)
    ensures ok <==> HeaderCarriesSignature(crypto, secret, svixId, svixTimestamp, svixSignature, payload)
  {
    var signed := SignedContent(Render(svixId), svixTimestamp, Render(payload));
    match ExpectedSignature(crypto, secret, signed)
    case None => false
    case Some(expected) =>
      svixSignature.Some? && AnyTokenMatches(Split(svixSignature.value, ' '), expected)
  }

  /**
    `verifyWebhookSignature` exactly as written, with the wrapping
    timestamp check. It never throws: every failure (no secret, bad or
    stale timestamp, undecodable secret, empty key, null header) is the
    verdict `false`.
   */
  function VerifyWebhookSignatureAsWritten(crypto: Crypto, secret: JString, now: Long, svixId: JString,
                                           svixTimestamp: JString, svixSignature: JString, payload: JString): (ok: bool)
    ensures NullOrBlank(secret) ==> !ok
    ensures !IsTimestampValidAsWritten(svixTimestamp, now) ==> !ok
    ensures ok <==>
      && !NullOrBlank(secret)
      && IsTimestampValidAsWritten(svixTimestamp, now)
      && HeaderCarriesSignature(crypto, secret.value, svixId, svixTimestamp.value, svixSignature, payload)
  {
    if NullOrBlank(secret) then false
    else if !IsTimestampValidAsWritten(svixTimestamp, now) then false
    else ScanHeader(crypto, secret.value, svixId, svixTimestamp.value, svixSignature, payload)
  }

  /** `verifyWebhookSignature` with the freshness window the code evidently intends. */
  function VerifyWebhookSignature(crypto: Crypto, secret: JString, now: Long, svixId: JString,
                                  svixTimestamp: JString, svixSignature: JString, payload: JString): (ok: bool)
    ensures NullOrBlank(secret) ==> !ok
    ensures !IsTimestampValid(svixTimestamp, now) ==> !ok
    ensures ok <==>
      && !NullOrBlank(secret)
      && IsTimestampValid(svixTimestamp, now)
      && svixSignature.Some?
      && var expected := ExpectedSignature(crypto, secret.value,
                                           SignedContent(Render(svixId), svixTimestamp.value, Render(payload)));
         expected.Some? && SCHEME_TAG + expected.value in Split(svixSignature.value, ' ')
  {
    if NullOrBlank(secret) then false
    else if !IsTimestampValid(svixTimestamp, now) then false
    else ScanHeader(crypto, secret.value, svixId, svixTimestamp.value, svixSignature, payload)
  }

  /**
    The two verdicts differ only at the wrapped timestamp: for a clock
    reading up to 2^62 seconds and any header that does not parse to
    `now - 2^63`, the code as written and the intended code agree.
   */
  lemma VerdictsAgreeAwayFromWrap(crypto: Crypto, secret: JString, now: Long, svixId: JString,
                                  svixTimestamp: JString, svixSignature: JString, payload: JString)
    requires 0 <= now <= TWO_63 / 2
    requires ParseLong(svixTimestamp) != Some(now - TWO_63)
    ensures VerifyWebhookSignatureAsWritten(crypto, secret, now, svixId, svixTimestamp, svixSignature, payload)
         == VerifyWebhookSignature(crypto, secret, now, svixId, svixTimestamp, svixSignature, payload)
  {
    if ParseLong(svixTimestamp).Some? {
      WindowAsWrittenAgreesElsewhere(now, ParseLong(svixTimestamp).value);
    }
  }

  /**
    The finding end to end: an event genuinely signed at the timestamp
    `now - 2^63` is accepted by the code as written and rejected by the
    intended code.
   */
  lemma AncientSignedEventAcceptedAsWritten(crypto: Crypto, secret: string, now: Long, svixId: JString,
                                            payload: JString, tokens: seq<string>, k: nat)
    requires now >= 0
    requires !IsBlank(secret)
    requires k < |tokens|
    requires forall i, j :: 0 <= i < |tokens| && 0 <= j < |tokens[i]| ==> tokens[i][j] != ' '
    requires var expected := ExpectedSignature(crypto, secret,
                                                SignedContent(Render(svixId), IntToString(now - TWO_63), Render(payload)));
      expected.Some? && tokens[k] == SCHEME_TAG + expected.value
    ensures var ts := Some(IntToString(now - TWO_63));
      && VerifyWebhookSignatureAsWritten(crypto, Some(secret), now, svixId, ts, Some(Join(tokens, ' ')), payload)
      && !VerifyWebhookSignature(crypto, Some(secret), now, svixId, ts, Some(Join(tokens, ' ')), payload)
  {
    AncientTimestampPassesAsWritten(now);
    SplitOfJoin(tokens, ' ');
  }

  // ---------------------------------------------------------------------
  // Consequences

  /** Splitting space-joined, space-free tokens gives the tokens back. */
  lemma {:induction false} SplitOfJoin(tokens: seq<string>, sep: char)
    requires |tokens| >= 1
    requires forall i, j :: 0 <= i < |tokens| && 0 <= j < |tokens[i]| ==> tokens[i][j] != sep
    ensures Split(Join(tokens, sep), sep) == tokens
    decreases |tokens|
  {
    if |tokens| == 1 {
      SplitOfSeparatorFree(tokens[0], sep);
    } else {
      SplitOfJoin(tokens[1..], sep);
      SplitAfterToken(tokens[0], Join(tokens[1..], sep), sep);
    }
  }

  lemma {:induction false} SplitOfSeparatorFree(t: string, sep: char)
    requires forall j :: 0 <= j < |t| ==> t[j] != sep
    ensures Split(t, sep) == [t]
    decreases |t|
  {
    if |t| > 0 {
      SplitOfSeparatorFree(t[1..], sep);
      assert [t[0]] + t[1..] == t;
    }
  }

  lemma {:induction false} SplitAfterToken(t: string, rest: string, sep: char)
    requires forall j :: 0 <= j < |t| ==> t[j] != sep
    ensures Split(t + [sep] + rest, sep) == [t] + Split(rest, sep)
    decreases |t|
  {
    if |t| == 0 {
      assert t + [sep] + rest == [sep] + rest;
      assert ([sep] + rest)[1..] == rest;
    } else {
      var s := t + [sep] + rest;
      assert s[0] == t[0] && s[0] != sep;
      assert s[1..] == t[1..] + [sep] + rest;
      SplitAfterToken(t[1..], rest, sep);
      var inner := Split(s[1..], sep);
      assert inner[0] == t[1..] && inner[1..] == Split(rest, sep);
      assert [s[0]] + inner[0] == t;
    }
  }

  /**
    A genuine header is accepted: with a usable secret and a fresh timestamp,
    any space-separated list of tokens that includes `v1,<expected>` passes.
   */
  lemma GenuineSignatureAccepted(crypto: Crypto, secret: string, now: Long, svixId: JString,
                                 svixTimestamp: string, payload: JString, tokens: seq<string>, k: nat)
    requires !IsBlank(secret)
    requires IsTimestampValid(Some(svixTimestamp), now)
    requires k < |tokens|
    requires forall i, j :: 0 <= i < |tokens| && 0 <= j < |tokens[i]| ==> tokens[i][j] != ' '
    requires var expected := ExpectedSignature(crypto, secret,
                                                SignedContent(Render(svixId), svixTimestamp, Render(payload)));
      expected.Some? && tokens[k] == SCHEME_TAG + expected.value
    ensures VerifyWebhookSignature(crypto, Some(secret), now, svixId, Some(svixTimestamp),
                                   Some(Join(tokens, ' ')), payload)
  {
    SplitOfJoin(tokens, ' ');
  }

  /** Against a one-token header `v1,<sig>`, acceptance means the expected signature is `sig`. */
  lemma OneTokenAcceptance(crypto: Crypto, secret: JString, now: Long, sig: string,
                           id: string, ts: string, p: string)
    requires forall j :: 0 <= j < |sig| ==> sig[j] != ' '
    requires VerifyWebhookSignature(crypto, secret, now, Some(id), Some(ts), Some(SCHEME_TAG + sig), Some(p))
    ensures ExpectedSignature(crypto, secret.value, SignedContent(id, ts, p)) == Some(sig)
  {
    SplitOfSeparatorFree(SCHEME_TAG + sig, ' ');
    var e := ExpectedSignature(crypto, secret.value, SignedContent(id, ts, p));
    assert e.Some? && AnyTokenMatches([SCHEME_TAG + sig], e.value);
    assert SCHEME_TAG + e.value == SCHEME_TAG + sig;
    assert e.value == (SCHEME_TAG + e.value)[|SCHEME_TAG|..];
  }

  /**
    Against a one-token header, two events that differ in exactly one part
    are both accepted only if their distinct signed contents share a MAC:
    a forgery by tampering needs an HMAC collision.
   */
  lemma TamperingNeedsMacCollision(crypto: Crypto, secret: JString, now: Long, sig: string,
                                   id: string, ts: string, p: string, id': string, ts': string, p': string)
    requires forall j :: 0 <= j < |sig| ==> sig[j] != ' '
    requires VerifyWebhookSignature(crypto, secret, now, Some(id), Some(ts), Some(SCHEME_TAG + sig), Some(p))
    requires VerifyWebhookSignature(crypto, secret, now, Some(id'), Some(ts'), Some(SCHEME_TAG + sig), Some(p'))
    requires (id != id' && ts == ts' && p == p') || (id == id' && ts != ts' && p == p') || (id == id' && ts == ts' && p != p')
    ensures SignedContent(id, ts, p) != SignedContent(id', ts', p')
    ensures ExpectedSignature(crypto, secret.value, SignedContent(id, ts, p)) == Some(sig)
    ensures ExpectedSignature(crypto, secret.value, SignedContent(id', ts', p')) == Some(sig)
  {
    OneTokenAcceptance(crypto, secret, now, sig, id, ts, p);
    OneTokenAcceptance(crypto, secret, now, sig, id', ts', p');
    if SignedContent(id, ts, p) == SignedContent(id', ts', p') {
      SignedContentDeterminesEachPart(id, ts, p, id', ts', p');
    }
  }
}
