/** Validation of signed handshakes: timestamp drift, replay cache, MAC. */
module Authenticator {
  import opened Numerals
  import opened NonceCache
  import opened Timestamps

  const NONCE_TTL := 60 * SECOND

  const NONCE_CACHE_SIZE := 10000

  const CACHE_LIMITS := Limits(NONCE_CACHE_SIZE, NONCE_TTL)

  datatype Verdict = Accepted | InvalidTimestamp | DriftTooLarge | NonceReused | MacMismatch

  /** The keyed MAC of a message, as the base64 text a client sends; uninterpreted. */
  datatype Auth = Auth(mac: string -> string, limits: Limits)

  /** now is the clock reading that the timestamp is compared with. */
  datatype Attempt = Attempt(requestID: string, timestamp: string, nonce: Nonce, now: Time)

  /** The message that the MAC is computed over: nothing separates timestamp and nonce. */
  function Message(at: Attempt): string {
    at.timestamp + at.nonce
  }

  predicate Signed(a: Auth, at: Attempt) {
    at.requestID == a.mac(Message(at))
  }

  /** All that Validate does before it records the nonce; looked is the clock reading of the cache lookup. */
  function Checked(a: Auth, s: State, at: Attempt, looked: Time): (Verdict, State) {
    var ts := ParseInt(at.timestamp);
    if ts.None? then (InvalidTimestamp, s) else
    if !DriftPasses(at.now, ts.value) then (DriftTooLarge, s) else
    var after := AfterHas(s, at.nonce, looked);
    if HasAnswer(s, at.nonce, looked) then (NonceReused, after) else
    if !Signed(a, at) then (MacMismatch, after)
    else (Accepted, after)
  }

  /** What gets a call past every check but the replay check. */
  predicate PassesChecks(a: Auth, at: Attempt) {
    && ParseInt(at.timestamp).Some?
    && DriftPasses(at.now, ParseInt(at.timestamp).value)
    && Signed(a, at)
  }

  /** Each verdict and what it is due to: the first check that fails, or none. */
  ghost predicate VerdictDue(a: Auth, s: State, at: Attempt, looked: Time, v: Verdict) {
    var ts := ParseInt(at.timestamp);
    var known := at.nonce in s.entries && looked <= s.entries[at.nonce];
    && (v == InvalidTimestamp <==> ts.None?)
    && (v == DriftTooLarge <==> ts.Some? && !DriftPasses(at.now, ts.value))
    && (v == NonceReused <==> ts.Some? && DriftPasses(at.now, ts.value) && known)
    && (v == MacMismatch <==>
          ts.Some? && DriftPasses(at.now, ts.value) && !known && at.requestID != a.mac(at.timestamp + at.nonce))
  }

  lemma DriftNearby(now: Time, ts: int)
    ensures (ts - 9223372036) * 1_000_000_000 <= now < (ts + 9223372037) * 1_000_000_000 ==>
              (DriftPasses(now, ts) <==> (ts - 30) * 1_000_000_000 <= now < (ts + 31) * 1_000_000_000)
  {
    hide DriftPasses;
    if (ts - 9223372036) * 1_000_000_000 <= now < (ts + 9223372037) * 1_000_000_000 {
      DriftInNanoseconds(now, ts);
    }
  }

  class Authenticator {
    const auth: Auth
    const nonceCache: Cache

    constructor (mac: string -> string)
      ensures auth == Auth(mac, Limits(10_000, 60_000_000_000))
      ensures fresh(nonceCache) && nonceCache.limits == auth.limits && nonceCache.Value() == EMPTY
    {
      auth := Auth(mac, CACHE_LIMITS);
      nonceCache := new Cache(CACHE_LIMITS);
    }

    /** Validate with its three clock readings, and nothing else between its two accesses to the cache. */
    method Validate(requestID: string, timestamp: string, nonce: Nonce, now: Time, looked: Time, added: Time)
      returns (v: Verdict)
      requires nonceCache.limits == auth.limits
      modifies nonceCache
      ensures v == Accepted <==>
                && PassesChecks(auth, Attempt(requestID, timestamp, nonce, now))
                && !HasAnswer(old(nonceCache.Value()), nonce, looked)
      ensures ParseInt(timestamp).Some? ==>
                var ts := ParseInt(timestamp).value;
                (ts - 9223372036) * 1_000_000_000 <= now < (ts + 9223372037) * 1_000_000_000 ==>
                  (v == Accepted <==>
                     && (ts - 30) * 1_000_000_000 <= now < (ts + 31) * 1_000_000_000
                     && requestID == auth.mac(timestamp + nonce)
                     && (nonce in old(nonceCache.entries) ==> old(nonceCache.entries)[nonce] < looked))
      ensures VerdictDue(auth, old(nonceCache.Value()), Attempt(requestID, timestamp, nonce, now), looked, v)
      ensures var (verdict, after) :=
                Checked(auth, old(nonceCache.Value()), Attempt(requestID, timestamp, nonce, now), looked);
              && v == verdict
              && nonceCache.Value() == if v == Accepted then AfterAdd(auth.limits, after, nonce, added) else after
    {
      var ts := ParseInt(timestamp);
      if ts.None? {
        return InvalidTimestamp;
      }
      DriftNearby(now, ts.value);
      var drift := Drift(now, ts.value, false);
      if drift > MAX_TIMESTAMP_DRIFT {
        return DriftTooLarge;
      }
      var seen := nonceCache.Has(nonce, looked);
      if seen {
        return NonceReused;
      }
      var message := timestamp + nonce;
      if requestID != auth.mac(message) {
        return MacMismatch;
      }
      nonceCache.Add(nonce, added);
      return Accepted;
    }
  }
}
