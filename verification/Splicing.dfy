/** Requests by their MAC. The MAC covers timestamp and nonce with nothing in between, so one request can be read
    as several pairs: exactly when another reading is accepted too. */
module Splicing {
  import opened Bytes
  import opened NonceCache
  import opened Authenticator
  import opened Numerals
  import opened Timestamps
  import opened ReplayProtection
  import opened ReplayWindows

  /** No two messages have the same MAC. */
  ghost predicate Injective(a: Auth) {
    forall x: string, y: string | a.mac(x) == a.mac(y) :: x == y
  }

  /** The other reading of a request: the first character of the nonce counted to the timestamp. */
  function Spliced(at: Attempt, t2: Time): Attempt
    requires at.nonce != ""
  {
    Attempt(at.requestID, at.timestamp + [at.nonce[0]], at.nonce[1..], t2)
  }

  lemma SplicedSigned(a: Auth, at: Attempt, t2: Time)
    requires at.nonce != ""
    ensures Signed(a, Spliced(at, t2)) <==> Signed(a, at)
  {
    assert at.nonce == [at.nonce[0]] + at.nonce[1..];
    assert Message(Spliced(at, t2)) == Message(at);
  }

  /** Two readings of one message: one timestamp extends the other by the start of the other's nonce. */
  lemma Readings(at: Attempt, other: Attempt) returns (more: string)
    requires Message(at) == Message(other) && |at.timestamp| <= |other.timestamp|
    ensures other.timestamp == at.timestamp + more && at.nonce == more + other.nonce
  {
    var m, n := Message(at), |at.timestamp|;
    more := other.timestamp[n..];
    assert at.timestamp == m[..n] == other.timestamp[..n];
    assert at.nonce == m[n..] == more + other.nonce;
  }

  // ---------------------------------------------------------------- which requests can be spliced

  /** Clock readings from 2004 to 2033. */
  predicate ThisEra(now: Time) {
    1_100_000_000 <= Unix(now) <= 2_000_000_000
  }

  predicate WithinAMinute(now: Time, t2: Time) {
    now <= t2 <= now + 60 * SECOND
  }

  lemma MinuteLater(now: Time, t2: Time)
    requires WithinAMinute(now, t2)
    ensures Unix(now) <= Unix(t2) <= Unix(now) + 60
  {
  }

  /** One digit more makes a timestamp ten times as large, and the drift product wraps. */
  lemma LongerPasses(at: Attempt, t2: Time)
    requires Timely(at) && ThisEra(at.now) && WithinAMinute(at.now, t2)
    requires at.nonce != "" && IsDigit(at.nonce[0])
    ensures ParseInt(Spliced(at, t2).timestamp).Some?
    ensures DriftPasses(t2, ParseInt(Spliced(at, t2).timestamp).value)
  {
    hide DriftPasses, ParseInt;
    MinuteLater(at.now, t2);
    ParseOneMore(at.timestamp, at.nonce[0]);
    DriftCheck(t2, ParseInt(Spliced(at, t2).timestamp).value);
  }

  /** A shorter timestamp is at most a tenth, and refused by a drift check in its exact range. */
  lemma ShorterRefused(at: Attempt, other: Attempt, more: string)
    requires Timely(at) && ThisEra(at.now) && WithinAMinute(at.now, other.now)
    requires more != "" && at.timestamp == other.timestamp + more && ParseInt(other.timestamp).Some?
    ensures !DriftPasses(other.now, ParseInt(other.timestamp).value)
  {
    hide DriftPasses, ParseInt;
    MinuteLater(at.now, other.now);
    ParseLonger(other.timestamp, more);
    DriftCheck(other.now, ParseInt(other.timestamp).value);
  }

  lemma TimelyPasses(a: Auth, at: Attempt)
    requires Signed(a, at) && Timely(at)
    ensures PassesChecks(a, at)
  {
    hide DriftPasses, ParseInt;
    DriftCheck(at.now, ParseInt(at.timestamp).value);
  }

  /** A request whose nonce starts with a digit is accepted twice, at any moment of the next minute and
      whatever the cache remembers of it, as itself and as its other reading. */
  lemma SplicedAccepted(a: Auth, at: Attempt, t2: Time)
    requires a.limits.maxSize > 0 && Signed(a, at) && Timely(at) && ThisEra(at.now)
    requires WithinAMinute(at.now, t2) && at.nonce != "" && IsDigit(at.nonce[0])
    ensures BothAccepted(a, at, Spliced(at, t2))
  {
    hide DriftPasses, ParseInt, Signed, BothAccepted, Timely;
    TimelyPasses(a, at);
    LongerPasses(at, t2);
    SplicedSigned(a, at, t2);
    SecondOfRow(a, at, Spliced(at, t2));
    assert |Spliced(at, t2).nonce| < |at.nonce|;
  }

  /** Another request with the same id and another nonce, within a minute. */
  predicate SameRequest(at: Attempt, other: Attempt) {
    other.requestID == at.requestID && other.nonce != at.nonce && WithinAMinute(at.now, other.now)
  }

  lemma OtherReading(a: Auth, at: Attempt, other: Attempt)
    requires Injective(a) && Signed(a, at) && Timely(at) && ThisEra(at.now)
    requires SameRequest(at, other) && PassesChecks(a, other)
    ensures at.nonce != "" && IsDigit(at.nonce[0])
  {
    hide DriftPasses, ParseInt;
    assert Message(at) == Message(other);
    if |at.timestamp| <= |other.timestamp| {
      var more := Readings(at, other);
      assert more == "" ==> more + other.nonce == other.nonce;
      ParseLonger(at.timestamp, more);
    } else {
      var more := Readings(other, at);
      ShorterRefused(at, other, more);
      assert false;
    }
  }

  /** Which requests are open to it, exactly: for a MAC without collisions and a request with a timely
      timestamp, some other reading of the same request is accepted after it within a minute if and only if the
      nonce starts with a decimal digit. */
  lemma SplicedExactly(a: Auth, at: Attempt)
    requires Injective(a) && a.limits.maxSize > 0 && Signed(a, at) && Timely(at) && ThisEra(at.now)
    ensures (exists other | SameRequest(at, other) :: BothAccepted(a, at, other))
            <==> at.nonce != "" && IsDigit(at.nonce[0])
  {
    hide DriftPasses, ParseInt, BothAccepted, Signed, PassesChecks, Injective, Timely;
    if other :| SameRequest(at, other) && BothAccepted(a, at, other) {
      TimelyPasses(a, at);
      SecondOfRow(a, at, other);
      OtherReading(a, at, other);
    }
    if at.nonce != "" && IsDigit(at.nonce[0]) {
      var other := Spliced(at, at.now);
      SplicedAccepted(a, at, at.now);
      assert |other.nonce| < |at.nonce|;
      assert SameRequest(at, other);
    }
  }

  // ---------------------------------------------------------------- runs without far timestamps

  predicate RequestsOnce(a: Auth, events: seq<Event>) {
    forall i: nat, j: nat | i < j < |events| && AcceptedAt(a, events, i) && AcceptedAt(a, events, j) ::
      events[i].attempt.requestID != events[j].attempt.requestID
  }

  predicate ClockWithin(events: seq<Event>, lo: int, hi: int) {
    forall i | 0 <= i < |events| && events[i].Check? :: lo <= Unix(events[i].attempt.now) <= hi
  }

  lemma OneReading(a: Auth, at: Attempt, other: Attempt, lo: int, hi: int)
    requires Injective(a) && Signed(a, at) && Signed(a, other) && at.requestID == other.requestID
    requires Timely(at) && Timely(other) && |at.timestamp| <= |other.timestamp|
    requires lo <= Unix(at.now) <= hi && lo <= Unix(other.now) <= hi && hi + 30 < 10 * (lo - 30)
    ensures at.nonce == other.nonce
  {
    hide ParseInt;
    assert Message(at) == Message(other);
    var more := Readings(at, other);
    if more != "" {
      ParseLonger(at.timestamp, more);
      assert false;
    } else {
      assert at.nonce == other.nonce;
    }
  }

  /** With sane timestamps, and a clock that does not reach ten times its earliest reading, a request has one
      reading only; so where no nonce is accepted twice, no request is. */
  lemma RequestAcceptedOnce(a: Auth, events: seq<Event>, lo: int, hi: int)
    requires Injective(a) && AcceptedOnce(a, events) && SaneTimestamps(a, events)
    requires ClockWithin(events, lo, hi) && hi + 30 < 10 * (lo - 30)
    ensures RequestsOnce(a, events)
  {
    hide AcceptedAt, Injective, SaneTimestamps, Signed, Timely;
    forall i: nat, j: nat | i < j < |events| && AcceptedAt(a, events, i) && AcceptedAt(a, events, j)
      ensures events[i].attempt.requestID != events[j].attempt.requestID
    {
      var first, second := events[i].attempt, events[j].attempt;
      AcceptedSane(a, events, i);
      AcceptedSane(a, events, j);
      if first.requestID == second.requestID {
        if |first.timestamp| <= |second.timestamp| {
          OneReading(a, first, second, lo, hi);
        } else {
          OneReading(a, second, first, lo, hi);
        }
      }
    }
  }

  /** Two readings of one message, both timely, for a clock that reaches ten times its earliest reading. */
  lemma TwoReadings(a: Auth, lo: nat, hi: nat) returns (at: Attempt, other: Attempt)
    requires lo <= hi && hi + 30 >= 10 * (lo - 30) && IsInt64(hi + 30)
    ensures Signed(a, at) && Timely(at) && Signed(a, other) && Timely(other)
    ensures at.requestID == other.requestID && at.nonce != other.nonce && at.now <= other.now
    ensures lo <= Unix(at.now) <= hi && lo <= Unix(other.now) <= hi
  {
    hide DriftPasses;
    var t: nat := if lo > 30 then lo - 30 else 0;
    var c := if 10 * t - 30 > lo then 10 * t - 30 else lo;
    at := Attempt(a.mac(FormatNat(t) + "0"), FormatNat(t), "0", lo * SECOND);
    other := Attempt(at.requestID, FormatNat(t) + "0", "", c * SECOND);
    assert Message(other) == Message(at);
    TenfoldParses(t);
  }

  lemma ZeroTwice()
    ensures ParseInt(FormatNat(0) + "0") == Some(0)
  {
    assert FormatNat(0) == "0" && Leading(1) == "0" && Abs(0) == 0;
    DenotedParses("0" + "0", 0, "", 1);
  }

  lemma TenfoldParses(t: nat)
    requires IsInt64(10 * t)
    ensures ParseInt(FormatNat(t)) == Some(t) && ParseInt(FormatNat(t) + "0") == Some(10 * t)
  {
    hide ParseInt, FormatNat;
    ParseFormatted(t);
    if t > 0 {
      ParseOneMore(FormatNat(t), '0');
    } else {
      ZeroTwice();
    }
  }

  lemma TwoReadingsRun(a: Auth, lo: nat, hi: nat) returns (events: seq<Event>)
    requires a.limits.maxSize > 0 && lo <= hi && hi + 30 >= 10 * (lo - 30) && IsInt64(hi + 30)
    ensures Proper(a, events) && ClockRuns(events) && ClockWithin(events, lo, hi)
    ensures SaneTimestamps(a, events) && AcceptedOnce(a, events) && !RequestsOnce(a, events)
  {
    hide DriftPasses, ParseInt, Signed, PassesChecks, Proper, AcceptedAt;
    var at, other := TwoReadings(a, lo, hi);
    events := InARow(at, other);
    TimelyPasses(a, at);
    TimelyPasses(a, other);
    RowIsProper(a, at, other);
    SecondOfRow(a, at, other);
    assert events[0] == Check(at, at.now) && events[2] == Check(other, other.now);
  }

  /** How far the clock may run, exactly: for a MAC without collisions and clock readings from lo to hi, every
      run with sane timestamps that accepts no nonce twice accepts no request twice, if and only if no timely
      timestamp is ten times another. */
  lemma RequestOnceExactly(a: Auth, lo: nat, hi: nat)
    requires Injective(a) && a.limits.maxSize > 0 && lo <= hi && IsInt64(hi + 30)
    ensures (forall events | Proper(a, events) && ClockRuns(events) && ClockWithin(events, lo, hi)
                             && SaneTimestamps(a, events) && AcceptedOnce(a, events) :: RequestsOnce(a, events))
            <==> hi + 30 < 10 * (lo - 30)
  {
    hide Proper, ClockRuns, ClockWithin, SaneTimestamps, AcceptedOnce, RequestsOnce, Injective;
    if hi + 30 < 10 * (lo - 30) {
      forall events | Proper(a, events) && ClockRuns(events) && ClockWithin(events, lo, hi)
                      && SaneTimestamps(a, events) && AcceptedOnce(a, events)
        ensures RequestsOnce(a, events)
      {
        RequestAcceptedOnce(a, events, lo, hi);
      }
    } else {
      var events := TwoReadingsRun(a, lo, hi);
    }
  }

  /** So ordinary clients, whose clocks are all in this era, get each request accepted at most once. */
  lemma OrdinaryRequestsOnce(a: Auth, events: seq<Event>)
    requires Proper(a, events) && ClockRuns(events) && Ordinary(a, events) && a.limits.ttl == NONCE_TTL
    requires Injective(a)
    requires forall i | 0 <= i < |events| && events[i].Check? :: ThisEra(events[i].attempt.now)
    ensures RequestsOnce(a, events)
  {
    hide Proper, ClockRuns, AcceptedOnce, RequestsOnce, Injective;
    OrdinaryOnce(a, events);
    RequestAcceptedOnce(a, events, 1_100_000_000, 2_000_000_000);
  }
}
