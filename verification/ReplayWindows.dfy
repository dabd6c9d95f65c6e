/** When the conditions of at-most-once hold: ordinary clients; and when they do not: timestamps ahead of the
    clock, wrapped drift, overlapping calls. */
module ReplayWindows {
  import opened NonceCache
  import opened CacheRefinement
  import opened CacheRuns
  import opened Authenticator
  import opened Numerals
  import opened Timestamps
  import opened ReplayProtection

  // ---------------------------------------------------------------- the cache that Validate uses

  /** With the cache's own size and lifetime, a nonce may be added once: that is exact. */
  lemma OwnCacheExactly(k: nat)
    ensures (forall ops | ClockAdvances(ops) && AddsAtMost(k, ops) :: Refines(CACHE_LIMITS, ops)) <==> k <= 1
    ensures Remembered(CACHE_LIMITS, LogOf(Refilled(CACHE_LIMITS)), "n", NONCE_TTL + 1)
    ensures !HasAnswer(AfterOps(CACHE_LIMITS, Refilled(CACHE_LIMITS)), "n", NONCE_TTL + 1)
  {
    hide ClockAdvances, AddsAtMost, Refines, Remembered, HasAnswer, AfterOps, LogOf, Refilled;
    RefinesExactly(CACHE_LIMITS, k);
    ReaddForgottenAtOnce(CACHE_LIMITS);
  }

  /** How much the authenticator's cache remembers, in numbers: over every run on an advancing clock that adds
      each nonce at most once, a nonce added at t is found at every lookup up to 60 s later that follows at most
      9999 further adds, and at no other. */
  lemma OwnCacheRemembers(before: seq<Op>, nonce: Nonce, t: Time, after: seq<Op>, now: Time)
    requires ClockAdvances(Around(before, nonce, t, after) + [Has(nonce, now)])
    requires AddsAtMost(1, Around(before, nonce, t, after))
    ensures HasAnswer(AfterOps(CACHE_LIMITS, Around(before, nonce, t, after)), nonce, now)
            <==> now <= t + 60_000_000_000 && AllAdds(after) <= 9_999
  {
    hide ClockAdvances, Around, AddsAtMost, AfterOps, HasAnswer, AllAdds;
    RememberedFor(CACHE_LIMITS, before, nonce, t, after, now);
  }

  lemma OneCover(a: Auth, events: seq<Event>, r: nat, q: nat, j: nat)
    requires r < j < |events| && q < j && Completes(events, r) && Completes(events, q)
    requires Proper(a, events) && AcceptedOnce(a, events[..j]) && NonceOf(events, r) == NonceOf(events, q)
    ensures r == q
  {
    hide AcceptedAt;
    RecordsAccepted(a, events, r);
    RecordsAccepted(a, events, q);
    AcceptedInPrefix(a, events, j, events[r].call);
    AcceptedInPrefix(a, events, j, events[q].call);
    assert events[r].call == events[q].call;
  }

  /** What that means for a repeat, in numbers: with the authenticator's cache, as long as no nonce has been
      accepted twice, a call that passes the other checks and repeats a recorded nonce is accepted if and only if
      it looks it up more than 60 s after the add, or behind 10000 further adds. */
  lemma RepeatAcceptedExactly(a: Auth, events: seq<Event>, r: nat, j: nat)
    requires a.limits == CACHE_LIMITS && r < j < |events| && Completes(events, r) && Passes(a, events, j)
    requires NonceOf(events, r) == events[j].attempt.nonce
    requires Proper(a, events) && ClockRuns(events) && AcceptedOnce(a, events[..j])
    ensures AcceptedAt(a, events, j) <==>
              || events[j].looked > events[r].added + 60_000_000_000
              || |Recorded(events[..j])| - |Recorded(events[..r + 1])| >= 10_000
  {
    hide AcceptedAt, AcceptedOnce, Proper, PassesChecks, Recorded;
    VerdictIsCovered(a, events, j);
    RecordsOneMore(events, r);
    forall q: nat | Covers(a.limits, events, q, j)
      ensures q == r
    {
      OneCover(a, events, r, q, j);
    }
    assert Covered(a.limits, events, j) <==> Covers(a.limits, events, r, j);
  }

  lemma RecordsOneMore(events: seq<Event>, r: nat)
    requires r < |events| && Completes(events, r)
    ensures |Recorded(events[..r + 1])| == |Recorded(events[..r])| + 1
  {
    assert events[..r + 1][..r] == events[..r];
    assert Completes(events[..r + 1], r);
  }

  // ---------------------------------------------------------------- ordinary runs

  /** Clients sign each nonce under one timestamp only. */
  predicate OneTimestampPerNonce(a: Auth, events: seq<Event>) {
    forall i, j | 0 <= i < |events| && 0 <= j < |events| && events[i].Check? && events[j].Check?
      && Signed(a, events[i].attempt) && Signed(a, events[j].attempt)
      && events[i].attempt.nonce == events[j].attempt.nonce ::
      events[i].attempt.timestamp == events[j].attempt.timestamp
  }

  /** Signed timestamps are close enough to the clock for the drift product not to wrap. */
  predicate SaneTimestamps(a: Auth, events: seq<Event>) {
    forall i | 0 <= i < |events| && events[i].Check? && Signed(a, events[i].attempt) :: SaneTimestamp(events[i].attempt)
  }

  predicate SaneTimestamp(at: Attempt) {
    var ts := ParseInt(at.timestamp);
    ts.Some? ==> InExactRange(at.now, ts.value)
  }

  /** Unix truncates to seconds while expiry does not, and the clock is read again for the lookup; so signed
      timestamps run at most 28 s ahead of the clock, and a call looks its nonce up within a second. */
  predicate InTime(a: Auth, events: seq<Event>) {
    forall i | 0 <= i < |events| && events[i].Check? && Signed(a, events[i].attempt) ::
      && NotFarAhead(events[i].attempt)
      && events[i].attempt.now <= events[i].looked <= events[i].attempt.now + SECOND
  }

  predicate NotFarAhead(at: Attempt) {
    var ts := ParseInt(at.timestamp);
    ts.Some? ==> ts.value <= Unix(at.now) + 28
  }

  /** An accepted call records its nonce before another call checks the same nonce. */
  ghost predicate Settled(a: Auth, events: seq<Event>) {
    forall i: nat, j: nat | i < j < |events| && AcceptedAt(a, events, i) && events[j].Check?
      && events[i].attempt.nonce == events[j].attempt.nonce ::
      exists r: nat :: RecordedBetween(events, i, r, j)
  }

  predicate RecordedBetween(events: seq<Event>, i: nat, r: nat, j: nat)
    requires i < j < |events|
  {
    i < r < j && Completes(events, r) && events[r].call == i
  }

  /** Within its lifetime, a recorded nonce is followed by fewer than maxSize others. */
  predicate Uncrowded(l: Limits, events: seq<Event>) {
    forall r: nat, j: nat | r < j < |events| && Completes(events, r) && TimeOf(events[j]) <= events[r].added + l.ttl ::
      |Recorded(events[..j])| - |Recorded(events[..r])| <= l.maxSize
  }

  ghost predicate Ordinary(a: Auth, events: seq<Event>) {
    && OneTimestampPerNonce(a, events) && SaneTimestamps(a, events) && InTime(a, events)
    && Settled(a, events) && Uncrowded(a.limits, events)
  }

  /** What gets a call past the drift check, as it is meant. */
  predicate Timely(at: Attempt) {
    ParseInt(at.timestamp).Some? && Distance(at.now, ParseInt(at.timestamp).value) <= 30
  }

  lemma SaneIsTimely(a: Auth, at: Attempt)
    requires Signed(a, at) && SaneTimestamp(at)
    ensures PassesChecks(a, at) <==> Timely(at)
  {
    hide DriftPasses;
    if ParseInt(at.timestamp).Some? {
      DriftCheck(at.now, ParseInt(at.timestamp).value);
    }
  }

  lemma AcceptedSane(a: Auth, events: seq<Event>, i: nat)
    requires SaneTimestamps(a, events) && i < |events| && AcceptedAt(a, events, i)
    ensures Signed(a, events[i].attempt) && Timely(events[i].attempt)
  {
    hide AcceptedAt, Signed, SaneTimestamp, Timely, DriftPasses;
    AcceptedPasses(a, events, i);
    SaneIsTimely(a, events[i].attempt);
  }

  /** Two clock readings that both pass the drift check for ts, the first at most 28 s before it, are at most
      59 s apart, and so a second lookup comes within the lifetime of the first add. */
  lemma WithinLifetime(t1: Time, t2: Time, ts: int)
    requires Distance(t1, ts) <= 30 && Distance(t2, ts) <= 30 && ts <= Unix(t1) + 28
    ensures t2 + SECOND <= t1 + NONCE_TTL
  {
    assert t1 == Unix(t1) * SECOND + t1 % SECOND && t2 == Unix(t2) * SECOND + t2 % SECOND;
  }

  lemma PairCovered(a: Auth, events: seq<Event>, i: nat, j: nat)
    requires ClockRuns(events) && Ordinary(a, events) && a.limits.ttl == NONCE_TTL
    requires i < j < |events| && AcceptedAt(a, events, i) && AcceptedAt(a, events, j)
    requires events[i].attempt.nonce == events[j].attempt.nonce
    ensures Covered(a.limits, events, j)
  {
    hide AcceptedAt, Recorded, Signed;
    var first, second := events[i].attempt, events[j].attempt;
    AcceptedSane(a, events, i);
    AcceptedSane(a, events, j);
    assert first.timestamp == second.timestamp;
    WithinLifetime(first.now, second.now, ParseInt(first.timestamp).value);
    var r: nat :| RecordedBetween(events, i, r, j);
    assert TimeOf(events[i]) <= TimeOf(events[r]);
    assert TimeOf(events[j]) == events[j].looked;
    assert Covers(a.limits, events, r, j);
  }

  /** At most once for ordinary clients: no nonce is accepted twice, and so no signed pair. */
  lemma OrdinaryOnce(a: Auth, events: seq<Event>)
    requires Proper(a, events) && ClockRuns(events) && Ordinary(a, events) && a.limits.ttl == NONCE_TTL
    ensures AcceptedOnce(a, events)
  {
    hide AcceptedAt, Covered, Ordinary, Proper, ClockRuns;
    forall i: nat, j: nat | i < j < |events| && AcceptedAt(a, events, i) && AcceptedAt(a, events, j)
      && events[i].attempt.nonce == events[j].attempt.nonce
      ensures Covered(a.limits, events, j)
    {
      PairCovered(a, events, i, j);
    }
    CoveredOnce(a, events);
  }

  // ---------------------------------------------------------------- two calls in a row

  /** A call that takes no time, then another call. */
  function InARow(at: Attempt, other: Attempt): seq<Event> {
    [Check(at, at.now), Record(0, at.now), Check(other, other.now)]
  }

  lemma FirstOfRow(a: Auth, at: Attempt, other: Attempt)
    requires PassesChecks(a, at)
    ensures AcceptedAt(a, InARow(at, other), 0)
    ensures After(a, InARow(at, other)[..2]) == AfterAdd(a.limits, EMPTY, at.nonce, at.now)
  {
    var events := InARow(at, other);
    AcceptedMeans(a, events, 0);
    assert events[..0] == [];
    assert events[..2] == [events[0], events[1]];
    assert events[..2][..1] == events[..1] == [events[0]];
    assert events[..1][..0] == [];
    assert Completes(events[..2], 1);
  }

  lemma RowIsProper(a: Auth, at: Attempt, other: Attempt)
    requires PassesChecks(a, at) && at.now <= other.now
    ensures Proper(a, InARow(at, other)) && ClockRuns(InARow(at, other))
  {
    FirstOfRow(a, at, other);
  }

  lemma OneEntry(l: Limits, nonce: Nonce, now: Time)
    requires l.maxSize > 0
    ensures AfterAdd(l, EMPTY, nonce, now).entries == map[nonce := now + l.ttl]
  {
    var inserted := Inserted(l, EMPTY, nonce, now);
    assert inserted.entries.Keys == {nonce};
    assert |inserted.entries| == 1;
  }

  predicate BothAccepted(a: Auth, at: Attempt, other: Attempt) {
    AcceptedAt(a, InARow(at, other), 0) && AcceptedAt(a, InARow(at, other), 2)
  }

  /** The second of two calls in a row. */
  lemma SecondOfRow(a: Auth, at: Attempt, other: Attempt)
    requires PassesChecks(a, at) && a.limits.maxSize > 0
    ensures BothAccepted(a, at, other) <==>
              PassesChecks(a, other) && (other.nonce != at.nonce || other.now > at.now + a.limits.ttl)
  {
    hide PassesChecks, AcceptedAt, After, AfterAdd;
    FirstOfRow(a, at, other);
    OneEntry(a.limits, at.nonce, at.now);
    AcceptedMeans(a, InARow(at, other), 2);
  }

  function Again(at: Attempt, t2: Time): Attempt {
    at.(now := t2)
  }

  // ---------------------------------------------------------------- the same request, later

  /** When a pair accepted at t1 could be accepted again, the drift check working as meant: some later clock
      reading still passes it after the nonce has expired, exactly if ts was a full 30 s ahead and t1 was not
      the last nanosecond of its second. */
  lemma ReplayWindow(t1: Time, ts: int)
    requires Distance(t1, ts) <= 30
    ensures (exists t2 :: t2 > t1 + NONCE_TTL && Distance(t2, ts) <= 30)
            <==> ts == Unix(t1) + 30 && t1 % SECOND < SECOND - 1
  {
    assert t1 == Unix(t1) * SECOND + t1 % SECOND;
    if t2 :| t2 > t1 + NONCE_TTL && Distance(t2, ts) <= 30 {
      assert t2 == Unix(t2) * SECOND + t2 % SECOND;
    }
    if ts == Unix(t1) + 30 && t1 % SECOND < SECOND - 1 {
      var t2 := t1 + NONCE_TTL + 1;
      assert t2 == (Unix(t1) + 60) * SECOND + (t1 % SECOND + 1);
      assert Unix(t2) == Unix(t1) + 60;
      assert Distance(t2, ts) <= 30;
    }
  }

  /** Clock readings in the second after t1's nonce has expired. */
  predicate JustExpired(t1: Time, t2: Time) {
    t1 + NONCE_TTL < t2 <= t1 + NONCE_TTL + SECOND
  }

  /** They are 60 or 61 whole seconds on; 60 only if t1 was not in the last nanosecond of its second. */
  lemma SecondsLater(t1: Time, t2: Time)
    requires JustExpired(t1, t2)
    ensures Unix(t2) == Unix(t1) + 61 || (Unix(t2) == Unix(t1) + 60 && t1 % SECOND < SECOND - 1)
  {
    assert t1 == Unix(t1) * SECOND + t1 % SECOND && t2 == Unix(t2) * SECOND + t2 % SECOND;
  }

  lemma FirstAfter(t1: Time)
    ensures JustExpired(t1, t1 + NONCE_TTL + 1) && JustExpired(t1, t1 + NONCE_TTL + SECOND)
    ensures Unix(t1 + NONCE_TTL + SECOND) == Unix(t1) + 61
    ensures t1 % SECOND < SECOND - 1 ==> Unix(t1 + NONCE_TTL + 1) == Unix(t1) + 60
  {
    var t2 := t1 + NONCE_TTL + 1;
    assert t1 == Unix(t1) * SECOND + t1 % SECOND;
    assert t2 == (Unix(t1) + 60) * SECOND + (t1 % SECOND + 1);
  }

  /** The drift check passes at the end of that second, or, if t1 is not in the last nanosecond of its second,
      at its start. */
  predicate PassesAfterwards(t1: Time, ts: int) {
    || DriftPasses(t1 + NONCE_TTL + SECOND, ts)
    || (t1 % SECOND < SECOND - 1 && DriftPasses(t1 + NONCE_TTL + 1, ts))
  }

  lemma SameSecond(t: Time, u: Time, ts: int)
    requires Unix(t) == Unix(u)
    ensures DriftPasses(t, ts) <==> DriftPasses(u, ts)
  {
  }

  lemma PassesInWindow(t1: Time, t2: Time, ts: int)
    requires JustExpired(t1, t2) && DriftPasses(t2, ts)
    ensures PassesAfterwards(t1, ts)
  {
    hide DriftPasses;
    FirstAfter(t1);
    SecondsLater(t1, t2);
    var end := if Unix(t2) == Unix(t1) + 61 then t1 + NONCE_TTL + SECOND else t1 + NONCE_TTL + 1;
    SameSecond(t2, end, ts);
  }

  /** Every request that the checks let through, repeated in the second after its nonce has expired: some such
      repeat is accepted if and only if the timestamp passes the drift check then too. */
  lemma AcceptedTwiceExactly(a: Auth, at: Attempt)
    requires a.limits.ttl == NONCE_TTL && a.limits.maxSize > 0 && PassesChecks(a, at)
    ensures (exists t2 | JustExpired(at.now, t2) :: BothAccepted(a, at, Again(at, t2)))
            <==> PassesAfterwards(at.now, ParseInt(at.timestamp).value)
  {
    hide BothAccepted, DriftPasses, Signed;
    var ts := ParseInt(at.timestamp).value;
    assert Signed(a, at);
    if t2 :| JustExpired(at.now, t2) && BothAccepted(a, at, Again(at, t2)) {
      SecondOfRow(a, at, Again(at, t2));
      PassesInWindow(at.now, t2, ts);
    }
    if PassesAfterwards(at.now, ts) {
      FirstAfter(at.now);
      var t2 := at.now + NONCE_TTL + if DriftPasses(at.now + NONCE_TTL + SECOND, ts) then SECOND else 1;
      SameSignature(a, at, t2);
      SecondOfRow(a, at, Again(at, t2));
    }
  }

  /** In numbers, for a timestamp up to 584 years off that passes at t1: it passes afterwards if and only if it
      is exactly 30 s ahead of the clock, or 9223372097 s, and t1 not in the last nanosecond of its second; or
      so far behind, or further ahead, that the drift product wraps then too. */
  lemma PassesAfterwardsExactly(t1: Time, ts: int)
    requires Distance(t1, ts) <= 18446744073 - 61 && DriftPasses(t1, ts)
    ensures var ahead := ts - Unix(t1);
            PassesAfterwards(t1, ts) <==>
              || ((ahead == 30 || ahead == 9223372097) && t1 % SECOND < SECOND - 1)
              || ahead <= -9223372037 || ahead >= 9223372098
  {
    hide DriftPasses;
    FirstAfter(t1);
    DriftCheck(t1, ts);
    DriftCheck(t1 + NONCE_TTL + SECOND, ts);
    if t1 % SECOND < SECOND - 1 {
      DriftCheck(t1 + NONCE_TTL + 1, ts);
    }
  }

  lemma SameSignature(a: Auth, at: Attempt, t2: Time)
    ensures Signed(a, at) <==> Signed(a, Again(at, t2))
  {
  }

  // ---------------------------------------------------------------- the same request, at the same time

  /** Two calls with the same request are both accepted when the second looks the nonce up before the first
      has recorded it, whenever that is. */
  lemma OverlappingAccepted(a: Auth, events: seq<Event>, i: nat, j: nat)
    requires i < j < |events| && AcceptedAt(a, events, i) && Passes(a, events, j)
    requires Proper(a, events) && ClockRuns(events) && AcceptedOnce(a, events[..j])
    requires events[i].attempt.nonce == events[j].attempt.nonce
    requires forall r: nat :: !RecordedBetween(events, i, r, j)
    ensures AcceptedAt(a, events, j)
  {
    hide AcceptedAt, PassesChecks, Recorded;
    VerdictIsCovered(a, events, j);
    forall r: nat | Covers(a.limits, events, r, j)
      ensures RecordedBetween(events, i, r, j)
    {
      RecordsAccepted(a, events, r);
      AcceptedInPrefix(a, events, j, events[r].call);
      AcceptedInPrefix(a, events, j, i);
    }
  }
}
