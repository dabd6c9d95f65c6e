/** Replay protection over whole runs, Validate calls overlapping as they may: exactly when a nonce is accepted
    at most once. */
module ReplayProtection {
  import opened NonceCache
  import opened CacheRefinement
  import opened Authenticator
  import opened Numerals
  import opened Timestamps

  /** What happens to an authenticator. A Validate call takes the cache's lock twice: to look the nonce up, and
      once it has passed every check, to record it. */
  datatype Event =
    | Check(attempt: Attempt, looked: Time)   // a call, up to its verdict
    | Record(call: nat, added: Time)          // the add of the call that was checked as event number `call`
    | Tick(at: Time)                          // the cleanup goroutine

  function TimeOf(e: Event): Time {
    match e
    case Check(_, looked) => looked
    case Record(_, added) => added
    case Tick(at) => at
  }

  predicate Completes(events: seq<Event>, k: nat)
    requires k < |events|
  {
    events[k].Record? && events[k].call < k && events[events[k].call].Check?
  }

  function NonceOf(events: seq<Event>, k: nat): Nonce
    requires k < |events| && Completes(events, k)
  {
    events[events[k].call].attempt.nonce
  }

  /** The cache after a run, last event last. */
  function After(a: Auth, events: seq<Event>): State {
    if events == [] then EMPTY
    else
      var k := |events| - 1;
      var s := After(a, events[..k]);
      match events[k]
      case Check(at, looked) => Checked(a, s, at, looked).1
      case Record(_, added) => if Completes(events, k) then AfterAdd(a.limits, s, NonceOf(events, k), added) else s
      case Tick(at) => AfterCleanup(s, at)
  }

  predicate AcceptedAt(a: Auth, events: seq<Event>, i: nat): (accepted: bool)
    requires i < |events|
    ensures accepted ==> events[i].Check?
  {
    events[i].Check? && Checked(a, After(a, events[..i]), events[i].attempt, events[i].looked).0 == Accepted
  }

  /** The adds of a run. */
  function Recorded(events: seq<Event>): Log {
    if events == [] then []
    else
      var k := |events| - 1;
      if Completes(events, k)
        then Recorded(events[..k]) + [Added(NonceOf(events, k), events[k].added)]
        else Recorded(events[..k])
  }

  /** Only accepted calls record their nonce, after their check, and once. */
  predicate Proper(a: Auth, events: seq<Event>) {
    forall k: nat | k < |events| && events[k].Record? ::
      && events[k].call < k && AcceptedAt(a, events, events[k].call)
      && forall m: nat | m < k && events[m].Record? :: events[m].call != events[k].call
  }

  predicate ClockRuns(events: seq<Event>) {
    forall i, j | 0 <= i < j < |events| :: TimeOf(events[i]) <= TimeOf(events[j])
  }

  predicate AcceptedOnce(a: Auth, events: seq<Event>) {
    forall i: nat, j: nat | i < j < |events| && AcceptedAt(a, events, i) && AcceptedAt(a, events, j) ::
      events[i].attempt.nonce != events[j].attempt.nonce
  }

  // ---------------------------------------------------------------- prefixes

  lemma AcceptedMeans(a: Auth, events: seq<Event>, i: nat)
    requires i < |events| && events[i].Check?
    ensures AcceptedAt(a, events, i) <==>
              && PassesChecks(a, events[i].attempt)
              && !HasAnswer(After(a, events[..i]), events[i].attempt.nonce, events[i].looked)
  {
  }

  lemma AcceptedInPrefix(a: Auth, events: seq<Event>, n: nat, i: nat)
    requires i < n <= |events|
    ensures AcceptedAt(a, events[..n], i) <==> AcceptedAt(a, events, i)
  {
    assert events[..n][..i] == events[..i];
  }

  lemma PrefixProper(a: Auth, events: seq<Event>, n: nat)
    requires Proper(a, events) && ClockRuns(events) && n <= |events|
    ensures Proper(a, events[..n]) && ClockRuns(events[..n])
  {
    hide AcceptedAt;
    var part := events[..n];
    forall k: nat | k < |part| && part[k].Record?
      ensures part[k].call < k && AcceptedAt(a, part, part[k].call)
      ensures forall m: nat | m < k && part[m].Record? :: part[m].call != part[k].call
    {
      assert part[k] == events[k];
      AcceptedInPrefix(a, events, n, part[k].call);
    }
  }

  lemma PrefixOnce(a: Auth, events: seq<Event>, n: nat)
    requires AcceptedOnce(a, events) && n <= |events|
    ensures AcceptedOnce(a, events[..n])
  {
    hide AcceptedAt;
    forall i: nat, j: nat | i < j < n && AcceptedAt(a, events[..n], i) && AcceptedAt(a, events[..n], j)
      ensures events[..n][i].attempt.nonce != events[..n][j].attempt.nonce
    {
      AcceptedInPrefix(a, events, n, i);
      AcceptedInPrefix(a, events, n, j);
    }
  }

  lemma {:induction false} RecordedPrefix(events: seq<Event>, n: nat)
    requires n <= |events|
    ensures Recorded(events[..n]) <= Recorded(events)
    decreases |events|
  {
    if n == |events| {
      assert events[..n] == events;
    } else {
      var init := events[..|events| - 1];
      RecordedPrefix(init, n);
      assert init[..n] == events[..n];
    }
  }

  /** The entry that a Record makes in the log. */
  lemma RecordLogged(events: seq<Event>, r: nat)
    requires r < |events| && Completes(events, r)
    ensures |Recorded(events[..r])| < |Recorded(events)|
    ensures Recorded(events)[|Recorded(events[..r])|] == Added(NonceOf(events, r), events[r].added)
  {
    var upTo := events[..r + 1];
    assert upTo[..r] == events[..r];
    assert Recorded(upTo) == Recorded(events[..r]) + [Added(NonceOf(events, r), events[r].added)];
    RecordedPrefix(events, r + 1);
  }

  /** The Record that made the p-th entry of the log. */
  lemma {:induction false} RecordOf(events: seq<Event>, p: nat) returns (r: nat)
    requires p < |Recorded(events)|
    ensures r < |events| && Completes(events, r) && |Recorded(events[..r])| == p
    ensures Recorded(events)[p] == Added(NonceOf(events, r), events[r].added)
    decreases |events|
  {
    var k := |events| - 1;
    if p < |Recorded(events[..k])| {
      r := RecordOf(events[..k], p);
      assert events[..k][..r] == events[..r];
    } else {
      r := k;
    }
  }

  // ---------------------------------------------------------------- the cache represents the adds

  /** The nonce of an accepted call is not in the log before the call records it. */
  lemma RecordedFresh(a: Auth, events: seq<Event>, k: nat, p: nat)
    requires Proper(a, events) && AcceptedOnce(a, events)
    requires k < |events| && events[k].Record? && p < |Recorded(events[..k])|
    ensures Completes(events, k) && Recorded(events[..k])[p].nonce != NonceOf(events, k)
  {
    hide AcceptedAt, Recorded;
    assert AcceptedAt(a, events, events[k].call);
    var r := RecordOf(events[..k], p);
    assert events[..k][r] == events[r] && AcceptedAt(a, events, events[r].call);
    assert events[r].call != events[k].call;
  }

  lemma CheckTracks(a: Auth, s: State, log: Log, at: Attempt, looked: Time)
    requires Represents(a.limits, s, log, looked)
    ensures Represents(a.limits, Checked(a, s, at, looked).1, log, looked)
  {
    hide Represents, DriftPasses, ParseInt;
    if Checked(a, s, at, looked).1 != s {
      HasTracks(a.limits, s, log, looked, at.nonce, looked);
    }
  }

  lemma EventTracks(a: Auth, events: seq<Event>, k: nat)
    requires Proper(a, events) && AcceptedOnce(a, events) && |events| == k + 1
    requires Represents(a.limits, After(a, events[..k]), Recorded(events[..k]), TimeOf(events[k]))
    ensures Represents(a.limits, After(a, events), Recorded(events), TimeOf(events[k]))
  {
    hide Represents, Checked, AcceptedOnce, Proper, NonceOf;
    var s, log, e := After(a, events[..k]), Recorded(events[..k]), events[k];
    match e {
      case Check(at, looked) => CheckTracks(a, s, log, at, looked);
      case Tick(at) => CleanupTracks(a.limits, s, log, at, at);
      case Record(call, added) =>
        forall p | 0 <= p < |log|
          ensures Completes(events, k) && log[p].nonce != NonceOf(events, k)
        {
          RecordedFresh(a, events, k, p);
        }
        if Completes(events, k) {
          NeverLogged(a.limits, s, log, added, NonceOf(events, k), added);
          AddTracks(a.limits, s, log, added, NonceOf(events, k), added);
        }
    }
  }

  /** Whatever calls overlap, the cache represents the adds as long as no nonce has been accepted twice. */
  lemma {:induction false} RunTracks(a: Auth, events: seq<Event>, now: Time)
    requires Proper(a, events) && ClockRuns(events) && AcceptedOnce(a, events)
    requires events != [] ==> TimeOf(events[|events| - 1]) <= now
    ensures Represents(a.limits, After(a, events), Recorded(events), now)
  {
    hide Represents, AcceptedOnce, Proper;
    if events == [] {
      EmptyTracks(a.limits, now);
    } else {
      var k := |events| - 1;
      PrefixProper(a, events, k);
      PrefixOnce(a, events, k);
      RunTracks(a, events[..k], TimeOf(events[k]));
      EventTracks(a, events, k);
      LaterRepresents(a.limits, After(a, events), Recorded(events), TimeOf(events[k]), now);
    }
  }

  // ---------------------------------------------------------------- the verdict, exactly

  /** In every run in which no nonce has been accepted twice so far, the next verdict is what the history of
      adds says: accepted if and only if the call passes the other checks and its nonce is not remembered. */
  lemma VerdictExactly(a: Auth, events: seq<Event>, j: nat)
    requires Proper(a, events) && ClockRuns(events)
    requires j < |events| && events[j].Check? && AcceptedOnce(a, events[..j])
    ensures AcceptedAt(a, events, j) <==>
              && PassesChecks(a, events[j].attempt)
              && !Remembered(a.limits, Recorded(events[..j]), events[j].attempt.nonce, events[j].looked)
  {
    hide Represents, AcceptedOnce, Proper, After, Recorded, Remembered, HasAnswer, PassesChecks, AcceptedAt;
    var at, looked := events[j].attempt, events[j].looked;
    PrefixProper(a, events, j);
    if j > 0 {
      assert events[..j][j - 1] == events[j - 1];
    }
    RunTracks(a, events[..j], looked);
    HasIsHistory(a.limits, After(a, events[..j]), Recorded(events[..j]), looked, at.nonce, looked);
    AcceptedMeans(a, events, j);
  }

  // ---------------------------------------------------------------- at most once, exactly

  /** Event j is a call that passes every check but the replay check. */
  predicate Passes(a: Auth, events: seq<Event>, j: nat)
    requires j < |events|
  {
    events[j].Check? && PassesChecks(a, events[j].attempt)
  }

  /** Record r covers call j: it comes first, for the same nonce, its lifetime has not passed when call j looks
      the nonce up, and by then at most maxSize nonces have been recorded, its own included. */
  predicate Covers(l: Limits, events: seq<Event>, r: nat, j: nat)
    requires j < |events|
  {
    && r < j && Completes(events, r) && events[j].Check?
    && NonceOf(events, r) == events[j].attempt.nonce
    && events[j].looked <= events[r].added + l.ttl
    && |Recorded(events[..j])| - |Recorded(events[..r])| <= l.maxSize
  }

  ghost predicate Covered(l: Limits, events: seq<Event>, j: nat)
    requires j < |events|
  {
    exists r: nat :: Covers(l, events, r, j)
  }

  /** Every call that repeats the nonce of an earlier one, and passes the other checks as that one did, is
      covered by a Record. */
  ghost predicate RepeatsCovered(a: Auth, events: seq<Event>) {
    forall i: nat, j: nat | i < j < |events| && Passes(a, events, i) && Passes(a, events, j)
      && events[i].attempt.nonce == events[j].attempt.nonce ::
      Covered(a.limits, events, j)
  }

  lemma CoversRemembers(l: Limits, events: seq<Event>, r: nat, j: nat)
    requires j < |events| && Covers(l, events, r, j)
    ensures Remembered(l, Recorded(events[..j]), events[j].attempt.nonce, events[j].looked)
  {
    var before := events[..j];
    assert before[..r] == events[..r] && Completes(before, r);
    RecordLogged(before, r);
    assert RememberedAt(l, Recorded(before), |Recorded(before[..r])|, events[j].attempt.nonce, events[j].looked);
  }

  /** To be covered is to be remembered by the history of adds. */
  lemma CoveredExactly(l: Limits, events: seq<Event>, j: nat)
    requires j < |events| && events[j].Check?
    ensures Covered(l, events, j) <==>
              Remembered(l, Recorded(events[..j]), events[j].attempt.nonce, events[j].looked)
  {
    var before, nonce, looked := events[..j], events[j].attempt.nonce, events[j].looked;
    if r: nat :| Covers(l, events, r, j) {
      CoversRemembers(l, events, r, j);
    }
    if Remembered(l, Recorded(before), nonce, looked) {
      var p :| RememberedAt(l, Recorded(before), p, nonce, looked);
      var r := RecordOf(before, p);
      assert before[..r] == events[..r];
      assert Covers(l, events, r, j);
    }
  }

  lemma VerdictIsCovered(a: Auth, events: seq<Event>, j: nat)
    requires Proper(a, events) && ClockRuns(events)
    requires j < |events| && events[j].Check? && AcceptedOnce(a, events[..j])
    ensures AcceptedAt(a, events, j) <==> Passes(a, events, j) && !Covered(a.limits, events, j)
  {
    hide AcceptedOnce, Proper, Remembered, Covered, PassesChecks, AcceptedAt;
    VerdictExactly(a, events, j);
    CoveredExactly(a.limits, events, j);
  }

  lemma CoveredInPrefix(l: Limits, events: seq<Event>, n: nat, j: nat)
    requires j < n <= |events|
    ensures Covered(l, events, j) ==> Covered(l, events[..n], j)
  {
    if r: nat :| Covers(l, events, r, j) {
      assert events[..n][..j] == events[..j] && events[..n][..r] == events[..r];
      assert Covers(l, events[..n], r, j);
    }
  }

  /** It is enough that accepted repeats would be covered. */
  ghost predicate AcceptedCovered(a: Auth, events: seq<Event>) {
    forall i: nat, j: nat | i < j < |events| && AcceptedAt(a, events, i) && AcceptedAt(a, events, j)
      && events[i].attempt.nonce == events[j].attempt.nonce ::
      Covered(a.limits, events, j)
  }

  lemma PrefixCovered(a: Auth, events: seq<Event>, n: nat)
    requires AcceptedCovered(a, events) && n <= |events|
    ensures AcceptedCovered(a, events[..n])
  {
    hide AcceptedAt, Covered;
    forall i: nat, j: nat | i < j < n && AcceptedAt(a, events[..n], i) && AcceptedAt(a, events[..n], j)
      && events[..n][i].attempt.nonce == events[..n][j].attempt.nonce
      ensures Covered(a.limits, events[..n], j)
    {
      AcceptedInPrefix(a, events, n, i);
      AcceptedInPrefix(a, events, n, j);
      CoveredInPrefix(a.limits, events, n, j);
    }
  }

  lemma {:induction false} CoveredOnce(a: Auth, events: seq<Event>)
    requires Proper(a, events) && ClockRuns(events) && AcceptedCovered(a, events)
    ensures AcceptedOnce(a, events)
    decreases |events|
  {
    hide AcceptedAt, Covered, Proper;
    forall i: nat, j: nat | i < j < |events| && AcceptedAt(a, events, i) && AcceptedAt(a, events, j)
      ensures events[i].attempt.nonce != events[j].attempt.nonce
    {
      PrefixProper(a, events, j);
      PrefixCovered(a, events, j);
      CoveredOnce(a, events[..j]);
      VerdictIsCovered(a, events, j);
    }
  }

  lemma AcceptedPasses(a: Auth, events: seq<Event>, i: nat)
    requires i < |events| && AcceptedAt(a, events, i)
    ensures Passes(a, events, i)
  {
  }

  lemma RepeatIsCovered(a: Auth, events: seq<Event>, i: nat, j: nat)
    requires Proper(a, events) && ClockRuns(events) && AcceptedOnce(a, events)
    requires i < j < |events| && Passes(a, events, i) && Passes(a, events, j)
    requires events[i].attempt.nonce == events[j].attempt.nonce
    ensures Covered(a.limits, events, j)
  {
    hide AcceptedAt, Proper, PassesChecks, Recorded;
    PrefixOnce(a, events, i);
    PrefixOnce(a, events, j);
    VerdictIsCovered(a, events, i);
    VerdictIsCovered(a, events, j);
    if AcceptedAt(a, events, j) && !AcceptedAt(a, events, i) {
      var r: nat :| Covers(a.limits, events, r, i);
      RecordsAccepted(a, events, r);
    }
  }

  lemma RecordsAccepted(a: Auth, events: seq<Event>, r: nat)
    requires Proper(a, events) && r < |events| && Completes(events, r)
    ensures AcceptedAt(a, events, events[r].call)
  {
  }

  /** At most once, exactly: in every run, with calls overlapping at will, no nonce is accepted twice if and
      only if every repeat that passes the other checks is covered: it looks its nonce up after the add, within
      the lifetime, and before maxSize further adds. */
  lemma AtMostOnceExactly(a: Auth, events: seq<Event>)
    requires Proper(a, events) && ClockRuns(events)
    ensures AcceptedOnce(a, events) <==> RepeatsCovered(a, events)
  {
    hide AcceptedAt, Covered, Proper, PassesChecks;
    if AcceptedOnce(a, events) {
      forall i: nat, j: nat | i < j < |events| && Passes(a, events, i) && Passes(a, events, j)
        && events[i].attempt.nonce == events[j].attempt.nonce
        ensures Covered(a.limits, events, j)
      {
        RepeatIsCovered(a, events, i, j);
      }
    }
    if RepeatsCovered(a, events) {
      forall i: nat | i < |events| && AcceptedAt(a, events, i)
        ensures Passes(a, events, i)
      {
        AcceptedPasses(a, events, i);
      }
      CoveredOnce(a, events);
    }
  }
}
