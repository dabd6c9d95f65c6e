/** The refinement over whole runs of the cache, and how far nonces may be added again. */
module CacheRuns {
  import opened Bytes
  import opened NonceCache
  import opened CacheRefinement

  datatype Op = Has(nonce: Nonce, now: Time) | Add(nonce: Nonce, now: Time) | Cleanup(now: Time)

  function Performed(l: Limits, s: State, op: Op): State {
    match op
    case Has(nonce, now) => AfterHas(s, nonce, now)
    case Add(nonce, now) => AfterAdd(l, s, nonce, now)
    case Cleanup(now) => AfterCleanup(s, now)
  }

  /** The cache after a run, last operation last. */
  function AfterOps(l: Limits, ops: seq<Op>): State {
    if ops == [] then EMPTY
    else Performed(l, AfterOps(l, ops[..|ops| - 1]), ops[|ops| - 1])
  }

  function LogOf(ops: seq<Op>): Log {
    if ops == [] then []
    else
      var log, last := LogOf(ops[..|ops| - 1]), ops[|ops| - 1];
      if last.Add? then log + [Added(last.nonce, last.now)] else log
  }

  predicate ClockAdvances(ops: seq<Op>) {
    forall i, j | 0 <= i < j < |ops| :: ops[i].now <= ops[j].now
  }

  predicate Adds(op: Op, nonce: Nonce) {
    op.Add? && op.nonce == nonce
  }

  /** A cleanup that drops what was added at that time. */
  predicate Sweeps(l: Limits, op: Op, added: Time) {
    op.Cleanup? && op.now > added + l.ttl
  }

  /** Between two adds of one nonce a cleanup comes after the first has expired. */
  ghost predicate CleanedBetween(l: Limits, ops: seq<Op>) {
    forall i, j | 0 <= i < j < |ops| && ops[i].Add? && Adds(ops[j], ops[i].nonce) ::
      exists k :: i < k < j && Sweeps(l, ops[k], ops[i].now)
  }

  lemma {:induction false} EvictedAbsent(maxSize: nat, s: State, nonce: Nonce)
    requires Absent(s, nonce)
    ensures Absent(Evicted(maxSize, s), nonce)
    decreases |s.order|
  {
    if |s.entries| > maxSize && |s.order| > 0 {
      EvictedAbsent(maxSize, State(s.entries - {s.order[0].nonce}, s.order[1..]), nonce);
    }
  }

  lemma {:induction false} CompactedFrom(order: seq<Item>, entries: map<Nonce, Time>)
    ensures forall e | e in Compacted(order, entries) :: e in order && e.nonce in entries
  {
    if order != [] {
      CompactedFrom(order[1..], entries);
    }
  }

  lemma StaysAbsent(l: Limits, s: State, op: Op, nonce: Nonce)
    requires Absent(s, nonce) && !Adds(op, nonce)
    ensures Absent(Performed(l, s, op), nonce)
  {
    match op {
      case Has(n, now) =>
      case Add(n, now) => EvictedAbsent(l.maxSize, Inserted(l, s, n, now), nonce);
      case Cleanup(now) => CompactedFrom(s.order, Unexpired(s.entries, now));
    }
  }

  lemma {:induction false} NeverAdded(l: Limits, ops: seq<Op>, nonce: Nonce)
    requires forall i | 0 <= i < |ops| :: !Adds(ops[i], nonce)
    ensures Absent(AfterOps(l, ops), nonce)
  {
    if ops != [] {
      NeverAdded(l, ops[..|ops| - 1], nonce);
      StaysAbsent(l, AfterOps(l, ops[..|ops| - 1]), ops[|ops| - 1], nonce);
    }
  }

  lemma {:induction false} EvictedEntries(maxSize: nat, s: State)
    ensures forall n | n in Evicted(maxSize, s).entries ::
              n in s.entries && Evicted(maxSize, s).entries[n] == s.entries[n]
    decreases |s.order|
  {
    if |s.entries| > maxSize && |s.order| > 0 {
      EvictedEntries(maxSize, State(s.entries - {s.order[0].nonce}, s.order[1..]));
    }
  }

  /** No entry outlives the last add of its nonce. */
  lemma {:induction false} ExpiryBound(l: Limits, ops: seq<Op>, nonce: Nonce, latest: Time)
    requires forall i | 0 <= i < |ops| && Adds(ops[i], nonce) :: ops[i].now <= latest
    ensures var s := AfterOps(l, ops); nonce in s.entries ==> s.entries[nonce] <= latest + l.ttl
  {
    if ops != [] {
      var init, last := ops[..|ops| - 1], ops[|ops| - 1];
      ExpiryBound(l, init, nonce, latest);
      if last.Add? {
        EvictedEntries(l.maxSize, Inserted(l, AfterOps(l, init), last.nonce, last.now));
      }
    }
  }

  /** A cleanup after a nonce has expired leaves nothing of it, until the nonce is added again. */
  lemma {:induction false} SweptAway(l: Limits, ops: seq<Op>, k: nat, nonce: Nonce, latest: Time)
    requires ClockAdvances(ops) && k < |ops| && Sweeps(l, ops[k], latest)
    requires forall i | 0 <= i < |ops| && Adds(ops[i], nonce) :: ops[i].now <= latest
    ensures Absent(AfterOps(l, ops), nonce)
    decreases |ops|
  {
    var init, last := ops[..|ops| - 1], ops[|ops| - 1];
    var s := AfterOps(l, init);
    if k == |ops| - 1 {
      ExpiryBound(l, init, nonce, latest);
      CompactedFrom(s.order, Unexpired(s.entries, last.now));
    } else {
      assert ops[k].now <= last.now;
      SweptAway(l, init, k, nonce, latest);
      StaysAbsent(l, s, last, nonce);
    }
  }

  lemma {:induction false} LogTimes(l: Limits, ops: seq<Op>, nonce: Nonce, now: Time)
    requires forall k | 0 <= k < |ops| && Adds(ops[k], nonce) :: ops[k].now + l.ttl < now
    ensures forall i | 0 <= i < |LogOf(ops)| && LogOf(ops)[i].nonce == nonce :: LogOf(ops)[i].time + l.ttl < now
  {
    if ops != [] {
      LogTimes(l, ops[..|ops| - 1], nonce, now);
    }
  }

  lemma {:induction false} LastAdd(ops: seq<Op>, nonce: Nonce) returns (i: nat)
    requires exists k :: 0 <= k < |ops| && Adds(ops[k], nonce)
    ensures i < |ops| && Adds(ops[i], nonce)
    ensures forall k | 0 <= k < |ops| && Adds(ops[k], nonce) :: k <= i
    decreases |ops|
  {
    i := |ops| - 1;
    if !Adds(ops[i], nonce) {
      i := LastAdd(ops[..i], nonce);
    }
  }

  /** The last add of a nonce before it is added again, and the cleanup in between. */
  lemma SweepBefore(l: Limits, ops: seq<Op>, i: nat, nonce: Nonce, now: Time) returns (sweep: nat)
    requires CleanedBetween(l, ops + [Add(nonce, now)]) && i < |ops| && Adds(ops[i], nonce)
    ensures i < sweep < |ops| && Sweeps(l, ops[sweep], ops[i].now)
  {
    var all := ops + [Add(nonce, now)];
    assert all[i] == ops[i] && all[i].Add? && Adds(all[|ops|], all[i].nonce);
    sweep :| i < sweep < |ops| && Sweeps(l, all[sweep], all[i].now);
  }

  lemma ClockAt(ops: seq<Op>, op: Op, k: nat)
    requires ClockAdvances(ops + [op]) && k < |ops|
    ensures ClockAdvances(ops) && ops[k].now <= op.now
  {
    var all := ops + [op];
    assert all[k] == ops[k] && all[|ops|] == op;
    assert forall i | 0 <= i < |ops| :: all[i] == ops[i];
  }

  /** What a cleanup between two adds is for. */
  lemma GoneBefore(l: Limits, ops: seq<Op>, nonce: Nonce, now: Time)
    requires ClockAdvances(ops + [Add(nonce, now)]) && CleanedBetween(l, ops + [Add(nonce, now)])
    ensures Gone(l, AfterOps(l, ops), LogOf(ops), nonce, now)
  {
    hide CleanedBetween, AfterOps, LogOf, Absent;
    if k: nat :| k < |ops| && Adds(ops[k], nonce) {
      var i := LastAdd(ops, nonce);
      var sweep := SweepBefore(l, ops, i, nonce, now);
      ClockAt(ops, Add(nonce, now), sweep);
      SweptAway(l, ops, sweep, nonce, ops[i].now);
    } else {
      NeverAdded(l, ops, nonce);
    }
    LogTimes(l, ops, nonce, now);
  }

  lemma PrefixCleaned(l: Limits, ops: seq<Op>, n: nat)
    requires ClockAdvances(ops) && CleanedBetween(l, ops) && n <= |ops|
    ensures ClockAdvances(ops[..n]) && CleanedBetween(l, ops[..n])
  {
    var init := ops[..n];
    forall i, j | 0 <= i < j < |init| && init[i].Add? && Adds(init[j], init[i].nonce)
      ensures exists k :: i < k < j && Sweeps(l, init[k], init[i].now)
    {
      assert ops[i].Add? && Adds(ops[j], ops[i].nonce);
      var k :| i < k < j && Sweeps(l, ops[k], ops[i].now);
      assert Sweeps(l, init[k], init[i].now);
    }
  }

  lemma LastTracks(l: Limits, init: seq<Op>, last: Op)
    requires ClockAdvances(init + [last]) && CleanedBetween(l, init + [last])
    requires Represents(l, AfterOps(l, init), LogOf(init), last.now)
    ensures Represents(l, AfterOps(l, init + [last]), LogOf(init + [last]), last.now)
  {
    hide Represents, CleanedBetween, ClockAdvances;
    var s, log := AfterOps(l, init), LogOf(init);
    OneMore(l, init, last);
    match last {
      case Has(nonce, t) => HasTracks(l, s, log, t, nonce, t);
      case Cleanup(t) => CleanupTracks(l, s, log, t, t);
      case Add(nonce, t) =>
        GoneBefore(l, init, nonce, t);
        AddTracks(l, s, log, t, nonce, t);
    }
  }

  lemma {:induction false} RunRepresents(l: Limits, ops: seq<Op>, now: Time)
    requires ClockAdvances(ops) && CleanedBetween(l, ops)
    requires ops != [] ==> ops[|ops| - 1].now <= now
    ensures Represents(l, AfterOps(l, ops), LogOf(ops), now)
  {
    hide Represents, CleanedBetween;
    if ops == [] {
      EmptyTracks(l, now);
    } else {
      var init, last := ops[..|ops| - 1], ops[|ops| - 1];
      PrefixCleaned(l, ops, |init|);
      RunRepresents(l, init, last.now);
      assert ops == init + [last];
      LastTracks(l, init, last);
      LaterRepresents(l, AfterOps(l, ops), LogOf(ops), last.now, now);
    }
  }

  /** The structure of the cache after any run on an advancing clock, nonces added twice included. */
  lemma {:induction false} RunStructured(l: Limits, ops: seq<Op>, now: Time)
    requires ClockAdvances(ops)
    requires ops != [] ==> ops[|ops| - 1].now <= now
    ensures Structured(AfterOps(l, ops), now + l.ttl)
    ensures |AfterOps(l, ops).entries| <= l.maxSize
  {
    if ops != [] {
      var init, last := ops[..|ops| - 1], ops[|ops| - 1];
      RunStructured(l, init, last.now);
      var s := AfterOps(l, init);
      match last {
        case Has(nonce, t) =>
          StructuredHas(s, t + l.ttl, nonce, t);
          SubsetSize(AfterHas(s, nonce, t).entries.Keys, s.entries.Keys);
        case Cleanup(t) =>
          StructuredCleanup(s, t + l.ttl, t);
          SubsetSize(AfterCleanup(s, t).entries.Keys, s.entries.Keys);
        case Add(nonce, t) => StructuredAdd(l, s, t + l.ttl, nonce, t);
      }
    }
  }

  /** Lookups after the run get the history's answer: has(n) at time t is true exactly when n was added at
      some t0 with t <= t0 + ttl and fewer than maxSize adds followed. */
  ghost predicate Refines(l: Limits, ops: seq<Op>) {
    forall nonce, now | ClockAdvances(ops + [Has(nonce, now)]) ::
      HasAnswer(AfterOps(l, ops), nonce, now) <==> Remembered(l, LogOf(ops), nonce, now)
  }

  lemma RefinedAnswer(l: Limits, ops: seq<Op>, nonce: Nonce, now: Time)
    requires ClockAdvances(ops + [Has(nonce, now)]) && CleanedBetween(l, ops)
    ensures HasAnswer(AfterOps(l, ops), nonce, now) <==> Remembered(l, LogOf(ops), nonce, now)
  {
    var all := ops + [Has(nonce, now)];
    assert forall i | 0 <= i < |ops| :: all[i] == ops[i] && all[|ops|].now == now;
    RunRepresents(l, ops, now);
    HasIsHistory(l, AfterOps(l, ops), LogOf(ops), now, nonce, now);
  }

  /** The refinement: in every run that adds a nonce again only after a cleanup has followed its expiry,
      wherever the lookups, their lazy deletions and the other cleanup passes fall. */
  lemma CacheRefinesHistory(l: Limits, ops: seq<Op>)
    requires ClockAdvances(ops) && CleanedBetween(l, ops)
    ensures Refines(l, ops)
  {
    forall nonce, now | ClockAdvances(ops + [Has(nonce, now)])
      ensures HasAnswer(AfterOps(l, ops), nonce, now) <==> Remembered(l, LogOf(ops), nonce, now)
    {
      RefinedAnswer(l, ops, nonce, now);
    }
  }

  lemma OneMore(l: Limits, ops: seq<Op>, op: Op)
    ensures AfterOps(l, ops + [op]) == Performed(l, AfterOps(l, ops), op)
    ensures LogOf(ops + [op]) == if op.Add? then LogOf(ops) + [Added(op.nonce, op.now)] else LogOf(ops)
  {
    assert (ops + [op])[..|ops|] == ops;
  }

  /** An add that leaves the map within its size evicts nothing. */
  lemma AddWithin(l: Limits, s: State, nonce: Nonce, now: Time)
    requires |s.entries[nonce := now + l.ttl]| <= l.maxSize
    ensures AfterAdd(l, s, nonce, now) == Inserted(l, s, nonce, now)
  {
  }

  // ---------------------------------------------------------------- nonces added again

  function AddCount(ops: seq<Op>, nonce: Nonce): nat {
    if ops == [] then 0
    else AddCount(ops[..|ops| - 1], nonce) + if Adds(ops[|ops| - 1], nonce) then 1 else 0
  }

  ghost predicate AddsAtMost(k: nat, ops: seq<Op>) {
    forall nonce :: AddCount(ops, nonce) <= k
  }

  lemma LogOneMore(ops: seq<Op>, op: Op)
    ensures LogOf(ops + [op]) == if op.Add? then LogOf(ops) + [Added(op.nonce, op.now)] else LogOf(ops)
  {
    assert (ops + [op])[..|ops|] == ops;
  }

  lemma CountOneMore(ops: seq<Op>, op: Op, nonce: Nonce)
    ensures AddCount(ops + [op], nonce) == AddCount(ops, nonce) + if Adds(op, nonce) then 1 else 0
  {
    assert (ops + [op])[..|ops|] == ops;
  }

  lemma {:induction false} CountAtLeast(ops: seq<Op>, i: nat, nonce: Nonce)
    requires i < |ops| && Adds(ops[i], nonce)
    ensures AddCount(ops, nonce) >= 1 + AddCount(ops[..i], nonce)
    decreases |ops|
  {
    if i < |ops| - 1 {
      CountAtLeast(ops[..|ops| - 1], i, nonce);
      assert ops[..|ops| - 1][..i] == ops[..i];
    }
  }

  lemma AddedOnce(l: Limits, ops: seq<Op>)
    requires AddsAtMost(1, ops)
    ensures CleanedBetween(l, ops)
  {
    forall i, j | 0 <= i < j < |ops| && ops[i].Add?
      ensures !Adds(ops[j], ops[i].nonce)
    {
      if Adds(ops[j], ops[i].nonce) {
        CountAtLeast(ops, j, ops[i].nonce);
        CountAtLeast(ops[..j], i, ops[i].nonce);
        assert false;
      }
    }
  }

  /** The adds of a run, of whatever nonces. */
  function AllAdds(ops: seq<Op>): nat {
    if ops == [] then 0 else AllAdds(ops[..|ops| - 1]) + if ops[|ops| - 1].Add? then 1 else 0
  }

  lemma {:induction false} LogSplits(front: seq<Op>, back: seq<Op>)
    ensures LogOf(front + back) == LogOf(front) + LogOf(back) && |LogOf(back)| == AllAdds(back)
    ensures forall nonce :: AddCount(front + back, nonce) == AddCount(front, nonce) + AddCount(back, nonce)
    decreases |back|
  {
    if back == [] {
      assert front + back == front;
    } else {
      var init, last := back[..|back| - 1], back[|back| - 1];
      LogSplits(front, init);
      assert front + back == (front + init) + [last] && back == init + [last];
      LogOneMore(front + init, last);
      forall nonce
        ensures AddCount(front + back, nonce) == AddCount(front, nonce) + AddCount(back, nonce)
      {
        CountOneMore(front + init, last, nonce);
      }
      if last.Add? {
        Regroup(LogOf(front), LogOf(init), [Added(last.nonce, last.now)]);
      }
    }
  }

  lemma {:induction false} CountedInLog(ops: seq<Op>, nonce: Nonce)
    requires AddCount(ops, nonce) == 0
    ensures forall i | 0 <= i < |LogOf(ops)| :: LogOf(ops)[i].nonce != nonce
  {
    if ops != [] {
      CountedInLog(ops[..|ops| - 1], nonce);
    }
  }

  /** The run of one add, with what comes before and after it. */
  function Around(before: seq<Op>, nonce: Nonce, t: Time, after: seq<Op>): seq<Op> {
    before + [Add(nonce, t)] + after
  }

  lemma AroundLog(before: seq<Op>, nonce: Nonce, t: Time, after: seq<Op>)
    requires AddsAtMost(1, Around(before, nonce, t, after))
    ensures LogOf(Around(before, nonce, t, after)) == LogOf(before) + [Added(nonce, t)] + LogOf(after)
    ensures |LogOf(after)| == AllAdds(after)
    ensures forall i | 0 <= i < |LogOf(before)| :: LogOf(before)[i].nonce != nonce
    ensures forall i | 0 <= i < |LogOf(after)| :: LogOf(after)[i].nonce != nonce
  {
    hide LogOf;
    var op := Add(nonce, t);
    LogSplits(before + [op], after);
    LogOneMore(before, op);
    CountOneMore(before, op, nonce);
    assert AddCount(Around(before, nonce, t, after), nonce) <= 1;
    CountedInLog(before, nonce);
    CountedInLog(after, nonce);
  }

  /** In a log that holds a nonce once, it is remembered exactly within its lifetime and behind fewer than
      maxSize adds. */
  lemma RememberedOnce(l: Limits, front: Log, x: Added, back: Log, now: Time)
    requires forall i | 0 <= i < |front| :: front[i].nonce != x.nonce
    requires forall i | 0 <= i < |back| :: back[i].nonce != x.nonce
    ensures Remembered(l, front + [x] + back, x.nonce, now) <==> now <= x.time + l.ttl && |back| < l.maxSize
  {
    var log, p := front + [x] + back, |front|;
    assert log[p] == x;
    forall i | 0 <= i < |log| && i != p
      ensures log[i].nonce != x.nonce
    {
      assert log[i] == if i < p then front[i] else back[i - p - 1];
    }
    if now <= x.time + l.ttl && |back| < l.maxSize {
      assert RememberedAt(l, log, p, x.nonce, now);
    }
  }

  /** How long a cache remembers: over every run that adds each nonce at most once, a lookup after the add of
      a nonce finds it exactly within its lifetime and behind fewer than maxSize further adds. */
  lemma RememberedFor(l: Limits, before: seq<Op>, nonce: Nonce, t: Time, after: seq<Op>, now: Time)
    requires ClockAdvances(Around(before, nonce, t, after) + [Has(nonce, now)])
    requires AddsAtMost(1, Around(before, nonce, t, after))
    ensures HasAnswer(AfterOps(l, Around(before, nonce, t, after)), nonce, now)
            <==> now <= t + l.ttl && AllAdds(after) < l.maxSize
  {
    hide LogOf, AfterOps, Around, ClockAdvances, AddsAtMost, CleanedBetween, Remembered, HasAnswer;
    var ops := Around(before, nonce, t, after);
    AddedOnce(l, ops);
    RefinedAnswer(l, ops, nonce, now);
    AroundLog(before, nonce, t, after);
    RememberedOnce(l, LogOf(before), Added(nonce, t), LogOf(after), now);
  }

  /** The i-th of the nonces that fill the map. */
  function Filler(i: nat): Nonce {
    seq(i + 1, _ => 'x')
  }

  /** "n" added and found expired; then i other nonces added, all at that instant. */
  function Filling(l: Limits, i: nat): seq<Op> {
    if i == 0 then [Add("n", 0), Has("n", l.ttl + 1)]
    else Filling(l, i - 1) + [Add(Filler(i - 1), l.ttl + 1)]
  }

  /** "n" is listed first though it is not in the map, which holds i of the other nonces. */
  ghost predicate Stale(l: Limits, s: State, i: nat) {
    && |s.entries| == i && |s.order| > 0 && s.order[0] == Item("n", l.ttl)
    && forall n | n in s.entries :: 0 < |n| <= i && n[0] == 'x'
  }

  lemma StaleFirst(l: Limits)
    requires l.maxSize > 0
    ensures Stale(l, AfterOps(l, Filling(l, 0)), 0)
  {
    OneMore(l, [], Add("n", 0));
    OneMore(l, [Add("n", 0)], Has("n", l.ttl + 1));
    assert [] + [Add("n", 0)] == [Add("n", 0)];
    assert [Add("n", 0)] + [Has("n", l.ttl + 1)] == Filling(l, 0);
    AddWithin(l, EMPTY, "n", 0);
    assert AfterAdd(l, EMPTY, "n", 0) == State(map["n" := l.ttl], [Item("n", l.ttl)]);
  }

  lemma StaleStep(l: Limits, s: State, i: nat)
    requires Stale(l, s, i) && i < l.maxSize
    ensures Stale(l, AfterAdd(l, s, Filler(i), l.ttl + 1), i + 1)
  {
    var n, now := Filler(i), l.ttl + 1;
    assert |n| == i + 1 && n[0] == 'x';
    assert s.entries[n := now + l.ttl].Keys == s.entries.Keys + {n};
    AddWithin(l, s, n, now);
  }

  lemma {:induction false} FillingState(l: Limits, i: nat)
    requires l.maxSize > 0 && i <= l.maxSize
    ensures Stale(l, AfterOps(l, Filling(l, i)), i)
  {
    if i == 0 {
      StaleFirst(l);
    } else {
      hide AfterOps, AfterAdd, Stale, Filler;
      FillingState(l, i - 1);
      OneMore(l, Filling(l, i - 1), Add(Filler(i - 1), l.ttl + 1));
      StaleStep(l, AfterOps(l, Filling(l, i - 1)), i - 1);
    }
  }

  lemma {:induction false} FillingClock(l: Limits, i: nat)
    ensures ClockAdvances(Filling(l, i))
    ensures forall k | 0 <= k < |Filling(l, i)| :: Filling(l, i)[k].now <= l.ttl + 1
  {
    if i > 0 {
      FillingClock(l, i - 1);
    }
  }

  lemma {:induction false} FillingCount(l: Limits, i: nat, nonce: Nonce)
    ensures AddCount(Filling(l, i), nonce) <= 1
    ensures |nonce| > i && nonce != "n" ==> AddCount(Filling(l, i), nonce) == 0
  {
    if i == 0 {
      CountOneMore([Add("n", 0)], Has("n", l.ttl + 1), nonce);
      CountOneMore([], Add("n", 0), nonce);
      assert [Add("n", 0)] + [Has("n", l.ttl + 1)] == Filling(l, 0);
      assert [] + [Add("n", 0)] == [Add("n", 0)];
    } else {
      FillingCount(l, i - 1, nonce);
      CountOneMore(Filling(l, i - 1), Add(Filler(i - 1), l.ttl + 1), nonce);
      assert |Filler(i - 1)| == i && Filler(i - 1)[0] == 'x';
    }
  }

  function Refilled(l: Limits): seq<Op> {
    Filling(l, l.maxSize) + [Add("n", l.ttl + 1)]
  }

  /** The add that overflows a full map pops the stale item of its own nonce. */
  lemma StaleItemPopped(l: Limits, s: State, nonce: Nonce, now: Time)
    requires |s.entries| == l.maxSize && nonce !in s.entries && |s.order| > 0 && s.order[0].nonce == nonce
    ensures nonce !in AfterAdd(l, s, nonce, now).entries
  {
    var full := Inserted(l, s, nonce, now);
    assert full.entries.Keys == s.entries.Keys + {nonce};
    assert full.order[0].nonce == nonce;
    var left := State(full.entries - {nonce}, full.order[1..]);
    assert left.entries.Keys == s.entries.Keys;
    assert Evicted(l.maxSize, full) == Evicted(l.maxSize, left) == left;
  }

  lemma RefilledRun(l: Limits)
    ensures ClockAdvances(Refilled(l)) && ClockAdvances(Refilled(l) + [Has("n", l.ttl + 1)])
    ensures AddsAtMost(2, Refilled(l))
  {
    FillingClock(l, l.maxSize);
    forall nonce
      ensures AddCount(Refilled(l), nonce) <= 2
    {
      FillingCount(l, l.maxSize, nonce);
      CountOneMore(Filling(l, l.maxSize), Add("n", l.ttl + 1), nonce);
    }
  }

  /** Why a nonce must not be added again without a cleanup: whatever the cache's size and lifetime, its
      stale first item, popped later, takes the live entry along. In this run "n" is forgotten by the very
      add that should remember it. */
  lemma ReaddForgottenAtOnce(l: Limits)
    requires l.maxSize > 0
    ensures ClockAdvances(Refilled(l) + [Has("n", l.ttl + 1)]) && AddsAtMost(2, Refilled(l))
    ensures Remembered(l, LogOf(Refilled(l)), "n", l.ttl + 1)
    ensures !HasAnswer(AfterOps(l, Refilled(l)), "n", l.ttl + 1)
  {
    hide AfterOps, LogOf, AfterAdd, ClockAdvances, AddsAtMost, Filling;
    var front, now := Filling(l, l.maxSize), l.ttl + 1;
    RefilledRun(l);
    FillingState(l, l.maxSize);
    OneMore(l, front, Add("n", now));
    StaleItemPopped(l, AfterOps(l, front), "n", now);
    assert RememberedAt(l, LogOf(front) + [Added("n", now)], |LogOf(front)|, "n", now);
  }

  lemma NothingToForget(l: Limits, ops: seq<Op>)
    requires l.maxSize == 0 && ClockAdvances(ops)
    ensures Refines(l, ops)
  {
    RunStructured(l, ops, if ops == [] then 0 else ops[|ops| - 1].now);
    assert AfterOps(l, ops).entries.Keys == {};
  }

  /** How often a nonce may be added, exactly: every run on an advancing clock that adds each nonce at most
      k times refines the history if and only if k is at most 1, or the cache holds nothing anyway. */
  lemma RefinesExactly(l: Limits, k: nat)
    ensures (forall ops | ClockAdvances(ops) && AddsAtMost(k, ops) :: Refines(l, ops))
            <==> k <= 1 || l.maxSize == 0
  {
    if k <= 1 || l.maxSize == 0 {
      forall ops | ClockAdvances(ops) && AddsAtMost(k, ops)
        ensures Refines(l, ops)
      {
        if l.maxSize == 0 {
          NothingToForget(l, ops);
        } else {
          assert AddsAtMost(1, ops);
          AddedOnce(l, ops);
          CacheRefinesHistory(l, ops);
        }
      }
    } else {
      var ops := Refilled(l);
      ReaddForgottenAtOnce(l);
      RefilledRun(l);
      assert AddsAtMost(k, ops) && !Refines(l, ops);
    }
  }
}
