/** The nonce cache refines a plain history of adds, as long as a nonce is added again only after a cleanup. */
module CacheRefinement {
  import opened Bytes
  import opened NonceCache

  datatype Added = Added(nonce: Nonce, time: Time)

  type Log = seq<Added>

  /** The history's answer: the nonce was added, its lifetime has not passed, and fewer than maxSize adds
      followed. */
  ghost predicate Remembered(l: Limits, log: Log, nonce: Nonce, now: Time) {
    exists i :: RememberedAt(l, log, i, nonce, now)
  }

  predicate RememberedAt(l: Limits, log: Log, i: int, nonce: Nonce, now: Time) {
    0 <= i < |log| && log[i].nonce == nonce && now <= log[i].time + l.ttl && |log| - 1 - i < l.maxSize
  }

  /** at gives each nonce of the log its last position. */
  ghost predicate Indexed(log: Log, at: map<Nonce, nat>) {
    && (forall i | 0 <= i < |log| :: log[i].nonce in at && i <= at[log[i].nonce])
    && (forall n | n in at :: at[n] < |log| && log[at[n]].nonce == n)
  }

  /** A nonce was added again only after its earlier add had expired. */
  predicate Renewed(l: Limits, log: Log) {
    forall i, j | 0 <= i < j < |log| && log[i].nonce == log[j].nonce :: log[i].time + l.ttl < log[j].time
  }

  ghost predicate Chronological(log: Log, now: Time) {
    && (forall i, j | 0 <= i < j < |log| :: log[i].time <= log[j].time)
    && (forall i | 0 <= i < |log| :: log[i].time <= now)
  }

  /** The order list is a subsequence of the log from the frontier on, with the matching expiries. */
  ghost predicate Ordered(l: Limits, order: seq<Item>, log: Log, at: map<Nonce, nat>, frontier: nat) {
    && (forall k | 0 <= k < |order| :: Matches(l, order[k], log, at, frontier))
    && (forall j, k | 0 <= j < k < |order| :: at[order[j].nonce] < at[order[k].nonce])
  }

  predicate Matches(l: Limits, e: Item, log: Log, at: map<Nonce, nat>, frontier: nat) {
    && e.nonce in at && frontier <= at[e.nonce] < |log|
    && e.expiresAt == log[at[e.nonce]].time + l.ttl
  }

  /** Every entry of the map is a log entry behind the frontier, still listed in order. */
  ghost predicate Backed(l: Limits, s: State, log: Log, at: map<Nonce, nat>, frontier: nat) {
    forall n | n in s.entries ::
      Matches(l, Item(n, s.entries[n]), log, at, frontier) && LastExpiry(s.order, n).Some?
  }

  /** Every log entry from the frontier on that has not expired is in the map. */
  ghost predicate Complete(l: Limits, s: State, log: Log, now: Time, frontier: nat) {
    forall i | frontier <= i < |log| :: now <= log[i].time + l.ttl ==> log[i].nonce in s.entries
  }

  /** How cache and log correspond: what lies before the frontier has been evicted, or had expired by the
      time its item went, and then at least maxSize adds have followed it. */
  ghost predicate Tracks(l: Limits, s: State, log: Log, at: map<Nonce, nat>, now: Time, frontier: nat) {
    && Indexed(log, at) && Renewed(l, log) && Chronological(log, now)
    && Ordered(l, s.order, log, at, frontier)
    && Backed(l, s, log, at, frontier)
    && Complete(l, s, log, now, frontier)
    && frontier <= |log|
    && (frontier == 0 || |log| - frontier >= l.maxSize)
  }

  ghost predicate Represents(l: Limits, s: State, log: Log, now: Time) {
    && |s.entries| <= l.maxSize
    && exists at: map<Nonce, nat>, frontier: nat :: Tracks(l, s, log, at, now, frontier)
  }

  // ---------------------------------------------------------------- counting

  function Behind(at: map<Nonce, nat>, i: nat): set<Nonce> {
    set n | n in at && at[n] >= i
  }

  lemma {:induction false} BehindSize(log: Log, at: map<Nonce, nat>, i: nat)
    requires i <= |log| && Indexed(log, at)
    ensures |Behind(at, i)| <= |log| - i
    ensures (forall j | i <= j < |log| :: at[log[j].nonce] == j) ==> |Behind(at, i)| == |log| - i
    decreases |log| - i
  {
    if i == |log| {
      assert Behind(at, i) == {};
    } else {
      BehindSize(log, at, i + 1);
      if at[log[i].nonce] == i {
        assert Behind(at, i) == {log[i].nonce} + Behind(at, i + 1);
      } else {
        assert Behind(at, i) == Behind(at, i + 1);
      }
    }
  }

  lemma SubsetSize<T>(a: set<T>, b: set<T>)
    requires a <= b
    ensures |a| <= |b|
    decreases |a|
  {
    if a != {} {
      var x :| x in a;
      SubsetSize(a - {x}, b - {x});
    }
  }

  // ---------------------------------------------------------------- the answer

  /** An add that has not expired is the last one of its nonce. */
  lemma LastIfUnexpired(l: Limits, log: Log, at: map<Nonce, nat>, i: nat, earlier: Time, now: Time)
    requires Indexed(log, at) && Renewed(l, log) && Chronological(log, earlier) && earlier <= now
    requires i < |log| && now <= log[i].time + l.ttl
    ensures at[log[i].nonce] == i
  {
    var last := at[log[i].nonce];
    assert log[last].nonce == log[i].nonce;
  }

  /** From an unexpired add on, every add is the last of its nonce. */
  lemma BehindUnexpired(l: Limits, log: Log, at: map<Nonce, nat>, i: nat, earlier: Time, now: Time)
    requires Indexed(log, at) && Renewed(l, log) && Chronological(log, earlier) && earlier <= now
    requires i < |log| && now <= log[i].time + l.ttl
    ensures |Behind(at, i)| == |log| - i
  {
    forall j | i <= j < |log|
      ensures at[log[j].nonce] == j
    {
      assert log[i].time <= log[j].time;
      LastIfUnexpired(l, log, at, j, earlier, now);
    }
    BehindSize(log, at, i);
  }

  lemma BehindInMap(l: Limits, s: State, log: Log, at: map<Nonce, nat>, earlier: Time, frontier: nat, i: nat)
    requires Indexed(log, at) && Chronological(log, earlier) && Complete(l, s, log, earlier, frontier)
    requires frontier <= i < |log| && earlier <= log[i].time + l.ttl
    ensures Behind(at, i) <= s.entries.Keys
  {
    forall n | n in Behind(at, i)
      ensures n in s.entries
    {
      assert log[i].time <= log[at[n]].time;
    }
  }

  lemma AnswerIsRemembered(l: Limits, s: State, log: Log, at: map<Nonce, nat>, earlier: Time, frontier: nat,
                           nonce: Nonce, now: Time)
    requires Tracks(l, s, log, at, earlier, frontier) && |s.entries| <= l.maxSize && earlier <= now
    requires HasAnswer(s, nonce, now)
    ensures RememberedAt(l, log, at[nonce], nonce, now)
  {
    hide Renewed, Chronological, Complete, Ordered;
    assert Matches(l, Item(nonce, s.entries[nonce]), log, at, frontier);
    var i := at[nonce];
    BehindUnexpired(l, log, at, i, earlier, now);
    BehindInMap(l, s, log, at, earlier, frontier, i);
    SubsetSize(Behind(at, i), s.entries.Keys);
  }

  /** In every state that represents a log, has answers exactly what the log says. */
  lemma HasIsHistory(l: Limits, s: State, log: Log, earlier: Time, nonce: Nonce, now: Time)
    requires Represents(l, s, log, earlier) && earlier <= now
    ensures HasAnswer(s, nonce, now) <==> Remembered(l, log, nonce, now)
  {
    var at: map<Nonce, nat>, frontier: nat :| Tracks(l, s, log, at, earlier, frontier);
    if HasAnswer(s, nonce, now) {
      AnswerIsRemembered(l, s, log, at, earlier, frontier, nonce, now);
    }
    if Remembered(l, log, nonce, now) {
      var i :| RememberedAt(l, log, i, nonce, now);
      assert frontier <= i;
      LastIfUnexpired(l, log, at, i, earlier, now);
      assert Matches(l, Item(nonce, s.entries[nonce]), log, at, frontier);
    }
  }

  // ---------------------------------------------------------------- the operations

  lemma HasTracks(l: Limits, s: State, log: Log, earlier: Time, nonce: Nonce, now: Time)
    requires Represents(l, s, log, earlier) && earlier <= now
    ensures Represents(l, AfterHas(s, nonce, now), log, now)
  {
    hide Tracks;
    var at: map<Nonce, nat>, frontier: nat :| Tracks(l, s, log, at, earlier, frontier);
    LookedUp(l, s, log, at, earlier, frontier, nonce, now);
  }

  lemma LookedUp(l: Limits, s: State, log: Log, at: map<Nonce, nat>, earlier: Time, frontier: nat,
                 nonce: Nonce, now: Time)
    requires Tracks(l, s, log, at, earlier, frontier) && |s.entries| <= l.maxSize && earlier <= now
    ensures Represents(l, AfterHas(s, nonce, now), log, now)
  {
    hide Represents, Indexed, Renewed, Chronological, Complete, Ordered, Matches, LastExpiry;
    Dropped(l, s, AfterHas(s, nonce, now), log, at, earlier, frontier, now);
  }

  lemma CleanupTracks(l: Limits, s: State, log: Log, earlier: Time, now: Time)
    requires Represents(l, s, log, earlier) && earlier <= now
    ensures Represents(l, AfterCleanup(s, now), log, now)
  {
    hide Tracks;
    var at: map<Nonce, nat>, frontier: nat :| Tracks(l, s, log, at, earlier, frontier);
    CleanedUp(l, s, log, at, earlier, frontier, now);
  }

  lemma CleanedUp(l: Limits, s: State, log: Log, at: map<Nonce, nat>, earlier: Time, frontier: nat, now: Time)
    requires Tracks(l, s, log, at, earlier, frontier) && |s.entries| <= l.maxSize && earlier <= now
    ensures Represents(l, AfterCleanup(s, now), log, now)
  {
    hide Represents, Indexed, Renewed, Chronological, Complete, Ordered, Matches, LastExpiry;
    var after := AfterCleanup(s, now);
    CompactedOrder(l, s.order, after.entries, log, at, frontier);
    forall n | n in after.entries
      ensures LastExpiry(after.order, n).Some?
    {
      LastExpiryCompacted(s.order, after.entries, n);
    }
    Dropped(l, s, after, log, at, earlier, frontier, now);
  }

  /** Dropping expired entries, and items without an entry, loses nothing. */
  lemma Dropped(l: Limits, s: State, after: State, log: Log, at: map<Nonce, nat>, earlier: Time, frontier: nat,
                now: Time)
    requires Tracks(l, s, log, at, earlier, frontier) && |s.entries| <= l.maxSize && earlier <= now
    requires DropsExpired(s.entries, after.entries, now)
    requires forall n | n in after.entries :: LastExpiry(after.order, n).Some?
    requires Ordered(l, after.order, log, at, frontier)
    ensures Represents(l, after, log, now)
  {
    hide Indexed, Renewed, Ordered, LastExpiry, Complete, Backed, Matches;
    SubsetSize(after.entries.Keys, s.entries.Keys);
    DroppedBacked(l, s, after, log, at, frontier, now);
    DroppedComplete(l, s, after, log, at, earlier, frontier, now);
    assert Tracks(l, after, log, at, now, frontier);
  }

  predicate DropsExpired(before: map<Nonce, Time>, after: map<Nonce, Time>, now: Time) {
    && (forall n | n in after :: n in before && after[n] == before[n])
    && (forall n | n in before && now <= before[n] :: n in after)
  }

  lemma DroppedBacked(l: Limits, s: State, after: State, log: Log, at: map<Nonce, nat>, frontier: nat, now: Time)
    requires Backed(l, s, log, at, frontier) && DropsExpired(s.entries, after.entries, now)
    requires forall n | n in after.entries :: LastExpiry(after.order, n).Some?
    ensures Backed(l, after, log, at, frontier)
  {
    forall n | n in after.entries
      ensures Matches(l, Item(n, after.entries[n]), log, at, frontier)
    {
      assert Matches(l, Item(n, s.entries[n]), log, at, frontier);
    }
  }

  lemma DroppedComplete(l: Limits, s: State, after: State, log: Log, at: map<Nonce, nat>, earlier: Time,
                        frontier: nat, now: Time)
    requires Backed(l, s, log, at, frontier) && Complete(l, s, log, earlier, frontier) && earlier <= now
    requires Indexed(log, at) && Chronological(log, earlier) && DropsExpired(s.entries, after.entries, now)
    ensures Complete(l, after, log, now, frontier)
  {
    forall i | frontier <= i < |log| && now <= log[i].time + l.ttl
      ensures log[i].nonce in after.entries
    {
      var n := log[i].nonce;
      assert Matches(l, Item(n, s.entries[n]), log, at, frontier);
      assert log[i].time <= log[at[n]].time;
    }
  }

  lemma {:induction false} CompactedOrder(l: Limits, order: seq<Item>, entries: map<Nonce, Time>, log: Log,
                                          at: map<Nonce, nat>, frontier: nat)
    requires Ordered(l, order, log, at, frontier)
    ensures Ordered(l, Compacted(order, entries), log, at, frontier)
    ensures forall e | e in Compacted(order, entries) :: e in order
  {
    if order != [] {
      CompactedOrder(l, order[1..], entries, log, at, frontier);
      var rest, all := Compacted(order[1..], entries), Compacted(order, entries);
      if order[0].nonce in entries {
        assert all == [order[0]] + rest;
        forall j, k | 0 <= j < k < |all|
          ensures at[all[j].nonce] < at[all[k].nonce]
        {
          assert all[k] == rest[k - 1] && rest[k - 1] in order[1..];
          if j > 0 {
            assert all[j] == rest[j - 1];
          }
        }
      } else {
        assert all == rest;
      }
    }
  }

  lemma {:induction false} ListedAt(order: seq<Item>, n: Nonce) returns (k: nat)
    requires LastExpiry(order, n).Some?
    ensures k < |order| && order[k].nonce == n
    decreases |order|
  {
    if LastExpiry(order[1..], n).Some? {
      k := ListedAt(order[1..], n);
      k := k + 1;
    } else {
      k := 0;
    }
  }

  lemma EntriesBounded(l: Limits, s: State, log: Log, at: map<Nonce, nat>, frontier: nat)
    requires Indexed(log, at) && Backed(l, s, log, at, frontier) && frontier <= |log|
    ensures |s.entries| <= |log| - frontier
  {
    BehindSize(log, at, frontier);
    forall n | n in s.entries
      ensures n in Behind(at, frontier)
    {
      assert Matches(l, Item(n, s.entries[n]), log, at, frontier);
    }
    SubsetSize(s.entries.Keys, Behind(at, frontier));
  }

  lemma RemovedSize(entries: map<Nonce, Time>, n: Nonce)
    ensures |entries| - 1 <= |entries - {n}| <= |entries|
  {
    var smaller := entries - {n};
    assert smaller.Keys == entries.Keys - {n};
  }

  function FirstPopped(s: State): State
    requires s.order != []
  {
    State(s.entries - {s.order[0].nonce}, s.order[1..])
  }

  lemma PoppedOrdered(l: Limits, order: seq<Item>, log: Log, at: map<Nonce, nat>, frontier: nat)
    requires Ordered(l, order, log, at, frontier) && order != []
    ensures Matches(l, order[0], log, at, frontier)
    ensures Ordered(l, order[1..], log, at, at[order[0].nonce] + 1)
  {
    forall k | 0 <= k < |order[1..]|
      ensures Matches(l, order[1..][k], log, at, at[order[0].nonce] + 1)
    {
      assert order[1..][k] == order[k + 1];
      assert Matches(l, order[k + 1], log, at, frontier);
    }
  }

  lemma PoppedBacked(l: Limits, s: State, log: Log, at: map<Nonce, nat>, frontier: nat)
    requires Ordered(l, s.order, log, at, frontier) && Backed(l, s, log, at, frontier) && s.order != []
    ensures Backed(l, FirstPopped(s), log, at, at[s.order[0].nonce] + 1)
  {
    var after := FirstPopped(s);
    forall n | n in after.entries
      ensures Matches(l, Item(n, after.entries[n]), log, at, at[s.order[0].nonce] + 1)
      ensures LastExpiry(after.order, n).Some?
    {
      assert Matches(l, Item(n, s.entries[n]), log, at, frontier);
      var k := ListedAt(s.order, n);
      assert at[s.order[0].nonce] < at[s.order[k].nonce];
    }
  }

  lemma PoppedComplete(l: Limits, s: State, log: Log, at: map<Nonce, nat>, now: Time, frontier: nat, nonce: Nonce)
    requires Complete(l, s, log, now, frontier) && Indexed(log, at) && nonce in at && frontier <= at[nonce]
    ensures Complete(l, s.(entries := s.entries - {nonce}), log, now, at[nonce] + 1)
  {
  }

  /** One turn of the eviction loop moves the frontier behind the popped item. */
  lemma EvictStep(l: Limits, s: State, log: Log, at: map<Nonce, nat>, now: Time, frontier: nat) returns (next: nat)
    requires Tracks(l, s, log, at, now, frontier) && |s.entries| > l.maxSize && s.order != []
    ensures Tracks(l, FirstPopped(s), log, at, now, next)
  {
    hide Indexed, Renewed, Chronological, Ordered, Backed;
    var popped := s.order[0].nonce;
    PoppedOrdered(l, s.order, log, at, frontier);
    PoppedBacked(l, s, log, at, frontier);
    PoppedComplete(l, s, log, at, now, frontier, popped);
    next := at[popped] + 1;
    EntriesBounded(l, FirstPopped(s), log, at, next);
    RemovedSize(s.entries, popped);
  }

  lemma NothingListed(l: Limits, s: State, log: Log, at: map<Nonce, nat>, frontier: nat)
    requires Backed(l, s, log, at, frontier) && s.order == []
    ensures s.entries == map[]
  {
    assert forall n | n in s.entries :: LastExpiry(s.order, n) == None;
  }

  lemma {:induction false} EvictionTracks(l: Limits, s: State, log: Log, at: map<Nonce, nat>, now: Time, frontier: nat)
    requires Tracks(l, s, log, at, now, frontier)
    ensures Represents(l, Evicted(l.maxSize, s), log, now)
    decreases |s.order|
  {
    hide Indexed, Renewed, Chronological, Complete, Ordered, Backed;
    if s.order == [] {
      NothingListed(l, s, log, at, frontier);
    } else if |s.entries| > l.maxSize {
      var next := EvictStep(l, s, log, at, now, frontier);
      EvictionTracks(l, FirstPopped(s), log, at, now, next);
    }
  }

  /** Nothing is left of the nonce: its adds have expired, and neither map nor list mentions it. */
  ghost predicate Gone(l: Limits, s: State, log: Log, nonce: Nonce, now: Time) {
    && Absent(s, nonce)
    && (forall i | 0 <= i < |log| && log[i].nonce == nonce :: log[i].time + l.ttl < now)
  }

  predicate Absent(s: State, nonce: Nonce) {
    nonce !in s.entries && forall e | e in s.order :: e.nonce != nonce
  }

  lemma MatchesLonger(l: Limits, e: Item, log: Log, at: map<Nonce, nat>, frontier: nat, x: Added)
    requires Matches(l, e, log, at, frontier) && x.nonce != e.nonce
    ensures Matches(l, e, log + [x], at[x.nonce := |log|], frontier)
    ensures at[x.nonce := |log|][e.nonce] == at[e.nonce] < |log|
  {
  }

  lemma InsertOrdered(l: Limits, order: seq<Item>, log: Log, at: map<Nonce, nat>, frontier: nat, x: Added)
    requires Ordered(l, order, log, at, frontier) && frontier <= |log|
    requires forall e | e in order :: e.nonce != x.nonce
    ensures Ordered(l, order + [Item(x.nonce, x.time + l.ttl)], log + [x], at[x.nonce := |log|], frontier)
  {
    var longer := order + [Item(x.nonce, x.time + l.ttl)];
    forall k | 0 <= k < |longer|
      ensures Matches(l, longer[k], log + [x], at[x.nonce := |log|], frontier)
      ensures k < |order| ==> at[x.nonce := |log|][longer[k].nonce] == at[order[k].nonce] < |log|
    {
      if k < |order| {
        assert longer[k] == order[k];
        MatchesLonger(l, order[k], log, at, frontier, x);
      }
    }
  }

  lemma InsertIndexed(l: Limits, log: Log, at: map<Nonce, nat>, earlier: Time, x: Added)
    requires Indexed(log, at) && Renewed(l, log) && Chronological(log, earlier) && earlier <= x.time
    requires forall i | 0 <= i < |log| && log[i].nonce == x.nonce :: log[i].time + l.ttl < x.time
    ensures Indexed(log + [x], at[x.nonce := |log|]) && Chronological(log + [x], x.time)
    ensures Renewed(l, log + [x])
  {
  }

  lemma InsertComplete(l: Limits, s: State, log: Log, earlier: Time, frontier: nat, x: Added)
    requires Complete(l, s, log, earlier, frontier) && earlier <= x.time
    ensures Complete(l, Inserted(l, s, x.nonce, x.time), log + [x], x.time, frontier)
  {
  }

  lemma InsertBacked(l: Limits, s: State, log: Log, at: map<Nonce, nat>, frontier: nat, x: Added)
    requires Backed(l, s, log, at, frontier) && frontier <= |log|
    ensures Backed(l, Inserted(l, s, x.nonce, x.time), log + [x], at[x.nonce := |log|], frontier)
  {
    var inserted := Inserted(l, s, x.nonce, x.time);
    forall n | n in inserted.entries
      ensures Matches(l, Item(n, inserted.entries[n]), log + [x], at[x.nonce := |log|], frontier)
      ensures LastExpiry(inserted.order, n).Some?
    {
      LastExpiryAppend(s.order, Item(x.nonce, x.time + l.ttl), n);
      if n != x.nonce {
        MatchesLonger(l, Item(n, s.entries[n]), log, at, frontier, x);
      }
    }
  }

  /** Before any eviction, the new item is at the end of both the list and the log. */
  lemma InsertTracks(l: Limits, s: State, log: Log, at: map<Nonce, nat>, earlier: Time, frontier: nat, x: Added)
    requires Tracks(l, s, log, at, earlier, frontier) && earlier <= x.time && Gone(l, s, log, x.nonce, x.time)
    ensures Tracks(l, Inserted(l, s, x.nonce, x.time), log + [x], at[x.nonce := |log|], x.time, frontier)
  {
    hide Indexed, Renewed, Chronological, Backed, Complete, Ordered;
    assert frontier <= |log|;
    InsertOrdered(l, s.order, log, at, frontier, x);
    InsertBacked(l, s, log, at, frontier, x);
    InsertIndexed(l, log, at, earlier, x);
    InsertComplete(l, s, log, earlier, frontier, x);
  }

  lemma AddTracks(l: Limits, s: State, log: Log, earlier: Time, nonce: Nonce, now: Time)
    requires Represents(l, s, log, earlier) && earlier <= now
    requires Gone(l, s, log, nonce, now)
    ensures Represents(l, AfterAdd(l, s, nonce, now), log + [Added(nonce, now)], now)
  {
    var at: map<Nonce, nat>, frontier: nat :| Tracks(l, s, log, at, earlier, frontier);
    var x := Added(nonce, now);
    InsertTracks(l, s, log, at, earlier, frontier, x);
    EvictionTracks(l, Inserted(l, s, nonce, now), log + [x], at[nonce := |log|], now, frontier);
  }

  /** Nothing can be left of a nonce that the log does not mention. */
  lemma NeverLogged(l: Limits, s: State, log: Log, earlier: Time, nonce: Nonce, now: Time)
    requires Represents(l, s, log, earlier)
    requires forall i | 0 <= i < |log| :: log[i].nonce != nonce
    ensures Gone(l, s, log, nonce, now)
  {
    var at: map<Nonce, nat>, frontier: nat :| Tracks(l, s, log, at, earlier, frontier);
    assert nonce !in at;
    forall n | n in s.entries
      ensures n in at
    {
      assert Matches(l, Item(n, s.entries[n]), log, at, frontier);
    }
    forall e | e in s.order
      ensures e.nonce in at
    {
      var k :| 0 <= k < |s.order| && s.order[k] == e;
      assert Matches(l, s.order[k], log, at, frontier);
    }
  }

  lemma EmptyTracks(l: Limits, now: Time)
    ensures Represents(l, EMPTY, [], now)
  {
    assert Tracks(l, EMPTY, [], map[], now, 0);
  }

  lemma LaterRepresents(l: Limits, s: State, log: Log, earlier: Time, now: Time)
    requires Represents(l, s, log, earlier) && earlier <= now
    ensures Represents(l, s, log, now)
  {
    var at: map<Nonce, nat>, frontier: nat :| Tracks(l, s, log, at, earlier, frontier);
    assert Tracks(l, s, log, at, now, frontier);
  }
}
