/** The nonce cache of replay protection: a map with expiry, and a FIFO list that may hold stale items. */
module NonceCache {
  import opened Bytes

  /** Nanoseconds. */
  type Time = int

  type Nonce = string

  datatype Item = Item(nonce: Nonce, expiresAt: Time)

  datatype Limits = Limits(maxSize: nat, ttl: nat)

  datatype State = State(entries: map<Nonce, Time>, order: seq<Item>)

  const EMPTY := State(map[], [])

  // ---------------------------------------------------------------- the operations on values

  predicate HasAnswer(s: State, nonce: Nonce, now: Time) {
    nonce in s.entries && now <= s.entries[nonce]
  }

  /** has deletes the entry it finds expired. */
  function AfterHas(s: State, nonce: Nonce, now: Time): State {
    if nonce in s.entries && now > s.entries[nonce] then s.(entries := s.entries - {nonce}) else s
  }

  function Evicted(maxSize: nat, s: State): State
    decreases |s.order|
  {
    if |s.entries| > maxSize && |s.order| > 0 then
      Evicted(maxSize, State(s.entries - {s.order[0].nonce}, s.order[1..]))
    else s
  }

  function Inserted(l: Limits, s: State, nonce: Nonce, now: Time): State {
    State(s.entries[nonce := now + l.ttl], s.order + [Item(nonce, now + l.ttl)])
  }

  function AfterAdd(l: Limits, s: State, nonce: Nonce, now: Time): State {
    Evicted(l.maxSize, Inserted(l, s, nonce, now))
  }

  function Unexpired(entries: map<Nonce, Time>, now: Time): map<Nonce, Time> {
    map n | n in entries && now <= entries[n] :: entries[n]
  }

  function Compacted(order: seq<Item>, entries: map<Nonce, Time>): seq<Item> {
    if order == [] then []
    else (if order[0].nonce in entries then [order[0]] else []) + Compacted(order[1..], entries)
  }

  function AfterCleanup(s: State, now: Time): State {
    var entries := Unexpired(s.entries, now);
    State(entries, Compacted(s.order, entries))
  }

  // ---------------------------------------------------------------- the cache

  class Cache {
    var entries: map<Nonce, Time>
    var order: seq<Item>
    const limits: Limits

    constructor (limits: Limits)
      ensures Value() == EMPTY && this.limits == limits
    {
      this.limits := limits;
      entries := map[];
      order := [];
    }

    function Value(): State
      reads this
    {
      State(entries, order)
    }

    method Has(nonce: Nonce, now: Time) returns (found: bool)
      modifies this
      ensures found == HasAnswer(old(Value()), nonce, now)
      ensures Value() == AfterHas(old(Value()), nonce, now)
    {
      if nonce !in entries {
        return false;
      }
      if now > entries[nonce] {
        entries := entries - {nonce};
        return false;
      }
      return true;
    }

    method Add(nonce: Nonce, now: Time)
      modifies this
      ensures Value() == AfterAdd(limits, old(Value()), nonce, now)
    {
      var expiresAt := now + limits.ttl;
      entries := entries[nonce := expiresAt];
      order := order + [Item(nonce, expiresAt)];
      while |entries| > limits.maxSize && |order| > 0
        invariant Evicted(limits.maxSize, Value()) == AfterAdd(limits, old(Value()), nonce, now)
        decreases |order|
      {
        var oldest := order[0];
        order := order[1..];
        entries := entries - {oldest.nonce};
      }
    }

    /** One tick of the cleanup goroutine. */
    method Cleanup(now: Time)
      modifies this
      ensures Value() == AfterCleanup(old(Value()), now)
    {
      var todo := entries.Keys;
      while todo != {}
        invariant todo <= entries.Keys <= old(entries).Keys
        invariant forall n | n in entries :: entries[n] == old(entries)[n]
        invariant forall n | n in old(entries) && n !in todo ::
                    n in entries <==> now <= old(entries)[n]
        invariant order == old(order)
        decreases todo
      {
        var n :| n in todo;
        todo := todo - {n};
        if now > entries[n] {
          entries := entries - {n};
        }
      }
      assert entries == Unexpired(old(entries), now);
      var newOrder := [];
      var i := 0;
      while i < |order|
        invariant 0 <= i <= |order|
        invariant newOrder + Compacted(order[i..], entries) == Compacted(order, entries)
        invariant order == old(order) && entries == Unexpired(old(entries), now)
      {
        assert order[i..][1..] == order[i + 1..];
        if order[i].nonce in entries {
          newOrder := newOrder + [order[i]];
        }
        i := i + 1;
      }
      order := newOrder;
    }
  }

  // ---------------------------------------------------------------- structure, duplicates allowed

  /** The expiry carried by the last item for a nonce. */
  function LastExpiry(order: seq<Item>, nonce: Nonce): Option<Time> {
    if order == [] then None
    else
      var later := LastExpiry(order[1..], nonce);
      if later.Some? then later else if order[0].nonce == nonce then Some(order[0].expiresAt) else None
  }

  predicate Sorted(order: seq<Item>) {
    forall i, j | 0 <= i < j < |order| :: order[i].expiresAt <= order[j].expiresAt
  }

  /** Every entry is backed by the last item for its nonce, and the items are in order of expiry; latest
      bounds every expiry handed out so far. */
  predicate Structured(s: State, latest: Time) {
    && (forall n | n in s.entries :: LastExpiry(s.order, n) == Some(s.entries[n]))
    && Sorted(s.order)
    && (forall e | e in s.order :: e.expiresAt <= latest)
  }

  lemma {:induction false} LastExpiryAppend(order: seq<Item>, e: Item, nonce: Nonce)
    ensures LastExpiry(order + [e], nonce) ==
              if e.nonce == nonce then Some(e.expiresAt) else LastExpiry(order, nonce)
  {
    if order == [] {
      assert ([] + [e])[1..] == [];
    } else {
      LastExpiryAppend(order[1..], e, nonce);
      assert (order + [e])[1..] == order[1..] + [e];
    }
  }

  lemma {:induction false} LastExpiryCompacted(order: seq<Item>, entries: map<Nonce, Time>, nonce: Nonce)
    requires nonce in entries
    ensures LastExpiry(Compacted(order, entries), nonce) == LastExpiry(order, nonce)
  {
    if order != [] {
      LastExpiryCompacted(order[1..], entries, nonce);
      var rest := Compacted(order[1..], entries);
      assert ([order[0]] + rest)[1..] == rest;
      assert [] + rest == rest;
    }
  }

  lemma {:induction false} CompactedItems(order: seq<Item>, entries: map<Nonce, Time>)
    requires Sorted(order)
    ensures Sorted(Compacted(order, entries))
    ensures forall e | e in Compacted(order, entries) :: e in order && e.nonce in entries
    ensures |Compacted(order, entries)| <= |order|
  {
    if order != [] {
      CompactedItems(order[1..], entries);
    }
  }

  lemma StructuredHas(s: State, latest: Time, nonce: Nonce, now: Time)
    requires Structured(s, latest)
    ensures Structured(AfterHas(s, nonce, now), latest)
  {
  }

  lemma {:induction false} StructuredEvicted(maxSize: nat, s: State, latest: Time)
    requires Structured(s, latest)
    ensures Structured(Evicted(maxSize, s), latest)
    ensures |Evicted(maxSize, s).entries| <= maxSize
    decreases |s.order|
  {
    if s.order == [] {
      forall n
        ensures n !in s.entries
      {
        assert LastExpiry(s.order, n) == None;
      }
      assert s.entries == map[];
    } else if |s.entries| > maxSize {
      StructuredEvicted(maxSize, State(s.entries - {s.order[0].nonce}, s.order[1..]), latest);
    }
  }

  /** add keeps the structure as the clock advances, duplicates or not, and its eviction loop always brings
      the map back within maxSize. */
  lemma StructuredAdd(l: Limits, s: State, latest: Time, nonce: Nonce, now: Time)
    requires Structured(s, latest) && latest <= now + l.ttl
    ensures Structured(AfterAdd(l, s, nonce, now), now + l.ttl)
    ensures |AfterAdd(l, s, nonce, now).entries| <= l.maxSize
  {
    var inserted := Inserted(l, s, nonce, now);
    forall n | n in inserted.entries
      ensures LastExpiry(inserted.order, n) == Some(inserted.entries[n])
    {
      LastExpiryAppend(s.order, Item(nonce, now + l.ttl), n);
    }
    StructuredEvicted(l.maxSize, inserted, now + l.ttl);
  }

  /** cleanup keeps the structure, leaves no expired entry, and no item without an entry. */
  lemma StructuredCleanup(s: State, latest: Time, now: Time)
    requires Structured(s, latest)
    ensures Structured(AfterCleanup(s, now), latest)
    ensures forall n | n in AfterCleanup(s, now).entries :: now <= AfterCleanup(s, now).entries[n]
    ensures forall e | e in AfterCleanup(s, now).order :: e.nonce in AfterCleanup(s, now).entries
  {
    var entries := Unexpired(s.entries, now);
    CompactedItems(s.order, entries);
    forall n | n in entries
      ensures LastExpiry(Compacted(s.order, entries), n) == Some(entries[n])
    {
      LastExpiryCompacted(s.order, entries, n);
    }
  }
}
