/** What every interleaving keeps: who owns each address, and what becomes of each session. */
module SessionInvariants {
  import opened Addresses
  import opened Pools
  import opened Lifecycle

  // ---------------------------------------------------------------- the invariant

  /** The three ways to hold a used address: a creation in progress, a live session, a removal in progress. */
  datatype Holder = Maker(id: Id) | Live(id: Id) | Leaver(actor: Actor)

  predicate Holds(s: System, h: Holder, ip: IP) {
    match h
    case Maker(id) => InPhase(s, id, Creating(ip))
    case Live(id) => id in s.shared.sessions && s.shared.sessions[id] == ip
    case Leaver(actor) => AtStage(s, actor, Releasing) && s.cleaners[actor].ip == ip
  }

  /** Every used address has one holder, which owner names, and nothing else is held. */
  ghost predicate Owned(s: System, owner: map<IP, Holder>) {
    && owner.Keys == s.shared.pool.used
    && (forall ip | ip in owner :: Holds(s, owner[ip], ip))
    && (forall h, ip | Holds(s, h, ip) :: ip in owner && owner[ip] == h)
  }

  /** sessions and ipMap are inverse to each other. */
  ghost predicate Inverse(s: Shared) {
    && (forall id | id in s.sessions :: s.sessions[id] in s.ipMap && s.ipMap[s.sessions[id]] == id)
    && (forall ip | ip in s.ipMap :: s.ipMap[ip] in s.sessions && s.sessions[s.ipMap[ip]] == ip)
  }

  /** The handler's session has been inserted at some time, with address ip if the handler still has it. */
  predicate WasInserted(s: System, id: Id, ip: IP) {
    id in s.handlers && s.handlers[id].phase in {Inserted(ip), Serving(ip), Closed}
  }

  predicate Past(s: System, id: Id) {
    && id in s.handlers
    && (s.handlers[id].phase.Inserted? || s.handlers[id].phase.Serving? || s.handlers[id].phase.Closed?)
  }

  ghost predicate Placed(s: System) {
    && (forall id | id in s.shared.sessions :: WasInserted(s, id, s.shared.sessions[id]))
    && (forall actor | actor in s.cleaners :: CleanerPlaced(s, actor))
    && (forall id | InPhase(s, id, Closed) :: Own(id) in s.cleaners)
  }

  /** A cleanup call is for a session inserted before, with the session's address; a handler's own starts at
      Unregister; and one that is past its Remove finds the session gone. */
  predicate CleanerPlaced(s: System, actor: Actor)
    requires actor in s.cleaners
  {
    var c := s.cleaners[actor];
    && WasInserted(s, c.id, c.ip)
    && (c.id in s.shared.sessions ==> s.shared.sessions[c.id] == c.ip)
    && (actor.Own? ==> actor.id == c.id && InPhase(s, c.id, Closed) && c.stage != Pending)
    && (c.stage == Releasing || c.stage == Finished ==> c.id !in s.shared.sessions)
  }

  /** The fate of an inserted session: live, being released by one cleanup call, or released once. */
  datatype Fate = IsLive | IsLeaving(actor: Actor) | IsReleased

  ghost predicate Fated(s: System, fate: map<Id, Fate>) {
    && (forall id :: id in fate <==> Past(s, id))
    && (forall id | id in fate :: FateHolds(s, id, fate[id]))
    && (forall id | id in s.shared.sessions :: id in fate && fate[id] == IsLive)
    && (forall actor | AtStage(s, actor, Releasing) ::
          s.cleaners[actor].id in fate && fate[s.cleaners[actor].id] == IsLeaving(actor))
    && (forall id | id in s.released :: id in fate && fate[id] == IsReleased)
  }

  predicate FateHolds(s: System, id: Id, fate: Fate) {
    match fate
    case IsLive => id in s.shared.sessions && s.released[id] == 0
    case IsLeaving(actor) => AtStage(s, actor, Releasing) && s.cleaners[actor].id == id && s.released[id] == 0
    case IsReleased => s.released[id] == 1
  }

  ghost predicate Inv(s: System, all: set<IP>) {
    && Conserved(s.shared.pool, all)
    && (exists owner :: Owned(s, owner))
    && Inverse(s.shared)
    && Placed(s)
    && (exists fate :: Fated(s, fate))
  }

  // ---------------------------------------------------------------- it holds initially

  lemma InitialInv(addresses: seq<IP>)
    requires Distinct(addresses)
    ensures Inv(Initial(addresses), Members(addresses))
  {
    var s := Initial(addresses);
    assert Owned(s, map[]);
    assert Fated(s, map[]);
  }

  // ---------------------------------------------------------------- every step keeps it

  lemma PoolStep(s: System, a: Action, all: set<IP>)
    requires Conserved(s.shared.pool, all) && Enabled(s, a)
    ensures Conserved(Performed(s, a).shared.pool, all)
  {
    match a {
      case Start(_, _) => AllocateConserves(s.shared.pool, all);
      case KeyFails(id) => ReleaseConserves(s.shared.pool, all, s.handlers[id].phase.ip);
      case Release(actor) => ReleaseConserves(s.shared.pool, all, s.cleaners[actor].ip);
      case _ =>
    }
  }

  lemma InverseStep(s: System, a: Action, owner: map<IP, Holder>)
    requires Inverse(s.shared) && Owned(s, owner) && Enabled(s, a)
    requires Placed(s)
    ensures Inverse(Performed(s, a).shared)
  {
    match a {
      case Insert(id) =>
        var ip := s.handlers[id].phase.ip;
        assert Holds(s, Maker(id), ip);
        assert id in s.shared.sessions ==> WasInserted(s, id, s.shared.sessions[id]);
        if ip in s.shared.ipMap {
          assert Holds(s, Live(s.shared.ipMap[ip]), ip);
        }
      case _ =>
    }
  }

  lemma PlacedStep(s: System, a: Action)
    requires Placed(s) && Enabled(s, a)
    ensures Placed(Performed(s, a))
  {
    var t := Performed(s, a);
    forall actor | actor in t.cleaners
      ensures CleanerPlaced(t, actor)
    {
      if actor in s.cleaners {
        assert CleanerPlaced(s, actor);
      }
    }
  }

  /** How ownership passes on. */
  function NextOwner(s: System, a: Action, owner: map<IP, Holder>): map<IP, Holder>
    requires Enabled(s, a)
  {
    match a
    case Start(id, _) =>
      var ip := Issue(s.shared.pool);
      if ip.Some? then owner[ip.value := Maker(id)] else owner
    case KeyFails(id) => owner - {s.handlers[id].phase.ip}
    case Insert(id) => owner[s.handlers[id].phase.ip := Live(id)]
    case Remove(actor) =>
      var id := s.cleaners[actor].id;
      if id in s.shared.sessions then owner[s.shared.sessions[id] := Leaver(actor)] else owner
    case Release(actor) => owner - {s.cleaners[actor].ip}
    case _ => owner
  }

  /** A newly issued address has no holder. */
  lemma OwnedStart(s: System, a: Action, owner: map<IP, Holder>, all: set<IP>)
    requires Owned(s, owner) && Conserved(s.shared.pool, all) && a.Start? && Enabled(s, a)
    ensures Owned(Performed(s, a), NextOwner(s, a, owner))
  {
    var t, next := Performed(s, a), NextOwner(s, a, owner);
    var ip := Issue(s.shared.pool);
    if ip.Some? {
      assert ip.value in Members(s.shared.pool.available);
      assert ip.value !in owner;
    }
    forall h, x | Holds(t, h, x)
      ensures x in next && next[x] == h
    {
      if h != Maker(a.id) {
        assert Holds(s, h, x);
      }
    }
  }

  lemma OwnedMakerGone(s: System, a: Action, owner: map<IP, Holder>)
    requires Owned(s, owner) && Placed(s) && Enabled(s, a) && (a.KeyFails? || a.Insert?)
    ensures Owned(Performed(s, a), NextOwner(s, a, owner))
  {
    var t, next := Performed(s, a), NextOwner(s, a, owner);
    var ip := s.handlers[a.id].phase.ip;
    assert Holds(s, Maker(a.id), ip);
    assert a.id in s.shared.sessions ==> WasInserted(s, a.id, s.shared.sessions[a.id]);
    forall h, x | Holds(t, h, x)
      ensures x in next && next[x] == h
    {
      if h != Live(a.id) {
        assert Holds(s, h, x);
      }
    }
  }

  lemma OwnedRemove(s: System, a: Action, owner: map<IP, Holder>)
    requires Owned(s, owner) && Placed(s) && Enabled(s, a) && a.Remove?
    ensures Owned(Performed(s, a), NextOwner(s, a, owner))
  {
    var t, next := Performed(s, a), NextOwner(s, a, owner);
    assert CleanerPlaced(s, a.actor);
    var c := s.cleaners[a.actor];
    if c.id in s.shared.sessions {
      assert Holds(s, Live(c.id), c.ip);
    }
    forall h, x | Holds(t, h, x)
      ensures x in next && next[x] == h
    {
      if h != Leaver(a.actor) {
        assert Holds(s, h, x);
      }
    }
  }

  lemma OwnedRelease(s: System, a: Action, owner: map<IP, Holder>)
    requires Owned(s, owner) && Enabled(s, a) && a.Release?
    ensures Owned(Performed(s, a), NextOwner(s, a, owner))
  {
    var t, next := Performed(s, a), NextOwner(s, a, owner);
    assert Holds(s, Leaver(a.actor), s.cleaners[a.actor].ip);
    forall h, x | Holds(t, h, x)
      ensures x in next && next[x] == h
    {
      assert Holds(s, h, x);
    }
  }

  lemma OwnedStep(s: System, a: Action, owner: map<IP, Holder>, all: set<IP>)
    requires Owned(s, owner) && Placed(s) && Conserved(s.shared.pool, all) && Enabled(s, a)
    ensures Owned(Performed(s, a), NextOwner(s, a, owner))
  {
    match a {
      case Start(_, _) => OwnedStart(s, a, owner, all);
      case KeyFails(_) => OwnedMakerGone(s, a, owner);
      case Insert(_) => OwnedMakerGone(s, a, owner);
      case Remove(_) => OwnedRemove(s, a, owner);
      case Release(_) => OwnedRelease(s, a, owner);
      case _ =>
        var t := Performed(s, a);
        assert forall h, x :: Holds(t, h, x) <==> Holds(s, h, x);
    }
  }

  /** How fates pass on. */
  function NextFate(s: System, a: Action, fate: map<Id, Fate>): map<Id, Fate>
    requires Enabled(s, a)
  {
    match a
    case Insert(id) => fate[id := IsLive]
    case Remove(actor) =>
      var id := s.cleaners[actor].id;
      if id in s.shared.sessions then fate[id := IsLeaving(actor)] else fate
    case Release(actor) => fate[s.cleaners[actor].id := IsReleased]
    case _ => fate
  }

  lemma FatedInsert(s: System, a: Action, fate: map<Id, Fate>)
    requires Fated(s, fate) && a.Insert? && Enabled(s, a)
    ensures Fated(Performed(s, a), NextFate(s, a, fate))
  {
    var t, next := Performed(s, a), NextFate(s, a, fate);
    assert a.id !in fate;
    forall id | id in next
      ensures FateHolds(t, id, next[id])
    {
      if id != a.id {
        assert FateHolds(s, id, fate[id]);
      }
    }
    forall id
      ensures id in next <==> Past(t, id)
    {
      assert id in fate <==> Past(s, id);
    }
  }

  /** What RemoveSession's locked part changes: one session, and one cleanup call's stage. */
  lemma RemoveChanges(s: System, a: Action)
    requires a.Remove? && Enabled(s, a)
    ensures var t, gone := Performed(s, a), s.cleaners[a.actor].id;
            && t.released == s.released && t.handlers == s.handlers
            && t.shared.sessions == s.shared.sessions - {gone}
            && (AtStage(t, a.actor, Releasing) <==> gone in s.shared.sessions)
            && (forall actor | AtStage(t, actor, Releasing) :: t.cleaners[actor].id == s.cleaners[actor].id)
            && (forall actor | actor != a.actor :: AtStage(t, actor, Releasing) <==> AtStage(s, actor, Releasing))
  {
  }

  lemma FatedRemove(s: System, a: Action, fate: map<Id, Fate>)
    requires Fated(s, fate) && Placed(s) && a.Remove? && Enabled(s, a)
    ensures Fated(Performed(s, a), NextFate(s, a, fate))
  {
    var t, next := Performed(s, a), NextFate(s, a, fate);
    RemoveChanges(s, a);
    forall id | id in next
      ensures FateHolds(t, id, next[id])
    {
      assert FateHolds(s, id, fate[id]);
    }
    assert forall id :: Past(t, id) <==> Past(s, id);
  }

  lemma FatedRelease(s: System, a: Action, fate: map<Id, Fate>)
    requires Fated(s, fate) && Placed(s) && a.Release? && Enabled(s, a)
    ensures Fated(Performed(s, a), NextFate(s, a, fate))
  {
    var t, next := Performed(s, a), NextFate(s, a, fate);
    assert CleanerPlaced(s, a.actor);
    forall id | id in next
      ensures FateHolds(t, id, next[id])
    {
      assert FateHolds(s, id, fate[id]);
    }
    assert forall id :: Past(t, id) <==> Past(s, id);
  }

  /** What the other actions leave alone. */
  lemma OtherActions(s: System, a: Action)
    requires Placed(s) && Enabled(s, a) && !a.Insert? && !a.Remove? && !a.Release?
    ensures var t := Performed(s, a);
            && t.shared.sessions == s.shared.sessions && t.released == s.released
            && (forall id :: Past(t, id) <==> Past(s, id))
            && (forall actor :: AtStage(t, actor, Releasing) <==> AtStage(s, actor, Releasing))
            && (forall actor | AtStage(s, actor, Releasing) :: t.cleaners[actor] == s.cleaners[actor])
  {
    if a.Close? && Own(a.id) in s.cleaners {
      assert CleanerPlaced(s, Own(a.id));
    }
  }

  lemma FatedOther(s: System, a: Action, fate: map<Id, Fate>)
    requires Fated(s, fate) && Placed(s) && Enabled(s, a) && !a.Insert? && !a.Remove? && !a.Release?
    ensures Fated(Performed(s, a), fate)
  {
    var t := Performed(s, a);
    OtherActions(s, a);
    forall id | id in fate
      ensures FateHolds(t, id, fate[id])
    {
      assert FateHolds(s, id, fate[id]);
    }
  }

  lemma FatedStep(s: System, a: Action, fate: map<Id, Fate>)
    requires Fated(s, fate) && Placed(s) && Enabled(s, a)
    ensures Fated(Performed(s, a), NextFate(s, a, fate))
  {
    match a {
      case Insert(_) => FatedInsert(s, a, fate);
      case Remove(_) => FatedRemove(s, a, fate);
      case Release(_) => FatedRelease(s, a, fate);
      case _ => FatedOther(s, a, fate);
    }
  }

  lemma StepInv(s: System, a: Action, all: set<IP>)
    requires Inv(s, all)
    ensures Inv(Step(s, a), all)
  {
    if Enabled(s, a) {
      var owner :| Owned(s, owner);
      var fate :| Fated(s, fate);
      PoolStep(s, a, all);
      InverseStep(s, a, owner);
      PlacedStep(s, a);
      OwnedStep(s, a, owner, all);
      FatedStep(s, a, fate);
    }
  }

  /** The invariant holds after every interleaving of any number of handlers and kicks. */
  lemma {:induction false} RunInv(s: System, actions: seq<Action>, all: set<IP>)
    requires Inv(s, all)
    ensures Inv(Run(s, actions), all)
    decreases |actions|
  {
    if actions != [] {
      StepInv(s, actions[0], all);
      RunInv(Step(s, actions[0]), actions[1..], all);
    }
  }

  // ---------------------------------------------------------------- what it means

  predicate Reachable(addresses: seq<IP>, actions: seq<Action>, s: System) {
    s == Run(Initial(addresses), actions)
  }

  /** In every reachable state the used addresses are those of creations in progress, of live sessions and of
      removals in progress, each held once; so no two live sessions share an address, and sessions and ipMap
      describe the same sessions. */
  lemma UsedIsHeldOnce(addresses: seq<IP>, actions: seq<Action>, s: System)
    requires Distinct(addresses) && Reachable(addresses, actions, s)
    ensures forall ip :: ip in s.shared.pool.used <==> exists h :: Holds(s, h, ip)
    ensures forall g, h, ip | Holds(s, g, ip) && Holds(s, h, ip) :: g == h
    ensures forall id, ip :: (id in s.shared.sessions && s.shared.sessions[id] == ip)
                             <==> (ip in s.shared.ipMap && s.shared.ipMap[ip] == id)
    ensures Conserved(s.shared.pool, Members(addresses))
  {
    InitialInv(addresses);
    RunInv(Initial(addresses), actions, Members(addresses));
    var owner :| Owned(s, owner);
    forall ip
      ensures ip in s.shared.pool.used <==> exists h :: Holds(s, h, ip)
    {
      if ip in owner {
        assert Holds(s, owner[ip], ip);
      }
    }
  }

  /** Each inserted session is live, or being released by exactly one cleanup call, or has been released
      exactly once, however many threads clean it up; its address is never released twice. */
  lemma ReleasedAtMostOnce(addresses: seq<IP>, actions: seq<Action>, s: System, id: Id)
    requires Distinct(addresses) && Reachable(addresses, actions, s)
    ensures s.released[id] <= 1
    ensures s.released[id] == 1 ==> id !in s.shared.sessions
    ensures forall actor | AtStage(s, actor, Releasing) && s.cleaners[actor].id == id ::
              && s.released[id] == 0 && id !in s.shared.sessions
              && s.cleaners[actor].ip in s.shared.pool.used
    ensures forall x, y | AtStage(s, x, Releasing) && AtStage(s, y, Releasing)
                          && s.cleaners[x].id == id && s.cleaners[y].id == id :: x == y
    ensures Past(s, id) && id !in s.shared.sessions && s.released[id] == 0 ==>
              exists actor :: AtStage(s, actor, Releasing) && s.cleaners[actor].id == id
  {
    InitialInv(addresses);
    RunInv(Initial(addresses), actions, Members(addresses));
    var owner :| Owned(s, owner);
    var fate :| Fated(s, fate);
    if id in fate {
      assert FateHolds(s, id, fate[id]);
    }
    forall actor | AtStage(s, actor, Releasing) && s.cleaners[actor].id == id
      ensures s.released[id] == 0 && id !in s.shared.sessions && s.cleaners[actor].ip in s.shared.pool.used
    {
      assert CleanerPlaced(s, actor);
      assert Holds(s, Leaver(actor), s.cleaners[actor].ip);
    }
  }

  lemma {:induction false} InjectiveSize(m: map<Id, IP>, range: set<IP>)
    requires forall id | id in m :: m[id] in range
    requires forall i, j | i in m && j in m && m[i] == m[j] :: i == j
    ensures |m| <= |range|
    decreases |range|
  {
    if m.Keys != {} {
      var id :| id in m.Keys;
      var rest := m - {id};
      assert rest.Keys == m.Keys - {id};
      InjectiveSize(rest, range - {m[id]});
    } else {
      assert m == map[];
    }
  }

  /** Live sessions never outnumber the pool, at most 253 for a pool built from a subnet. */
  lemma LiveSessionsBounded(addresses: seq<IP>, actions: seq<Action>, s: System)
    requires Distinct(addresses) && Reachable(addresses, actions, s)
    ensures |s.shared.sessions| + |s.shared.pool.available| <= |addresses|
  {
    UsedIsHeldOnce(addresses, actions, s);
    forall i | i in s.shared.sessions
      ensures s.shared.sessions[i] in s.shared.pool.used
    {
      assert Holds(s, Live(i), s.shared.sessions[i]);
    }
    forall i, j | i in s.shared.sessions && j in s.shared.sessions && s.shared.sessions[i] == s.shared.sessions[j]
      ensures i == j
    {
      assert Holds(s, Live(i), s.shared.sessions[i]) && Holds(s, Live(j), s.shared.sessions[i]);
    }
    InjectiveSize(s.shared.sessions, s.shared.pool.used);
    ConservedSize(s.shared.pool, Members(addresses));
    DistinctSize(addresses);
  }
}
