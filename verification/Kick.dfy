/** KickSession runs cleanupSession for a session whose handler will run it again later. When the second run
    is harmless, and when not. */
module Kick {
  import opened Addresses
  import opened Pools
  import opened Lifecycle
  import opened SessionInvariants
  import opened NatInvariants

  // ---------------------------------------------------------------- the pool inside a run

  /** What an action does to the pool. */
  function PoolOpOf(s: System, a: Action): seq<PoolOp> {
    if !Enabled(s, a) then []
    else
      match a
      case Start(_, _) => [TakeNext]
      case KeyFails(id) => [GiveBack(s.handlers[id].phase.ip)]
      case Release(actor) => [GiveBack(s.cleaners[actor].ip)]
      case _ => []
  }

  function PoolOps(s: System, actions: seq<Action>): seq<PoolOp>
    decreases |actions|
  {
    if actions == [] then [] else PoolOpOf(s, actions[0]) + PoolOps(Step(s, actions[0]), actions[1..])
  }

  /** How many addresses a run hands out. */
  function Allocations(s: System, actions: seq<Action>): nat {
    |Issued(s.shared.pool, PoolOps(s, actions))|
  }

  lemma AfterOneOp(s: System, a: Action, more: seq<PoolOp>)
    ensures AfterOps(s.shared.pool, PoolOpOf(s, a) + more) == AfterOps(Step(s, a).shared.pool, more)
    ensures Issued(s.shared.pool, PoolOpOf(s, a) + more) ==
              (if a.Start? && Enabled(s, a) && s.shared.pool.available != [] then [s.shared.pool.available[0]] else [])
              + Issued(Step(s, a).shared.pool, more)
  {
    var ops := PoolOpOf(s, a);
    if ops == [] {
      assert ops + more == more;
    } else {
      assert (ops + more)[0] == ops[0] && (ops + more)[1..] == more;
    }
  }

  /** The pool of a run is the pool of its pool operations. */
  lemma {:induction false} PoolOfRun(s: System, actions: seq<Action>)
    ensures Run(s, actions).shared.pool == AfterOps(s.shared.pool, PoolOps(s, actions))
    decreases |actions|
  {
    if actions != [] {
      PoolOfRun(Step(s, actions[0]), actions[1..]);
      AfterOneOp(s, actions[0], PoolOps(Step(s, actions[0]), actions[1..]));
    }
  }

  // ---------------------------------------------------------------- just after a kick

  /** The kicked session is gone and its address is the last in the queue, but its handler still serves. */
  ghost predicate JustKicked(s: System, all: set<IP>, id: Id, ip: IP) {
    && Inv(s, all) && NatServing(s) && NatLive(s)
    && InPhase(s, id, Serving(ip))
    && |s.shared.pool.available| > 0
    && s.shared.pool.available[|s.shared.pool.available| - 1] == ip
  }

  lemma ReleaseQueues(s: System, k: nat, id: Id, ip: IP)
    requires AtStage(s, Kicker(k), Releasing) && s.cleaners[Kicker(k)].ip == ip
    requires InPhase(s, id, Serving(ip)) && ip in s.shared.pool.used
    ensures var t := Step(s, Release(Kicker(k)));
            && t.shared.pool.available == s.shared.pool.available + [ip]
            && InPhase(t, id, Serving(ip))
  {
  }

  lemma KickedAddress(s: System, all: set<IP>, k: nat, id: Id, ip: IP)
    requires Inv(s, all) && AtStage(s, Kicker(k), Releasing) && s.cleaners[Kicker(k)].id == id
    requires InPhase(s, id, Serving(ip))
    ensures s.cleaners[Kicker(k)].ip == ip && ip in s.shared.pool.used
  {
    assert CleanerPlaced(s, Kicker(k));
    HeldIsUsed(s, all, Leaver(Kicker(k)), ip);
  }

  lemma HeldIsUsed(s: System, all: set<IP>, h: Holder, ip: IP)
    requires Inv(s, all) && Holds(s, h, ip)
    ensures ip in s.shared.pool.used
  {
    var owner :| Owned(s, owner);
  }

  /** The state after the release of a kick of a registered session, in a run whose kicks are all late. */
  lemma KickReleases(addresses: seq<IP>, before: seq<Action>, k: nat, id: Id, ip: IP)
    requires Distinct(addresses) && LateKicks(Initial(addresses), before)
    requires var s := Run(Initial(addresses), before);
             && AtStage(s, Kicker(k), Releasing) && s.cleaners[Kicker(k)].id == id
             && InPhase(s, id, Serving(ip))
    ensures JustKicked(Step(Run(Initial(addresses), before), Release(Kicker(k))), Members(addresses), id, ip)
  {
    var s := Run(Initial(addresses), before);
    InitialInv(addresses);
    NatLiveRun(Initial(addresses), before, Members(addresses));
    KickedAddress(s, Members(addresses), k, id, ip);
    ReleaseQueues(s, k, id, ip);
    ReleaseKeeps(s, Release(Kicker(k)), Members(addresses));
  }

  lemma ReleaseKeeps(s: System, a: Action, all: set<IP>)
    requires Inv(s, all) && NatServing(s) && NatLive(s) && a.Release? && Enabled(s, a)
    ensures Inv(Step(s, a), all) && NatServing(Step(s, a)) && NatLive(Step(s, a))
  {
    StepInv(s, a, all);
    NatServingStep(s, a);
    NatLiveStep(s, a);
  }

  /** A free address is routed nowhere. */
  lemma FreeIsUnrouted(s: System, all: set<IP>, ip: IP)
    requires Inv(s, all) && NatLive(s) && ip in s.shared.pool.available
    ensures ip !in s.shared.natTable
  {
    assert ip in Members(s.shared.pool.available);
    if ip in s.shared.natTable {
      assert LiveAt(s, s.shared.natTable[ip], ip);
      HeldIsUsed(s, all, Live(s.shared.natTable[ip]), ip);
    }
  }

  /** As long as fewer addresses have been handed out since the kick than were free right after it, the
      handler's late Unregister changes nothing. */
  lemma LateUnregisterHarmless(s: System, all: set<IP>, id: Id, ip: IP, after: seq<Action>)
    requires JustKicked(s, all, id, ip) && LateKicks(s, after)
    requires Allocations(s, after) < |s.shared.pool.available|
    ensures Step(Run(s, after), Close(id)).shared == Run(s, after).shared
  {
    NatLiveRun(s, after, all);
    StillQueued(s, all, ip, after);
    FreeIsUnrouted(Run(s, after), all, ip);
    PhaseStays(s, after, id, ip);
    UnregisterNothing(Run(s, after), id, ip);
  }

  lemma UnregisterNothing(s: System, id: Id, ip: IP)
    requires ip !in s.shared.natTable && (InPhase(s, id, Serving(ip)) || InPhase(s, id, Closed))
    ensures Step(s, Close(id)).shared == s.shared
  {
    assert s.shared.natTable - {ip} == s.shared.natTable;
  }

  /** The last address of the queue stays queued while fewer allocations happen than the queue is long. */
  lemma StillQueued(s: System, all: set<IP>, ip: IP, after: seq<Action>)
    requires Conserved(s.shared.pool, all) && |s.shared.pool.available| > 0
    requires s.shared.pool.available[|s.shared.pool.available| - 1] == ip
    requires Allocations(s, after) < |s.shared.pool.available|
    ensures ip in Run(s, after).shared.pool.available
  {
    PoolOfRun(s, after);
    QueuedInTurn(s.shared.pool, all, PoolOps(s, after), |s.shared.pool.available| - 1);
  }

  /** A serving handler serves the same address until it closes. */
  lemma {:induction false} PhaseStays(s: System, actions: seq<Action>, id: Id, ip: IP)
    requires InPhase(s, id, Serving(ip)) || InPhase(s, id, Closed)
    ensures InPhase(Run(s, actions), id, Serving(ip)) || InPhase(Run(s, actions), id, Closed)
    decreases |actions|
  {
    if actions != [] {
      PhaseStays(Step(s, actions[0]), actions[1..], id, ip);
    }
  }

  /** The rest of a late cleanup is always harmless: once a session has been released, RemoveSession finds
      nothing and no address is given back again. */
  lemma LateRemoveHarmless(addresses: seq<IP>, actions: seq<Action>, s: System, id: Id)
    requires Distinct(addresses) && Reachable(addresses, actions, s) && s.released[id] == 1
    requires AtStage(s, Own(id), Unregistered)
    ensures var t := Step(s, Remove(Own(id)));
            && t.shared == s.shared
            && Step(t, Release(Own(id))).shared == s.shared
  {
    ReleasedAtMostOnce(addresses, actions, s, id);
    OwnCleaner(addresses, actions, s, id);
  }

  lemma OwnCleaner(addresses: seq<IP>, actions: seq<Action>, s: System, id: Id)
    requires Distinct(addresses) && Reachable(addresses, actions, s) && Own(id) in s.cleaners
    ensures s.cleaners[Own(id)].id == id
  {
    InitialInv(addresses);
    RunInv(Initial(addresses), actions, Members(addresses));
    assert CleanerPlaced(s, Own(id));
  }

  // ---------------------------------------------------------------- the bound is exact

  function Starts(b: Id, n: nat): seq<Action>
    decreases n
  {
    if n == 0 then [] else [Start(b, false)] + Starts(b + 1, n - 1)
  }

  predicate FreshFrom(s: System, b: Id) {
    forall id | id in s.handlers :: id < b
  }

  lemma StartTakesFirst(s: System, b: Id)
    requires FreshFrom(s, b) && s.shared.pool.available != []
    ensures var t := Step(s, Start(b, false));
            && FreshFrom(t, b + 1)
            && InPhase(t, b, Creating(s.shared.pool.available[0]))
            && t.shared.pool.available == s.shared.pool.available[1..]
            && t.shared.natTable == s.shared.natTable
            && (forall id | id in s.handlers :: id in t.handlers && t.handlers[id] == s.handlers[id])
  {
  }

  lemma {:induction false} StartsAllocate(s: System, b: Id, n: nat)
    requires FreshFrom(s, b) && n <= |s.shared.pool.available|
    ensures Allocations(s, Starts(b, n)) == n
    decreases n
  {
    if n > 0 {
      var t := Step(s, Start(b, false));
      StartTakesFirst(s, b);
      StartsAllocate(t, b + 1, n - 1);
      assert Starts(b, n)[0] == Start(b, false) && Starts(b, n)[1..] == Starts(b + 1, n - 1);
      AfterOneOp(s, Start(b, false), PoolOps(t, Starts(b + 1, n - 1)));
    }
  }

  /** n new handlers take the first n free addresses; the last of them takes the n-th. */
  lemma {:induction false} StartsTakeQueue(s: System, b: Id, n: nat)
    requires FreshFrom(s, b) && 0 < n <= |s.shared.pool.available|
    ensures var t := Run(s, Starts(b, n));
            InPhase(t, b + n - 1, Creating(s.shared.pool.available[n - 1]))
    decreases n
  {
    var t := Step(s, Start(b, false));
    StartTakesFirst(s, b);
    assert Starts(b, n)[0] == Start(b, false) && Starts(b, n)[1..] == Starts(b + 1, n - 1);
    assert Run(s, Starts(b, n)) == Run(t, Starts(b + 1, n - 1));
    if n == 1 {
      assert Run(t, Starts(b + 1, 0)) == t;
    } else {
      StartsTakeQueue(t, b + 1, n - 1);
      assert t.shared.pool.available[n - 2] == s.shared.pool.available[n - 1];
    }
  }

  lemma {:induction false} StartsKeep(s: System, b: Id, n: nat, id: Id)
    requires FreshFrom(s, b) && n <= |s.shared.pool.available| && id in s.handlers
    ensures var t := Run(s, Starts(b, n));
            id in t.handlers && t.handlers[id] == s.handlers[id]
    decreases n
  {
    if n > 0 {
      StartTakesFirst(s, b);
      assert Starts(b, n)[0] == Start(b, false) && Starts(b, n)[1..] == Starts(b + 1, n - 1);
      StartsKeep(Step(s, Start(b, false)), b + 1, n - 1, id);
    }
  }

  lemma {:induction false} StartsAreNoKicks(b: Id, n: nat)
    ensures NoKicks(Starts(b, n))
    decreases n
  {
    if n > 0 {
      StartsAreNoKicks(b + 1, n - 1);
    }
  }

  lemma {:induction false} AllocationsAppend(s: System, front: seq<Action>, back: seq<Action>)
    requires forall a | a in back :: !a.Start?
    ensures Allocations(s, front + back) == Allocations(s, front)
    decreases |front| + |back|
  {
    if front != [] {
      assert (front + back)[0] == front[0] && (front + back)[1..] == front[1..] + back;
      var t := Step(s, front[0]);
      AllocationsAppend(t, front[1..], back);
      AfterOneOp(s, front[0], PoolOps(t, front[1..]));
      AfterOneOp(s, front[0], PoolOps(t, front[1..] + back));
    } else if back != [] {
      assert front + back == back;
      var t := Step(s, back[0]);
      AllocationsAppend(t, [], back[1..]);
      assert [] + back[1..] == back[1..];
      AfterOneOp(s, back[0], PoolOps(t, back[1..]));
    }
  }

  lemma {:induction false} SomeBound(ids: set<Id>) returns (b: Id)
    ensures forall id | id in ids :: id < b
    decreases |ids|
  {
    if ids == {} {
      b := 0;
    } else {
      var id :| id in ids;
      var c := SomeBound(ids - {id});
      b := if id < c then c else id + 1;
      forall x | x in ids
        ensures x < b
      {
        if x != id {
          assert x in ids - {id};
        }
      }
    }
  }

  /** Once as many addresses have been handed out as were free after the kick, the late Unregister can take
      another session's entry away: here is a run in which it does. */
  lemma LateUnregisterHurts(s: System, all: set<IP>, id: Id, ip: IP) returns (after: seq<Action>, victim: Id)
    requires JustKicked(s, all, id, ip) && !s.handlers[id].udp
    ensures LateKicks(s, after) && Allocations(s, after) == |s.shared.pool.available|
    ensures var t := Run(s, after);
            && victim != id && Routes(t, ip, victim) && InPhase(t, victim, Serving(ip)) && LiveAt(t, victim, ip)
            && ip !in Step(t, Close(id)).shared.natTable
  {
    var m := |s.shared.pool.available|;
    var b := SomeBound(s.handlers.Keys);
    victim := b + m - 1;
    var front, back := Starts(b, m), [Insert(victim), Register(victim)];
    after := front + back;
    StartsTakeQueue(s, b, m);
    StartsKeep(s, b, m, id);
    StartsAllocate(s, b, m);
    StartsAreNoKicks(b, m);
    NoKicksAreLate(s, after);
    AllocationsAppend(s, front, back);
    RunAppend(s, front, back);
    VictimRegisters(Run(s, front), id, victim, ip);
  }

  lemma VictimRegisters(s: System, id: Id, victim: Id, ip: IP)
    requires InPhase(s, victim, Creating(ip)) && InPhase(s, id, Serving(ip)) && !s.handlers[id].udp
    ensures var t := Run(s, [Insert(victim), Register(victim)]);
            && victim != id && Routes(t, ip, victim) && InPhase(t, victim, Serving(ip)) && LiveAt(t, victim, ip)
            && ip !in Step(t, Close(id)).shared.natTable
  {
    var t2 := Step(s, Insert(victim));
    var t3 := Step(t2, Register(victim));
    assert Run(t2, [Register(victim)]) == t3;
    assert InPhase(t3, id, Serving(ip)) && !t3.handlers[id].udp;
  }

  /** The exact bound: right after a kick, the handler's late Unregister is harmless in every continuation
      that hands out at most n addresses if and only if n is below the number of addresses then free. */
  lemma LateUnregisterExactly(s: System, all: set<IP>, id: Id, ip: IP, n: nat)
    requires JustKicked(s, all, id, ip) && !s.handlers[id].udp
    ensures (forall after | LateKicks(s, after) && Allocations(s, after) <= n ::
               Step(Run(s, after), Close(id)).shared == Run(s, after).shared)
            <==> n < |s.shared.pool.available|
  {
    if n < |s.shared.pool.available| {
      forall after | LateKicks(s, after) && Allocations(s, after) <= n
        ensures Step(Run(s, after), Close(id)).shared == Run(s, after).shared
      {
        LateUnregisterHarmless(s, all, id, ip, after);
      }
    } else {
      var after, victim := LateUnregisterHurts(s, all, id, ip);
      assert Step(Run(s, after), Close(id)).shared.natTable != Run(s, after).shared.natTable;
    }
  }
}
