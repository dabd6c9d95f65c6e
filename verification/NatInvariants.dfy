/** What the NAT table says about handlers and sessions, with and without kicks. */
module NatInvariants {
  import opened Addresses
  import opened Pools
  import opened Lifecycle
  import opened SessionInvariants

  // ---------------------------------------------------------------- any run

  predicate Routes(s: System, ip: IP, id: Id) {
    ip in s.shared.natTable && s.shared.natTable[ip] == id
  }

  /** Every NAT entry belongs to a handler between its own Register and its own Unregister. */
  ghost predicate NatServing(s: System) {
    forall ip | ip in s.shared.natTable :: InPhase(s, s.shared.natTable[ip], Serving(ip))
  }

  lemma NatServingStep(s: System, a: Action)
    requires NatServing(s) && Enabled(s, a)
    ensures NatServing(Performed(s, a))
  {
  }

  // ---------------------------------------------------------------- kicks of registered sessions

  /** KickSession finds its session after the handler has registered it. */
  predicate KickIsLate(s: System, a: Action) {
    a.KickFind? && Enabled(s, a) ==> a.id !in s.handlers || !s.handlers[a.id].phase.Inserted?
  }

  predicate LateKicks(s: System, actions: seq<Action>)
    decreases |actions|
  {
    actions == [] || (KickIsLate(s, actions[0]) && LateKicks(Step(s, actions[0]), actions[1..]))
  }

  predicate NoKicks(actions: seq<Action>) {
    forall i | 0 <= i < |actions| :: !actions[i].KickFind?
  }

  ghost predicate NatLive(s: System) {
    && (forall ip | ip in s.shared.natTable :: LiveAt(s, s.shared.natTable[ip], ip))
    && (forall id, ip | InPhase(s, id, Inserted(ip)) :: LiveAt(s, id, ip))
    && (forall actor | actor in s.cleaners :: CleanerUnrouted(s, actor))
  }

  predicate LiveAt(s: System, id: Id, ip: IP) {
    id in s.shared.sessions && s.shared.sessions[id] == ip
  }

  /** No cleanup call before Register; and none past its Unregister finds the session's NAT entry. */
  predicate CleanerUnrouted(s: System, actor: Actor)
    requires actor in s.cleaners
  {
    var c := s.cleaners[actor];
    && (c.id in s.handlers ==> !s.handlers[c.id].phase.Inserted?)
    && (c.stage != Pending ==> !Routes(s, c.ip, c.id))
  }

  lemma NatLiveStep(s: System, a: Action)
    requires NatLive(s) && NatServing(s) && Placed(s) && Enabled(s, a) && KickIsLate(s, a)
    ensures NatLive(Performed(s, a))
  {
    var t := Performed(s, a);
    forall actor | actor in t.cleaners
      ensures CleanerUnrouted(t, actor)
    {
      if actor in s.cleaners {
        assert CleanerUnrouted(s, actor) && CleanerPlaced(s, actor);
      }
    }
    forall id, ip | InPhase(t, id, Inserted(ip))
      ensures LiveAt(t, id, ip)
    {
      if a.Remove? {
        assert InPhase(s, id, Inserted(ip)) && CleanerUnrouted(s, a.actor) && CleanerPlaced(s, a.actor);
      } else if InPhase(s, id, Inserted(ip)) {
        assert LiveAt(s, id, ip);
      }
    }
    forall ip | ip in t.shared.natTable
      ensures LiveAt(t, t.shared.natTable[ip], ip)
    {
      if a.Register? && t.shared.natTable[ip] == a.id {
        assert InPhase(s, a.id, Inserted(s.handlers[a.id].phase.ip));
      } else if a.Remove? {
        assert CleanerUnrouted(s, a.actor) && CleanerPlaced(s, a.actor);
      }
    }
  }

  lemma {:induction false} NatLiveRun(s: System, actions: seq<Action>, all: set<IP>)
    requires Inv(s, all) && NatServing(s) && NatLive(s) && LateKicks(s, actions)
    ensures NatServing(Run(s, actions)) && NatLive(Run(s, actions)) && Inv(Run(s, actions), all)
    decreases |actions|
  {
    if actions != [] {
      var a := actions[0];
      StepInv(s, a, all);
      if Enabled(s, a) {
        NatServingStep(s, a);
        NatLiveStep(s, a);
      }
      NatLiveRun(Step(s, a), actions[1..], all);
    }
  }

  lemma {:induction false} NatServingRun(s: System, actions: seq<Action>)
    requires NatServing(s)
    ensures NatServing(Run(s, actions))
    decreases |actions|
  {
    if actions != [] {
      if Enabled(s, actions[0]) {
        NatServingStep(s, actions[0]);
      }
      NatServingRun(Step(s, actions[0]), actions[1..]);
    }
  }

  /** In every run whatsoever, an address routes to the handler serving it; so a NAT entry outlives neither
      its handler's Unregister nor precedes its Register. */
  lemma RoutesToServing(addresses: seq<IP>, actions: seq<Action>, s: System)
    requires Reachable(addresses, actions, s)
    ensures forall ip, id | Routes(s, ip, id) :: InPhase(s, id, Serving(ip))
  {
    NatServingRun(Initial(addresses), actions);
  }

  /** With kicks of registered sessions only, the NAT table never dangles: whatever it routes to is a live
      session with that address, the one ipMap gives. */
  lemma RoutesToLive(addresses: seq<IP>, actions: seq<Action>, s: System)
    requires Distinct(addresses) && Reachable(addresses, actions, s) && LateKicks(Initial(addresses), actions)
    ensures forall ip, id | Routes(s, ip, id) ::
              LiveAt(s, id, ip) && InPhase(s, id, Serving(ip)) && ip in s.shared.ipMap && s.shared.ipMap[ip] == id
  {
    InitialInv(addresses);
    NatLiveRun(Initial(addresses), actions, Members(addresses));
  }

  // ---------------------------------------------------------------- kicks before Register

  /** No NAT entry outlives its session. */
  ghost predicate NoneDangle(s: System) {
    forall ip, id | Routes(s, ip, id) :: LiveAt(s, id, ip)
  }

  /** What is left of a kick and of the handler that it overtook. */
  function EarlyKickRest(k: nat, id: Id): seq<Action> {
    [KickUnregister(k), Remove(Kicker(k)), Release(Kicker(k)), Register(id)]
  }

  /** Session id is live with address ip, not yet registered, and kick k has found it. */
  predicate KickedEarly(s: System, k: nat, id: Id, ip: IP) {
    && InPhase(s, id, Inserted(ip)) && LiveAt(s, id, ip)
    && Kicker(k) in s.cleaners && s.cleaners[Kicker(k)] == Cleaner(id, ip, Pending)
    && ip in s.shared.pool.used
  }

  lemma EarlyKickFinds(s: System, k: nat, id: Id, all: set<IP>) returns (ip: IP)
    requires Inv(s, all) && NatLive(s) && Enabled(s, KickFind(k, id)) && !KickIsLate(s, KickFind(k, id))
    ensures KickedEarly(Step(s, KickFind(k, id)), k, id, ip)
  {
    ip := s.handlers[id].phase.ip;
    assert InPhase(s, id, Inserted(ip)) && LiveAt(s, id, ip);
    var owner :| Owned(s, owner);
    assert Holds(s, Live(id), ip);
  }

  /** A kick that comes between Insert and Register leaves a dangling entry: the address is free again, and
      routed to a session that is gone. */
  lemma EarlyKickDangles(s: System, k: nat, id: Id, ip: IP)
    requires KickedEarly(s, k, id, ip)
    ensures var t := Run(s, EarlyKickRest(k, id));
            Routes(t, ip, id) && id !in t.shared.sessions && ip in t.shared.pool.available
  {
    var s1 := Step(s, KickUnregister(k));
    assert AtStage(s1, Kicker(k), Unregistered) && s1.cleaners[Kicker(k)].ip == ip;
    var s2 := Step(s1, Remove(Kicker(k)));
    assert AtStage(s2, Kicker(k), Releasing) && id !in s2.shared.sessions;
    var s3 := Step(s2, Release(Kicker(k)));
    assert s3.shared.pool.available[|s2.shared.pool.available|] == ip;
    var s4 := Step(s3, Register(id));
    assert Run(s3, [Register(id)]) == s4;
    assert Run(s2, [Release(Kicker(k)), Register(id)]) == s4;
  }

  lemma {:induction false} NoKicksAreLate(s: System, actions: seq<Action>)
    requires NoKicks(actions)
    ensures LateKicks(s, actions)
    decreases |actions|
  {
    if actions != [] {
      NoKicksAreLate(Step(s, actions[0]), actions[1..]);
    }
  }

  lemma LateKickIsSafe(s: System, kick: Action, after: seq<Action>, all: set<IP>)
    requires Inv(s, all) && NatServing(s) && NatLive(s)
    requires KickIsLate(s, kick) && LateKicks(Step(s, kick), after)
    ensures NoneDangle(Run(Step(s, kick), after))
  {
    var actions := [kick] + after;
    assert actions[0] == kick && actions[1..] == after;
    NatLiveRun(s, actions, all);
  }

  lemma EarlyKickHurts(s: System, k: nat, id: Id, all: set<IP>) returns (after: seq<Action>)
    requires Inv(s, all) && NatLive(s) && Enabled(s, KickFind(k, id)) && !KickIsLate(s, KickFind(k, id))
    ensures LateKicks(Step(s, KickFind(k, id)), after)
    ensures !NoneDangle(Run(Step(s, KickFind(k, id)), after))
  {
    hide Step, Run, Inv, NatLive, LateKicks, Enabled;
    var ip := EarlyKickFinds(s, k, id, all);
    var t := Step(s, KickFind(k, id));
    after := EarlyKickRest(k, id);
    NoKicksAreLate(t, after);
    EarlyKickDangles(t, k, id, ip);
    assert Routes(Run(t, after), ip, id) && !LiveAt(Run(t, after), id, ip);
  }

  /** The boundary is exact. Take any state that a run with late kicks reaches, and any kick that could come
      next: the NAT table stays free of dangling entries in every continuation with late kicks, if and only
      if that kick does not find its session between Insert and Register. */
  lemma EarlyKickExactly(addresses: seq<IP>, before: seq<Action>, s: System, k: nat, id: Id)
    requires Distinct(addresses) && Reachable(addresses, before, s) && LateKicks(Initial(addresses), before)
    requires Enabled(s, KickFind(k, id))
    ensures (forall after | LateKicks(Step(s, KickFind(k, id)), after) ::
               NoneDangle(Run(Step(s, KickFind(k, id)), after)))
            <==> KickIsLate(s, KickFind(k, id))
  {
    var all, kick := Members(addresses), KickFind(k, id);
    LateRunInv(addresses, before, s);
    hide *;
    if KickIsLate(s, kick) {
      forall after | LateKicks(Step(s, kick), after)
        ensures NoneDangle(Run(Step(s, kick), after))
      {
        LateKickIsSafe(s, kick, after, all);
      }
    } else {
      var after := EarlyKickHurts(s, k, id, all);
    }
  }

  lemma LateRunInv(addresses: seq<IP>, before: seq<Action>, s: System)
    requires Distinct(addresses) && Reachable(addresses, before, s) && LateKicks(Initial(addresses), before)
    ensures Inv(s, Members(addresses)) && NatServing(s) && NatLive(s)
  {
    InitialInv(addresses);
    NatLiveRun(Initial(addresses), before, Members(addresses));
  }

  // ---------------------------------------------------------------- no kicks

  ghost predicate ServingRouted(s: System) {
    && (forall id, ip | InPhase(s, id, Serving(ip)) :: Routes(s, ip, id))
    && (forall actor | actor in s.cleaners :: actor.Own?)
  }

  /** Without kicks nobody else's Unregister or Register touches a serving handler's entry: addresses of
      live sessions differ. */
  lemma ServingRoutedStep(s: System, a: Action, owner: map<IP, Holder>)
    requires ServingRouted(s) && NatLive(s) && Owned(s, owner) && Enabled(s, a) && !a.KickFind?
    ensures ServingRouted(Performed(s, a))
  {
    var t := Performed(s, a);
    forall id, ip | InPhase(t, id, Serving(ip))
      ensures Routes(t, ip, id)
    {
      if a.Close? {
        assert Routes(s, ip, id) && Routes(s, s.handlers[a.id].phase.ip, a.id);
      } else if a.Register? && id != a.id {
        assert Routes(s, ip, id) && LiveAt(s, id, ip);
        assert InPhase(s, a.id, Inserted(s.handlers[a.id].phase.ip));
        assert Holds(s, Live(id), ip) && Holds(s, Live(a.id), s.handlers[a.id].phase.ip);
      } else if !a.Register? {
        assert InPhase(s, id, Serving(ip));
      }
    }
  }

  ghost predicate Clean(s: System, all: set<IP>) {
    Inv(s, all) && NatServing(s) && NatLive(s) && ServingRouted(s)
  }

  lemma CleanStep(s: System, a: Action, all: set<IP>)
    requires Clean(s, all) && !a.KickFind?
    ensures Clean(Step(s, a), all)
  {
    StepInv(s, a, all);
    if Enabled(s, a) {
      var owner :| Owned(s, owner);
      NatServingStep(s, a);
      NatLiveStep(s, a);
      ServingRoutedStep(s, a, owner);
    }
  }

  lemma {:induction false} NoKicksRun(s: System, actions: seq<Action>, all: set<IP>)
    requires Clean(s, all) && NoKicks(actions)
    ensures Clean(Run(s, actions), all)
    decreases |actions|
  {
    if actions != [] {
      CleanStep(s, actions[0], all);
      NoKicksRun(Step(s, actions[0]), actions[1..], all);
    }
  }

  /** For any number of WebSocket handlers and UDP handshakes interleaved at lock granularity, without kicks:
      the NAT table maps ip to id exactly when id's handler is between its Register and its Unregister of ip;
      and every such session is live, and ipMap gives it for ip. */
  lemma NatIsServing(addresses: seq<IP>, actions: seq<Action>, s: System)
    requires Distinct(addresses) && Reachable(addresses, actions, s) && NoKicks(actions)
    ensures forall ip, id :: Routes(s, ip, id) <==> InPhase(s, id, Serving(ip))
    ensures forall ip, id | Routes(s, ip, id) ::
              LiveAt(s, id, ip) && ip in s.shared.ipMap && s.shared.ipMap[ip] == id
  {
    InitialInv(addresses);
    NoKicksRun(Initial(addresses), actions, Members(addresses));
  }

  lemma CleanRun(addresses: seq<IP>, actions: seq<Action>, s: System)
    requires Distinct(addresses) && Reachable(addresses, actions, s) && NoKicks(actions)
    ensures Clean(s, Members(addresses))
  {
    InitialInv(addresses);
    NoKicksRun(Initial(addresses), actions, Members(addresses));
  }

  lemma {:induction false} UdpKeepsServing(s: System, actions: seq<Action>, id: Id, ip: IP)
    requires InPhase(s, id, Serving(ip)) && s.handlers[id].udp
    ensures InPhase(Run(s, actions), id, Serving(ip)) && Run(s, actions).handlers[id].udp
    decreases |actions|
  {
    if actions != [] {
      UdpKeepsServing(Step(s, actions[0]), actions[1..], id, ip);
    }
  }

  /** Nothing but a kick ends a session that a UDP handshake started: without kicks it stays live and routed
      for good, and its address never comes back to the pool. */
  lemma UdpSessionsStay(addresses: seq<IP>, before: seq<Action>, after: seq<Action>, id: Id, ip: IP)
    requires Distinct(addresses) && NoKicks(before + after)
    requires var s := Run(Initial(addresses), before); InPhase(s, id, Serving(ip)) && s.handlers[id].udp
    ensures var t := Run(Initial(addresses), before + after);
            && Routes(t, ip, id) && LiveAt(t, id, ip)
            && ip in t.shared.pool.used && ip !in t.shared.pool.available
  {
    hide Step, Performed, Enabled;
    var t := Run(Initial(addresses), before + after);
    RunAppend(Initial(addresses), before, after);
    UdpKeepsServing(Run(Initial(addresses), before), after, id, ip);
    NatIsServing(addresses, before + after, t);
    assert Routes(t, ip, id);
    CleanRun(addresses, before + after, t);
    LiveIsUsed(t, Members(addresses), id, ip);
  }

  lemma LiveIsUsed(s: System, all: set<IP>, id: Id, ip: IP)
    requires Inv(s, all) && LiveAt(s, id, ip)
    ensures ip in s.shared.pool.used && ip !in s.shared.pool.available
  {
    var owner :| Owned(s, owner);
    assert Holds(s, Live(id), ip);
  }

  // ---------------------------------------------------------------- quiet states

  /** No handler or cleanup call is between two of its lock regions. */
  ghost predicate Quiet(s: System) {
    && (forall id | id in s.handlers ::
          s.handlers[id].phase.Serving? || s.handlers[id].phase.Closed? || s.handlers[id].phase.Failed?)
    && (forall actor | actor in s.cleaners :: s.cleaners[actor].stage == Finished)
  }

  lemma QuietSessionsServe(s: System, all: set<IP>, ip: IP)
    requires Clean(s, all) && Quiet(s) && ip in s.shared.ipMap
    ensures Routes(s, ip, s.shared.ipMap[ip])
  {
    var id := s.shared.ipMap[ip];
    assert WasInserted(s, id, ip);
    if !InPhase(s, id, Closed) {
      assert InPhase(s, id, Serving(ip));
    }
  }

  lemma RoutedIsMapped(s: System, all: set<IP>, ip: IP)
    requires Clean(s, all) && ip in s.shared.natTable
    ensures ip in s.shared.ipMap && s.shared.ipMap[ip] == s.shared.natTable[ip] && ip in all
  {
    var id := s.shared.natTable[ip];
    assert LiveAt(s, id, ip);
    var owner :| Owned(s, owner);
    assert Holds(s, Live(id), ip);
  }

  /** In a quiet state of a run without kicks the two routing maps are the same map. */
  lemma QuietMapsAgree(addresses: seq<IP>, actions: seq<Action>, s: System)
    requires Distinct(addresses) && Reachable(addresses, actions, s) && NoKicks(actions) && Quiet(s)
    ensures s.shared.natTable == s.shared.ipMap
    ensures forall ip | ip in s.shared.natTable :: ip in addresses
  {
    hide Clean, Quiet, Reachable, Distinct, NoKicks;
    var all := Members(addresses);
    CleanRun(addresses, actions, s);
    forall ip | ip in s.shared.ipMap
      ensures Routes(s, ip, s.shared.ipMap[ip])
    {
      QuietSessionsServe(s, all, ip);
    }
    forall ip | ip in s.shared.natTable
      ensures ip in s.shared.ipMap && s.shared.ipMap[ip] == s.shared.natTable[ip] && ip in all
    {
      RoutedIsMapped(s, all, ip);
    }
  }
}
