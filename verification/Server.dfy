/** The server's session calls as objects run them undisturbed, and as runs of the interleaving model. */
module Server {
  import opened Bytes
  import opened Addresses
  import opened Subnets
  import opened Pools
  import opened Lifecycle
  import opened Sessions

  /** What handleClient and the UDP handshake do to start a session, on values. */
  function Started(s: Shared, id: Id, ip: IP): Shared {
    RegisterNAT(InsertSession(AllocateIP(s), id, ip), ip, id)
  }

  /** What cleanupSession does, on values: Unregister, then RemoveSession. */
  function CleanedUp(s: Shared, id: Id, ip: IP): Shared {
    var u := UnregisterNAT(s, ip);
    if id in u.sessions then ReleaseIP(DeleteSession(u, id), u.sessions[id]) else u
  }

  predicate AllNumbered(ips: seq<IP>) {
    forall ip | ip in ips :: Numbered(ip)
  }

  predicate WellNamed(sessions: map<Id, Session>) {
    forall id | id in sessions :: Numbered(sessions[id].ip) && sessions[id].id == id
  }

  lemma NumberedStays(p: PoolState, ip: IP)
    requires AllNumbered(p.available)
    ensures AllNumbered(Allocated(p).available) && AllNumbered(PutBack(p).available)
    ensures p.available != [] ==> Numbered(p.available[0])
    ensures Numbered(ip) ==> AllNumbered(Released(p, ip).available)
  {
  }

  lemma WellNamedStays(sessions: map<Id, Session>, s: Session)
    requires WellNamed(sessions)
    ensures Numbered(s.ip) ==> WellNamed(sessions[s.id := s])
    ensures WellNamed(sessions - {s.id})
  {
  }

  class Server {
    const sessions: SessionManager
    const natTable: NATTable

    ghost predicate Valid()
      reads this, sessions, sessions.ipPool, natTable
    {
      && sessions.Valid() && natTable.Valid()
      && AllNumbered(sessions.ipPool.available) && WellNamed(sessions.sessions)
    }

    ghost function Value(): Shared
      reads this, sessions, sessions.ipPool, natTable
    {
      SharedOf(sessions.ipPool.Value(), sessions.sessions, sessions.byIP, natTable.byIP)
    }

    constructor (network: Network)
      requires network.Valid()
      ensures Valid() && fresh(sessions) && fresh(sessions.ipPool) && fresh(natTable)
      ensures Value() == Initial(Usable(network)).shared
    {
      sessions := new SessionManager(network);
      natTable := new NATTable();
      new;
      UsableNumbered(network);
    }

    method Create(id: Id, keyOk: bool) returns (r: Option<Session>)
      requires Valid()
      modifies sessions, sessions.ipPool
      ensures Valid()
      ensures var ip := Issue(old(Value()).pool);
              r == if ip.Some? && keyOk then Some(Session(id, ip.value)) else None
      ensures r.Some? ==> Numbered(r.value.ip) && Value() == InsertSession(AllocateIP(old(Value())), id, r.value.ip)
      ensures r.None? ==> Value() == old(Value()).(pool := PutBack(old(Value()).pool))
    {
      ghost var pool, all, byIP, n := sessions.ipPool.Value(), sessions.sessions, sessions.byIP, natTable.byIP;
      NumberedStays(pool, []);
      r := sessions.CreateSession(id, keyOk);
      if r.Some? {
        WellNamedStays(all, r.value);
        SharedInsert(Allocated(pool), all, byIP, n, r.value);
      }
    }

    method Register(s: Session)
      requires Valid() && Numbered(s.ip)
      modifies natTable
      ensures Valid() && Value() == RegisterNAT(old(Value()), s.ip, s.id)
    {
      SharedNAT(sessions.ipPool.Value(), sessions.sessions, sessions.byIP, natTable.byIP, s);
      natTable.Register(s.ip, s);
    }

    /** CreateSession, then Register: the start of handleClient, and the H1 branch of the UDP loop. */
    method StartSession(id: Id, keyOk: bool) returns (r: Option<Session>)
      requires Valid()
      modifies sessions, sessions.ipPool, natTable
      ensures Valid()
      ensures var ip := Issue(old(Value()).pool);
              r == if ip.Some? && keyOk then Some(Session(id, ip.value)) else None
      ensures r.Some? ==> Value() == Started(old(Value()), id, r.value.ip)
      ensures r.None? ==> Value() == old(Value()).(pool := PutBack(old(Value()).pool))
    {
      r := Create(id, keyOk);
      if r.Some? {
        Register(r.value);
      }
    }

    method CleanupSession(session: Session)
      requires Valid() && Numbered(session.ip)
      modifies sessions, sessions.ipPool, natTable
      ensures Valid()
      ensures Value() == CleanedUp(old(Value()), session.id, session.ip)
    {
      ghost var pool, all, byIP, n := sessions.ipPool.Value(), sessions.sessions, sessions.byIP, natTable.byIP;
      NumberedStays(pool, session.ip);
      WellNamedStays(all, session);
      natTable.Unregister(session.ip);
      SharedNAT(pool, all, byIP, n, session);
      sessions.RemoveSession(session.id);
      if session.id in all {
        SharedDelete(pool, all, byIP, n - {session.ip}, session.id);
      }
    }

    method KickSession(id: Id) returns (found: bool)
      requires Valid()
      modifies sessions, sessions.ipPool, natTable
      ensures Valid()
      ensures var before := old(Value());
              && found == (id in before.sessions)
              && Value() == if found then CleanedUp(before, id, before.sessions[id]) else before
    {
      if id !in sessions.sessions {
        return false;
      }
      CleanupSession(sessions.sessions[id]);
      return true;
    }
  }

  // ---------------------------------------------------------------- calls are runs

  /** An undisturbed start is its three lock regions in a row. */
  lemma StartIsRun(s: System, id: Id, udp: bool)
    requires id !in s.handlers && s.shared.pool.available != []
    ensures Run(s, [Start(id, udp), Insert(id), Register(id)]).shared
         == Started(s.shared, id, s.shared.pool.available[0])
  {
    var ip := s.shared.pool.available[0];
    var s1 := Step(s, Start(id, udp));
    assert InPhase(s1, id, Creating(ip));
    var s2 := Step(s1, Insert(id));
    assert InPhase(s2, id, Inserted(ip));
    var s3 := Step(s2, Register(id));
    assert Run(s2, [Register(id)]) == s3;
    assert Run(s1, [Insert(id), Register(id)]) == s3;
  }

  /** So is a start that fails: with an address but no key it is two lock regions, which move the address to
      the end of the queue; with no address it is one, which changes nothing. */
  lemma FailedStartIsRun(s: System, id: Id, udp: bool)
    requires id !in s.handlers
    ensures s.shared.pool.available != [] ==>
              Run(s, [Start(id, udp), KeyFails(id)]).shared == s.shared.(pool := PutBack(s.shared.pool))
    ensures s.shared.pool.available == [] ==>
              Run(s, [Start(id, udp)]).shared == s.shared == s.shared.(pool := PutBack(s.shared.pool))
  {
    var s1 := Step(s, Start(id, udp));
    assert Run(s, [Start(id, udp)]) == s1;
    var s2 := Step(s1, KeyFails(id));
    assert Run(s1, [KeyFails(id)]) == s2;
  }

  lemma RemovalIsRun(s: System, actor: Actor)
    requires AtStage(s, actor, Unregistered)
    requires s.cleaners[actor].id in s.shared.sessions ==>
               s.shared.sessions[s.cleaners[actor].id] == s.cleaners[actor].ip
    ensures var id := s.cleaners[actor].id;
            Run(s, [Remove(actor), Release(actor)]).shared
            == if id in s.shared.sessions then ReleaseIP(DeleteSession(s.shared, id), s.shared.sessions[id])
               else s.shared
  {
    var s1 := Step(s, Remove(actor));
    var s2 := Step(s1, Release(actor));
    assert Run(s1, [Release(actor)]) == s2;
  }

  /** An undisturbed kick is its four lock regions in a row. */
  lemma KickIsRun(s: System, k: nat, id: Id)
    requires Kicker(k) !in s.cleaners && id in s.shared.sessions
    ensures Run(s, [KickFind(k, id), KickUnregister(k)] + [Remove(Kicker(k)), Release(Kicker(k))]).shared
         == CleanedUp(s.shared, id, s.shared.sessions[id])
  {
    var s1 := Step(s, KickFind(k, id));
    var s2 := Step(s1, KickUnregister(k));
    assert Run(s1, [KickUnregister(k)]) == s2;
    RunAppend(s, [KickFind(k, id), KickUnregister(k)], [Remove(Kicker(k)), Release(Kicker(k))]);
    RemovalIsRun(s2, Kicker(k));
  }

  /** So is a handler's deferred cleanup. */
  lemma CloseIsRun(s: System, id: Id, ip: IP)
    requires InPhase(s, id, Serving(ip)) && !s.handlers[id].udp
    requires id in s.shared.sessions ==> s.shared.sessions[id] == ip
    ensures Run(s, [Close(id)] + [Remove(Own(id)), Release(Own(id))]).shared == CleanedUp(s.shared, id, ip)
  {
    var s1 := Step(s, Close(id));
    assert Run(s, [Close(id)]) == s1;
    RunAppend(s, [Close(id)], [Remove(Own(id)), Release(Own(id))]);
    RemovalIsRun(s1, Own(id));
  }
}
