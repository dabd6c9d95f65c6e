/** Sessions, pool, routing maps and NAT table under concurrency. Every region that the source runs under one
    lock is one atomic action; any number of handlers and kicks interleave. */
module Lifecycle {
  import opened Addresses
  import opened Pools

  /** A session id: 16 random bytes, taken to be unique to the handler that drew it. */
  type Id = nat

  /** Everything behind the locks: pool.mu guards pool, sm.mu guards sessions and ipMap, n.mu guards natTable.
      Sessions are named by id; a session's address never changes. */
  datatype Shared = Shared(pool: PoolState, sessions: map<Id, IP>, ipMap: map<IP, Id>, natTable: map<IP, Id>)

  // ---------------------------------------------------------------- the lock regions

  function InsertSession(s: Shared, id: Id, ip: IP): Shared {
    s.(sessions := s.sessions[id := ip], ipMap := s.ipMap[ip := id])
  }

  /** The locked part of RemoveSession; a missing id changes nothing. */
  function DeleteSession(s: Shared, id: Id): Shared {
    if id in s.sessions then s.(sessions := s.sessions - {id}, ipMap := s.ipMap - {s.sessions[id]}) else s
  }

  function RegisterNAT(s: Shared, ip: IP, id: Id): Shared {
    s.(natTable := s.natTable[ip := id])
  }

  function UnregisterNAT(s: Shared, ip: IP): Shared {
    s.(natTable := s.natTable - {ip})
  }

  function AllocateIP(s: Shared): Shared {
    s.(pool := Allocated(s.pool))
  }

  function ReleaseIP(s: Shared, ip: IP): Shared {
    s.(pool := Released(s.pool, ip))
  }

  // ---------------------------------------------------------------- threads

  /** Where a handler is: between its lock regions. Failed covers an exhausted pool and a failed key. */
  datatype Phase =
    | Creating(ip: IP)
    | Inserted(ip: IP)
    | Serving(ip: IP)
    | Closed
    | Failed

  /** A WebSocket handler or a UDP handshake; a handshake never cleans up. */
  datatype Handler = Handler(udp: bool, phase: Phase)

  /** Where a cleanupSession call is. */
  datatype Stage = Pending | Unregistered | Releasing | Finished

  /** A cleanupSession call for a session: a handler's deferred one, or one made by KickSession. */
  datatype Cleaner = Cleaner(id: Id, ip: IP, stage: Stage)

  datatype Actor = Own(id: Id) | Kicker(k: nat)

  /** released records on whose behalf the pool took addresses back from removed sessions. */
  datatype System = System(shared: Shared, handlers: map<Id, Handler>, cleaners: map<Actor, Cleaner>,
                           released: multiset<Id>)

  function Initial(addresses: seq<IP>): System {
    System(Shared(PoolState(addresses, {}), map[], map[], map[]), map[], map[], multiset{})
  }

  // ---------------------------------------------------------------- actions

  datatype Action =
    | Start(id: Id, udp: bool)     // a new handler allocates
    | KeyFails(id: Id)             // NewSession fails and the address goes back
    | Insert(id: Id)               // CreateSession's locked insertion into both maps
    | Register(id: Id)
    | Close(id: Id)                // the handler's deferred cleanup starts: Unregister
    | KickFind(k: nat, id: Id)     // KickSession's GetSession
    | KickUnregister(k: nat)
    | Remove(actor: Actor)         // RemoveSession's locked part
    | Release(actor: Actor)        // RemoveSession's release of the address

  predicate InPhase(s: System, id: Id, phase: Phase) {
    id in s.handlers && s.handlers[id].phase == phase
  }

  function Moved(s: System, id: Id, phase: Phase): map<Id, Handler>
    requires id in s.handlers
  {
    s.handlers[id := s.handlers[id].(phase := phase)]
  }

  predicate AtStage(s: System, actor: Actor, stage: Stage) {
    actor in s.cleaners && s.cleaners[actor].stage == stage
  }

  function Advanced(s: System, actor: Actor, stage: Stage): map<Actor, Cleaner>
    requires actor in s.cleaners
  {
    s.cleaners[actor := s.cleaners[actor].(stage := stage)]
  }

  predicate Enabled(s: System, a: Action) {
    match a
    case Start(id, _) => id !in s.handlers
    case KeyFails(id) => id in s.handlers && s.handlers[id].phase.Creating?
    case Insert(id) => id in s.handlers && s.handlers[id].phase.Creating?
    case Register(id) => id in s.handlers && s.handlers[id].phase.Inserted?
    case Close(id) => id in s.handlers && s.handlers[id].phase.Serving? && !s.handlers[id].udp
    case KickFind(k, id) => Kicker(k) !in s.cleaners && id in s.shared.sessions
    case KickUnregister(k) => AtStage(s, Kicker(k), Pending)
    case Remove(actor) => AtStage(s, actor, Unregistered)
    case Release(actor) => AtStage(s, actor, Releasing)
  }

  function Performed(s: System, a: Action): System
    requires Enabled(s, a)
  {
    match a
    case Start(id, udp) =>
      var ip := Issue(s.shared.pool);
      s.(shared := AllocateIP(s.shared),
         handlers := s.handlers[id := Handler(udp, if ip.Some? then Creating(ip.value) else Failed)])
    case KeyFails(id) =>
      s.(shared := ReleaseIP(s.shared, s.handlers[id].phase.ip), handlers := Moved(s, id, Failed))
    case Insert(id) =>
      var ip := s.handlers[id].phase.ip;
      s.(shared := InsertSession(s.shared, id, ip), handlers := Moved(s, id, Inserted(ip)))
    case Register(id) =>
      var ip := s.handlers[id].phase.ip;
      s.(shared := RegisterNAT(s.shared, ip, id), handlers := Moved(s, id, Serving(ip)))
    case Close(id) =>
      var ip := s.handlers[id].phase.ip;
      s.(shared := UnregisterNAT(s.shared, ip), handlers := Moved(s, id, Closed),
         cleaners := s.cleaners[Own(id) := Cleaner(id, ip, Unregistered)])
    case KickFind(k, id) =>
      s.(cleaners := s.cleaners[Kicker(k) := Cleaner(id, s.shared.sessions[id], Pending)])
    case KickUnregister(k) =>
      s.(shared := UnregisterNAT(s.shared, s.cleaners[Kicker(k)].ip), cleaners := Advanced(s, Kicker(k), Unregistered))
    case Remove(actor) =>
      var id := s.cleaners[actor].id;
      s.(shared := DeleteSession(s.shared, id),
         cleaners := Advanced(s, actor, if id in s.shared.sessions then Releasing else Finished))
    case Release(actor) =>
      var c := s.cleaners[actor];
      s.(shared := ReleaseIP(s.shared, c.ip), cleaners := Advanced(s, actor, Finished),
         released := s.released + multiset{c.id})
  }

  /** An action that is not enabled is skipped; so every sequence of actions is a run. */
  function Step(s: System, a: Action): System {
    if Enabled(s, a) then Performed(s, a) else s
  }

  function Run(s: System, actions: seq<Action>): System
    decreases |actions|
  {
    if actions == [] then s else Run(Step(s, actions[0]), actions[1..])
  }

  lemma {:induction false} RunAppend(s: System, front: seq<Action>, back: seq<Action>)
    ensures Run(s, front + back) == Run(Run(s, front), back)
    decreases |front|
  {
    if front == [] {
      assert front + back == back;
    } else {
      assert (front + back)[0] == front[0] && (front + back)[1..] == front[1..] + back;
      RunAppend(Step(s, front[0]), front[1..], back);
    }
  }
}
