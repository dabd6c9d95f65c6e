/** The session manager, the NAT table and the server around them, as objects; undisturbed calls. */
module Sessions {
  import opened Bytes
  import opened Addresses
  import opened Subnets
  import opened Pools
  import opened Lifecycle

  /** The fields of a session that routing uses; they never change. */
  datatype Session = Session(id: Id, ip: IP)

  // ---------------------------------------------------------------- maps keyed by text and by number

  /** m holds, under the key of each address, what byIP holds under the address, and nothing else. */
  ghost predicate Keyed<K>(m: map<K, Session>, byIP: map<IP, Session>, key: IP -> K) {
    && (forall ip | ip in byIP :: key(ip) in m && m[key(ip)] == byIP[ip])
    && (forall k | k in m :: exists ip :: ip in byIP && key(ip) == k)
  }

  lemma KeyedInsert<K>(m: map<K, Session>, byIP: map<IP, Session>, key: IP -> K, ip: IP, s: Session)
    requires Keyed(m, byIP, key) && forall a | a in byIP :: key(a) == key(ip) ==> a == ip
    ensures Keyed(m[key(ip) := s], byIP[ip := s], key)
  {
    var bigger := m[key(ip) := s];
    forall k | k in bigger
      ensures exists a :: a in byIP[ip := s] && key(a) == k
    {
      if k == key(ip) {
        assert ip in byIP[ip := s];
      } else {
        var a :| a in byIP && key(a) == k;
        assert a in byIP[ip := s];
      }
    }
  }

  lemma KeyedDelete<K>(m: map<K, Session>, byIP: map<IP, Session>, key: IP -> K, ip: IP)
    requires Keyed(m, byIP, key) && forall a | a in byIP :: key(a) == key(ip) ==> a == ip
    ensures Keyed(m - {key(ip)}, byIP - {ip}, key)
  {
    var smaller := m - {key(ip)};
    forall k | k in smaller
      ensures exists a :: a in byIP - {ip} && key(a) == k
    {
      var a :| a in byIP && key(a) == k;
      assert a in byIP - {ip};
    }
  }

  lemma KeyedFinds<K>(m: map<K, Session>, byIP: map<IP, Session>, key: IP -> K, ip: IP)
    requires Keyed(m, byIP, key) && forall a | a in byIP :: key(ip) == key(a) <==> To4(ip) == Some(a)
    ensures Named(byIP, ip) == if key(ip) in m then Some(m[key(ip)]) else None
  {
  }

  /** An IPv4 address other than 0.0.0.0, which every address of a pool is. */
  predicate Numbered(ip: IP) {
    IsIPv4(ip) && IPToUint32(ip) != 0
  }

  lemma UsableNumbered(n: Network)
    requires n.Valid()
    ensures forall ip | ip in Usable(n) :: Numbered(ip)
  {
    PoolCount(n);
    forall ip | ip in Usable(n)
      ensures Numbered(ip)
    {
      PoolMembers(n, ip);
    }
  }

  ghost predicate TextKeyed(m: map<string, Session>, byIP: map<IP, Session>) {
    Keyed(m, byIP, Text) && forall ip | ip in byIP :: IsIPv4(ip)
  }

  ghost predicate NumberKeyed(m: map<uint32, Session>, byIP: map<IP, Session>) {
    Keyed(m, byIP, IPToUint32) && forall ip | ip in byIP :: Numbered(ip)
  }

  /** The text of an IPv4 address, or of its mapped form, names it among IPv4 addresses. */
  lemma TextNames(byIP: map<IP, Session>, ip: IP)
    requires forall a | a in byIP :: IsIPv4(a)
    ensures forall a | a in byIP :: Text(ip) == Text(a) <==> To4(ip) == Some(a)
  {
    forall a | a in byIP
      ensures Text(ip) == Text(a) <==> To4(ip) == Some(a)
    {
      TextNamesIPv4(ip, a);
    }
  }

  lemma NumberNames(byIP: map<IP, Session>, ip: IP)
    requires forall a | a in byIP :: Numbered(a)
    ensures forall a | a in byIP :: IPToUint32(ip) == IPToUint32(a) <==> To4(ip) == Some(a)
  {
    forall a | a in byIP
      ensures IPToUint32(ip) == IPToUint32(a) <==> To4(ip) == Some(a)
    {
      KeyNamesIPv4(ip, a);
    }
  }

  /** Whom an address names: an IPv4 address or its mapped form, looked up among IPv4 addresses. */
  function Named(byIP: map<IP, Session>, ip: IP): Option<Session> {
    var a := To4(ip);
    if a.Some? && a.value in byIP then Some(byIP[a.value]) else None
  }

  // ---------------------------------------------------------------- packets to sessions

  datatype RouteError = PacketTooShort | UnsupportedVersion | NoSession

  /** The session whose address is the destination of a packet. */
  function Destination(byIP: map<IP, Session>, packet: seq<byte>): Option<Session> {
    var dst := DstIPFromPacket(packet);
    if dst.None? then None else Named(byIP, dst.value)
  }

  /** What a table keyed by text answers for a packet's destination. */
  function ByText(m: map<string, Session>, packet: seq<byte>): Option<Session> {
    var dst := DstIPFromPacket(packet);
    if dst.Some? && Text(dst.value) in m then Some(m[Text(dst.value)]) else None
  }

  /** What a table keyed by number answers. */
  function ByNumber(m: map<uint32, Session>, packet: seq<byte>): Option<Session> {
    var dst := DstIPFromPacket(packet);
    if dst.Some? && IPToUint32(dst.value) in m then Some(m[IPToUint32(dst.value)]) else None
  }

  // ---------------------------------------------------------------- the shared state they stand for

  function AddressesOf(sessions: map<Id, Session>): map<Id, IP> {
    map id | id in sessions :: sessions[id].ip
  }

  function IdsOf(byIP: map<IP, Session>): map<IP, Id> {
    map ip | ip in byIP :: byIP[ip].id
  }

  /** The shared state of the interleaving model that the objects' contents stand for. */
  function SharedOf(pool: PoolState, sessions: map<Id, Session>, byIP: map<IP, Session>, natByIP: map<IP, Session>)
    : Shared
  {
    Shared(pool, AddressesOf(sessions), IdsOf(byIP), IdsOf(natByIP))
  }

  lemma SharedInsert(pool: PoolState, sessions: map<Id, Session>, byIP: map<IP, Session>, n: map<IP, Session>,
                     s: Session)
    ensures SharedOf(pool, sessions[s.id := s], byIP[s.ip := s], n)
         == InsertSession(SharedOf(pool, sessions, byIP, n), s.id, s.ip)
  {
    assert AddressesOf(sessions[s.id := s]) == AddressesOf(sessions)[s.id := s.ip];
    assert IdsOf(byIP[s.ip := s]) == IdsOf(byIP)[s.ip := s.id];
  }

  lemma SharedDelete(pool: PoolState, sessions: map<Id, Session>, byIP: map<IP, Session>, n: map<IP, Session>, id: Id)
    requires id in sessions
    ensures SharedOf(pool, sessions - {id}, byIP - {sessions[id].ip}, n)
         == DeleteSession(SharedOf(pool, sessions, byIP, n), id)
  {
    assert AddressesOf(sessions - {id}) == AddressesOf(sessions) - {id};
    assert IdsOf(byIP - {sessions[id].ip}) == IdsOf(byIP) - {sessions[id].ip};
  }

  lemma SharedNAT(pool: PoolState, sessions: map<Id, Session>, byIP: map<IP, Session>, n: map<IP, Session>, s: Session)
    ensures SharedOf(pool, sessions, byIP, n[s.ip := s]) == RegisterNAT(SharedOf(pool, sessions, byIP, n), s.ip, s.id)
    ensures SharedOf(pool, sessions, byIP, n - {s.ip}) == UnregisterNAT(SharedOf(pool, sessions, byIP, n), s.ip)
  {
    assert IdsOf(n[s.ip := s]) == IdsOf(n)[s.ip := s.id];
    assert IdsOf(n - {s.ip}) == IdsOf(n) - {s.ip};
  }

  /** A creation that fails leaves at most a moved queue: the address it took goes to the end. */
  function PutBack(p: PoolState): PoolState {
    var ip := Issue(p);
    if ip.Some? then Released(Allocated(p), ip.value) else p
  }

  // ---------------------------------------------------------------- the objects

  class NATTable {
    var entries: map<uint32, Session>
    ghost var byIP: map<IP, Session>

    ghost predicate Valid()
      reads this
    {
      NumberKeyed(entries, byIP)
    }

    constructor ()
      ensures Valid() && byIP == map[]
    {
      entries := map[];
      byIP := map[];
    }

    /** The entries as the source keeps them; and the sessions they stand for, if the address has a number
        of its own. */
    method Register(ip: IP, session: Session)
      modifies this
      ensures entries == old(entries)[IPToUint32(ip) := session] && byIP == old(byIP)[ip := session]
      ensures old(Valid()) && Numbered(ip) ==> Valid()
    {
      if Valid() && Numbered(ip) {
        NumberNames(byIP, ip);
        KeyedInsert(entries, byIP, IPToUint32, ip, session);
      }
      entries := entries[IPToUint32(ip) := session];
      byIP := byIP[ip := session];
    }

    method Unregister(ip: IP)
      modifies this
      ensures entries == old(entries) - {IPToUint32(ip)} && byIP == old(byIP) - {ip}
      ensures old(Valid()) && Numbered(ip) ==> Valid()
    {
      if Valid() && Numbered(ip) {
        NumberNames(byIP, ip);
        KeyedDelete(entries, byIP, IPToUint32, ip);
      }
      entries := entries - {IPToUint32(ip)};
      byIP := byIP - {ip};
    }

    method LookupByIP(ip: IP) returns (r: Option<Session>)
      ensures r == if IPToUint32(ip) in entries then Some(entries[IPToUint32(ip)]) else None
      ensures Valid() ==> r == Named(byIP, ip)
    {
      if Valid() {
        NumberNames(byIP, ip);
        KeyedFinds(entries, byIP, IPToUint32, ip);
      }
      var key := IPToUint32(ip);
      r := if key in entries then Some(entries[key]) else None;
    }

    method LookupByPacketDst(packet: seq<byte>) returns (r: Option<Session>)
      ensures r == ByNumber(entries, packet)
      ensures Valid() ==> r == Destination(byIP, packet)
    {
      var dstIP := DstIPFromPacket(packet);
      if dstIP.None? {
        return None;
      }
      r := LookupByIP(dstIP.value);
    }
  }

  class SessionManager {
    var sessions: map<Id, Session>
    var ipMap: map<string, Session>
    const ipPool: IPPool
    ghost var byIP: map<IP, Session>

    ghost predicate Valid()
      reads this, ipPool
    {
      && ipPool.Valid()
      && TextKeyed(ipMap, byIP)
      && (forall id | id in sessions :: IsIPv4(sessions[id].ip))
    }

    constructor (network: Network)
      requires network.Valid()
      ensures Valid() && fresh(ipPool)
      ensures ipPool.Value() == PoolState(Usable(network), {}) && sessions == map[] && byIP == map[]
    {
      ipPool := new IPPool(network);
      sessions := map[];
      ipMap := map[];
      byIP := map[];
    }

    /** CreateSession; keyOk says whether the random session key could be drawn. */
    method CreateSession(id: Id, keyOk: bool) returns (r: Option<Session>)
      requires Valid()
      modifies this, ipPool
      ensures Valid()
      ensures var ip := Issue(old(ipPool.Value()));
              r == if ip.Some? && keyOk then Some(Session(id, ip.value)) else None
      ensures r.Some? ==>
                && ipPool.Value() == Allocated(old(ipPool.Value())) && IsIPv4(r.value.ip)
                && sessions == old(sessions)[id := r.value] && byIP == old(byIP)[r.value.ip := r.value]
      ensures r.None? ==>
                && ipPool.Value() == PutBack(old(ipPool.Value()))
                && sessions == old(sessions) && byIP == old(byIP)
    {
      var ip := ipPool.Allocate();
      if ip.None? {
        return None;
      }
      if !keyOk {
        ipPool.Release(ip.value);
        return None;
      }
      var session := Session(id, ip.value);
      TextNames(byIP, ip.value);
      KeyedInsert(ipMap, byIP, Text, ip.value, session);
      sessions := sessions[id := session];
      ipMap := ipMap[Text(ip.value) := session];
      byIP := byIP[ip.value := session];
      r := Some(session);
    }

    method GetSessionByIP(ip: IP) returns (r: Option<Session>)
      requires Valid()
      ensures r == Named(byIP, ip)
    {
      TextNames(byIP, ip);
      KeyedFinds(ipMap, byIP, Text, ip);
      var key := Text(ip);
      r := if key in ipMap then Some(ipMap[key]) else None;
    }

    method RemoveSession(id: Id)
      requires Valid()
      modifies this, ipPool
      ensures Valid()
      ensures if id in old(sessions) then
                var ip := old(sessions)[id].ip;
                && ipPool.Value() == Released(old(ipPool.Value()), ip)
                && sessions == old(sessions) - {id} && byIP == old(byIP) - {ip}
              else
                ipPool.Value() == old(ipPool.Value()) && sessions == old(sessions) && byIP == old(byIP)
    {
      if id !in sessions {
        return;
      }
      var session := sessions[id];
      TextNames(byIP, session.ip);
      KeyedDelete(ipMap, byIP, Text, session.ip);
      sessions := sessions - {id};
      ipMap := ipMap - {Text(session.ip)};
      byIP := byIP - {session.ip};
      ipPool.Release(session.ip);
    }

    /** RoutePacket up to the choice of the session; sending is left out. */
    method RoutePacket(packet: seq<byte>) returns (r: Result<Session, RouteError>)
      requires Valid()
      ensures r.Ok? ==> Destination(byIP, packet) == Some(r.value)
      ensures r.Err? ==> Destination(byIP, packet) == None
      ensures r == Err(PacketTooShort) <==> |packet| < 20
      ensures r == Err(UnsupportedVersion) <==> |packet| >= 20 && DstIPFromPacket(packet).None?
    {
      if |packet| < 20 {
        return Err(PacketTooShort);
      }
      var version := packet[0] / 16;
      var dstIP: IP := [];
      if version == 4 {
        dstIP := packet[16..20];
      } else if version == 6 && |packet| >= 40 {
        dstIP := packet[24..40];
      } else {
        return Err(UnsupportedVersion);
      }
      var session := GetSessionByIP(dstIP);
      r := if session.None? then Err(NoSession) else Ok(session.value);
    }
  }

  /** Two tables that hold the same sessions, one keyed by text and one by number, choose the same session
      for every packet whatsoever: the one whose address is the packet's destination, plain or mapped. */
  lemma TablesAgree(texts: map<string, Session>, numbers: map<uint32, Session>, byIP: map<IP, Session>,
                    packet: seq<byte>)
    requires TextKeyed(texts, byIP) && NumberKeyed(numbers, byIP)
    requires forall ip | ip in byIP :: byIP[ip].ip == ip
    ensures ByText(texts, packet) == ByNumber(numbers, packet)
    ensures var r := ByText(texts, packet);
            r.Some? ==> DstIPFromPacket(packet).Some? && To4(DstIPFromPacket(packet).value) == Some(r.value.ip)
  {
    var dst := DstIPFromPacket(packet);
    if dst.Some? {
      TextNames(byIP, dst.value);
      KeyedFinds(texts, byIP, Text, dst.value);
      NumberNames(byIP, dst.value);
      KeyedFinds(numbers, byIP, IPToUint32, dst.value);
    }
  }
}
