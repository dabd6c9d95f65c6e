/** The two routing indexes agree: ipMap keyed by text, the NAT table keyed by number. */
module Routing {
  import opened Bytes
  import opened Addresses
  import opened Subnets
  import opened Lifecycle
  import opened NatInvariants
  import opened Sessions

  /** byIP holds the sessions that ids names, under their own addresses. */
  ghost predicate SessionsOf(byIP: map<IP, Session>, ids: map<IP, Id>) {
    byIP == map ip | ip in ids :: Session(ids[ip], ip)
  }

  /** For an IPv4 subnet, in every state of a run without kicks in which no handler is mid-lifecycle,
      RoutePacket's map and the NAT table choose the same session for every byte string, and that session's
      address is the packet's destination. */
  lemma IndexesAgree(n: Network, actions: seq<Action>, s: System,
                     texts: map<string, Session>, textIPs: map<IP, Session>,
                     numbers: map<uint32, Session>, numberIPs: map<IP, Session>, packet: seq<byte>)
    requires n.Valid() && s == Run(Initial(Usable(n)), actions) && NoKicks(actions) && Quiet(s)
    requires SessionsOf(textIPs, s.shared.ipMap) && Keyed(texts, textIPs, Text)
    requires SessionsOf(numberIPs, s.shared.natTable) && Keyed(numbers, numberIPs, IPToUint32)
    ensures ByText(texts, packet) == ByNumber(numbers, packet)
    ensures var r := ByText(texts, packet);
            r.Some? ==> DstIPFromPacket(packet).Some? && To4(DstIPFromPacket(packet).value) == Some(r.value.ip)
  {
    PoolCount(n);
    QuietMapsAgree(Usable(n), actions, s);
    UsableNumbered(n);
    assert forall ip | ip in s.shared.natTable :: ip in Usable(n);
    TablesAgree(texts, numbers, textIPs, packet);
  }

  // ---------------------------------------------------------------- why IPv4, why not 0

  const ZERO: IP := [0, 0, 0, 0]

  /** An IPv4 packet to 0.0.0.0. */
  const TO_ZERO: seq<byte> := [0x45, 0, 0, 0, 0, 0, 0, 0, 0, 0, 0, 0, 0, 0, 0, 0, 0, 0, 0, 0]

  const LOOPBACK6: IP := [0, 0, 0, 0, 0, 0, 0, 0, 0, 0, 0, 0, 0, 0, 0, 1]

  /** An IPv6 packet to ::1. */
  const TO_LOOPBACK6: seq<byte> := [0x60, 0, 0, 0] + [0, 0, 0, 0] + LOOPBACK6 + LOOPBACK6

  /** What a table with one session answers. */
  lemma OneByText(t: string, s: Session, packet: seq<byte>)
    ensures var dst := DstIPFromPacket(packet);
            ByText(map[t := s], packet) == if dst.Some? && Text(dst.value) == t then Some(s) else None
  {
  }

  lemma OneByNumber(n: uint32, s: Session, packet: seq<byte>)
    ensures var dst := DstIPFromPacket(packet);
            ByNumber(map[n := s], packet) == if dst.Some? && IPToUint32(dst.value) == n then Some(s) else None
  {
  }

  /** Text and number compare addresses alike when one of them has a nonzero number. */
  lemma KeysAgree(x: IP, y: IP)
    requires IPToUint32(y) != 0
    ensures Text(x) == Text(y) <==> IPToUint32(x) == IPToUint32(y)
  {
    var a := To4(y).value;
    assert To4(a) == Some(a) && IPToUint32(a) == IPToUint32(y);
    TextNamesIPv4(y, a);
    TextNamesIPv4(x, a);
    KeyNamesIPv4(x, a);
  }

  lemma OnAllPackets(s: Session, packet: seq<byte>)
    requires IPToUint32(s.ip) != 0
    ensures ByText(map[Text(s.ip) := s], packet) == ByNumber(map[IPToUint32(s.ip) := s], packet)
  {
    OneByText(Text(s.ip), s, packet);
    OneByNumber(IPToUint32(s.ip), s, packet);
    if DstIPFromPacket(packet).Some? {
      KeysAgree(DstIPFromPacket(packet).value, s.ip);
    }
  }

  lemma SamplePackets()
    ensures DstIPFromPacket(TO_ZERO) == Some(ZERO) && IPToUint32(ZERO) == 0
    ensures DstIPFromPacket(TO_LOOPBACK6) == Some(LOOPBACK6) && IPToUint32(LOOPBACK6) == 0
    ensures To4(LOOPBACK6) == None
  {
    assert TO_ZERO[16..20] == ZERO;
    assert U32(ZERO) == 0;
    assert TO_LOOPBACK6[24..40] == LOOPBACK6;
    assert LOOPBACK6[10] == 0;
  }

  /** A packet on which the two indexes disagree, for a session whose number is 0. */
  lemma ZeroKeyDisagrees(s: Session) returns (packet: seq<byte>)
    requires IPToUint32(s.ip) == 0
    ensures ByText(map[Text(s.ip) := s], packet) == None
    ensures ByNumber(map[IPToUint32(s.ip) := s], packet) == Some(s)
  {
    SamplePackets();
    ZeroKeyTexts(s.ip);
    packet := if To4(s.ip).None? then TO_ZERO else TO_LOOPBACK6;
    OneByText(Text(s.ip), s, packet);
    OneByNumber(IPToUint32(s.ip), s, packet);
  }

  lemma ZeroKeyTexts(ip: IP)
    ensures To4(ip).None? ==> Text(ZERO) != Text(ip)
    ensures To4(ip).Some? ==> Text(LOOPBACK6) != Text(ip)
  {
    TextNamesIPv4(ip, ZERO);
    if To4(ip).Some? {
      var a := To4(ip).value;
      assert To4(a) == Some(a) && To4(LOOPBACK6) == None by {
        SamplePackets();
      }
      TextNamesIPv4(ip, a);
      TextNamesIPv4(LOOPBACK6, a);
    }
  }

  /** For a single session the two indexes agree on every packet exactly if its 32-bit key is not 0; so the
      NAT table does not work for IPv6 subnets, whose addresses all get key 0. */
  lemma IndexesAgreeExactly(s: Session)
    ensures (forall packet ::
               ByText(map[Text(s.ip) := s], packet) == ByNumber(map[IPToUint32(s.ip) := s], packet))
            <==> IPToUint32(s.ip) != 0
  {
    if IPToUint32(s.ip) != 0 {
      forall packet
        ensures ByText(map[Text(s.ip) := s], packet) == ByNumber(map[IPToUint32(s.ip) := s], packet)
      {
        OnAllPackets(s, packet);
      }
    } else {
      var packet := ZeroKeyDisagrees(s);
    }
  }
}
