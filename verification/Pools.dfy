/** The address pool: a FIFO queue of free addresses and the set of used ones. */
module Pools {
  import opened Bytes
  import opened Addresses
  import opened Subnets

  datatype PoolState = PoolState(available: seq<IP>, used: set<IP>)

  /** Allocate's result: None when the pool is exhausted. */
  function Issue(p: PoolState): Option<IP> {
    if p.available == [] then None else Some(p.available[0])
  }

  function Allocated(p: PoolState): PoolState {
    if p.available == [] then p
    else PoolState(p.available[1..], p.used + {p.available[0]})
  }

  function Released(p: PoolState, ip: IP): PoolState {
    if ip in p.used then PoolState(p.available + [ip], p.used - {ip}) else p
  }

  // ---------------------------------------------------------------- the pool object

  class IPPool {
    const network: Network
    var available: seq<IP>
    var used: set<string>
    ghost var usedIPs: set<IP>

    /** The used map is keyed by text; the ghost set holds the addresses those texts name. */
    ghost predicate Valid()
      reads this
    {
      && (forall ip | ip in available :: IsIPv4(ip))
      && (forall ip | ip in usedIPs :: IsIPv4(ip) && Text(ip) in used)
      && (forall t | t in used :: exists ip | ip in usedIPs :: Text(ip) == t)
    }

    ghost function Value(): PoolState
      reads this
    {
      PoolState(available, usedIPs)
    }

    /** NewIPPool, for the network that net.ParseCIDR returned. */
    constructor (network: Network)
      requires network.Valid()
      ensures Valid() && this.network == network
      ensures Value() == PoolState(Usable(network), {})
    {
      this.network := network;
      used := {};
      usedIPs := {};
      available := [];
      new;
      var i := 2;
      while i <= 254
        invariant 2 <= i <= 255
        invariant available == Selected(network, i)
        invariant used == {} && usedIPs == {}
        invariant forall ip | ip in available :: IsIPv4(ip)
      {
        var addr := network.WithLast(i);
        if network.Contains(addr) {
          available := available + [addr];
        }
        i := i + 1;
      }
    }

    method Allocate() returns (r: Option<IP>)
      requires Valid()
      modifies this
      ensures Valid()
      ensures r == Issue(old(Value())) && Value() == Allocated(old(Value()))
      ensures r.Some? ==> IsIPv4(r.value)
    {
      if |available| == 0 {
        return None;
      }
      var ip := available[0];
      assert ip in available;
      available := available[1..];
      used := used + {Text(ip)};
      usedIPs := usedIPs + {ip};
      r := Some(ip);
    }

    method Release(ip: IP)
      requires Valid() && IsIPv4(ip)
      modifies this
      ensures Valid()
      ensures Value() == Released(old(Value()), ip)
    {
      var key := Text(ip);
      forall a | a in usedIPs
        ensures Text(a) == key <==> a == ip
      {
        TextNamesIPv4(a, ip);
      }
      if key !in used {
        return;
      }
      used := used - {key};
      usedIPs := usedIPs - {ip};
      available := available + [ip];
    }
  }

  // ---------------------------------------------------------------- conservation

  predicate Distinct(s: seq<IP>) {
    forall i, j | 0 <= i < j < |s| :: s[i] != s[j]
  }

  function Members(s: seq<IP>): set<IP> {
    set ip | ip in s
  }

  /** Free and used addresses partition the pool's addresses. */
  predicate Conserved(p: PoolState, all: set<IP>) {
    && Distinct(p.available)
    && Members(p.available) !! p.used
    && Members(p.available) + p.used == all
  }

  lemma AllocateConserves(p: PoolState, all: set<IP>)
    requires Conserved(p, all)
    ensures Conserved(Allocated(p), all)
  {
    if p.available != [] {
      var rest := p.available[1..];
      assert p.available == [p.available[0]] + rest;
      assert Members(p.available) == {p.available[0]} + Members(rest);
    }
  }

  lemma ReleaseConserves(p: PoolState, all: set<IP>, ip: IP)
    requires Conserved(p, all)
    ensures Conserved(Released(p, ip), all)
  {
    if ip in p.used {
      assert Members(p.available + [ip]) == Members(p.available) + {ip};
      assert ip !in p.available;
    }
  }

  lemma {:induction false} DistinctSize(s: seq<IP>)
    requires Distinct(s)
    ensures |Members(s)| == |s|
  {
    if s != [] {
      var init, last := s[..|s| - 1], s[|s| - 1];
      DistinctSize(init);
      assert s == init + [last];
      assert Members(s) == Members(init) + {last} && last !in init;
    }
  }

  /** How many addresses are out: all that are not queued. */
  lemma ConservedSize(p: PoolState, all: set<IP>)
    requires Conserved(p, all)
    ensures |p.used| == |all| - |p.available|
  {
    DistinctSize(p.available);
    assert p.used == all - Members(p.available);
  }

  /** A fresh pool is conserved, with at most 253 addresses. */
  lemma FreshPool(n: Network)
    requires n.Valid()
    ensures Conserved(PoolState(Usable(n), {}), Members(Usable(n)))
    ensures |Members(Usable(n))| == |Usable(n)| <= 253
  {
    PoolCount(n);
    DistinctSize(Usable(n));
  }

  // ---------------------------------------------------------------- runs

  datatype PoolOp = TakeNext | GiveBack(ip: IP)

  function AfterOp(p: PoolState, op: PoolOp): PoolState {
    match op
    case TakeNext => Allocated(p)
    case GiveBack(ip) => Released(p, ip)
  }

  function AfterOps(p: PoolState, ops: seq<PoolOp>): PoolState
    decreases |ops|
  {
    if ops == [] then p else AfterOps(AfterOp(p, ops[0]), ops[1..])
  }

  /** The addresses a run issues, in order. */
  function Issued(p: PoolState, ops: seq<PoolOp>): seq<IP>
    decreases |ops|
  {
    if ops == [] then []
    else (if ops[0].TakeNext? && p.available != [] then [p.available[0]] else [])
         + Issued(AfterOp(p, ops[0]), ops[1..])
  }

  /** The addresses a run takes back, in order. */
  function TakenBack(p: PoolState, ops: seq<PoolOp>): seq<IP>
    decreases |ops|
  {
    if ops == [] then []
    else (if ops[0].GiveBack? && ops[0].ip in p.used then [ops[0].ip] else [])
         + TakenBack(AfterOp(p, ops[0]), ops[1..])
  }

  lemma {:induction false} RunConserves(p: PoolState, all: set<IP>, ops: seq<PoolOp>)
    requires Conserved(p, all)
    ensures Conserved(AfterOps(p, ops), all)
    decreases |ops|
  {
    if ops != [] {
      match ops[0] {
        case TakeNext => AllocateConserves(p, all);
        case GiveBack(ip) => ReleaseConserves(p, all, ip);
      }
      RunConserves(AfterOp(p, ops[0]), all, ops[1..]);
    }
  }

  /** The queue law of a step: what is issued leaves at the front, what comes back joins at the end. */
  lemma StepFIFO(issued: seq<IP>, more: seq<IP>, final: seq<IP>, before: seq<IP>, after: seq<IP>,
                 back: seq<IP>, moreBack: seq<IP>)
    requires more + final == after + moreBack && issued + after == before + back
    ensures (issued + more) + final == before + (back + moreBack)
  {
    assert (issued + more) + final == issued + (more + final);
    assert issued + (after + moreBack) == (issued + after) + moreBack;
    assert (before + back) + moreBack == before + (back + moreBack);
  }

  /** First in, first out, over any run: the issued addresses followed by the final queue are the initial
      queue followed by what came back. */
  lemma {:induction false} PoolIsFIFO(p: PoolState, ops: seq<PoolOp>)
    ensures Issued(p, ops) + AfterOps(p, ops).available == p.available + TakenBack(p, ops)
    decreases |ops|
  {
    if ops == [] {
    } else {
      var q := AfterOp(p, ops[0]);
      var issued := if ops[0].TakeNext? && p.available != [] then [p.available[0]] else [];
      var back := if ops[0].GiveBack? && ops[0].ip in p.used then [ops[0].ip] else [];
      PoolIsFIFO(q, ops[1..]);
      assert issued + q.available == p.available + back;
      StepFIFO(issued, Issued(q, ops[1..]), AfterOps(q, ops[1..]).available, p.available, q.available,
               back, TakenBack(q, ops[1..]));
    }
  }

  /** Fairness: an address at position k of the queue is the one issued by the (k+1)-th allocation, whatever
      is released meanwhile; before that it stays queued, so it is not issued. */
  lemma QueuedInTurn(p: PoolState, all: set<IP>, ops: seq<PoolOp>, k: nat)
    requires Conserved(p, all) && k < |p.available|
    ensures |Issued(p, ops)| > k ==> Issued(p, ops)[k] == p.available[k]
    ensures |Issued(p, ops)| <= k ==>
              p.available[k] !in Issued(p, ops) && p.available[k] in AfterOps(p, ops).available
  {
    PoolIsFIFO(p, ops);
    var issued, final := Issued(p, ops), AfterOps(p, ops).available;
    assert (issued + final)[k] == (p.available + TakenBack(p, ops))[k] == p.available[k];
    if |issued| <= k {
      assert final[k - |issued|] == p.available[k];
      forall i | 0 <= i < |issued|
        ensures issued[i] != p.available[k]
      {
        assert (issued + final)[i] == issued[i] == p.available[i];
      }
    }
  }
}
