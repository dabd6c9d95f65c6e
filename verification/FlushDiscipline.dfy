/** The documented use of the batch encoder: Flush whenever Add returns true. */
module FlushDiscipline {
  import opened Bytes
  import opened Batches

  /** The batches flushed while a stream is added behind the pending packets, and what is still pending. */
  function Flushes(pending: seq<Packet>, stream: seq<Packet>): (seq<seq<Packet>>, seq<Packet>)
    decreases |stream|
  {
    if stream == [] then ([], pending) else
    var next := pending + [stream[0]];
    if ShouldFlush(next) then
      var (batches, rest) := Flushes([], stream[1..]);
      ([next] + batches, rest)
    else Flushes(next, stream[1..])
  }

  /** The payloads of the batches. */
  function Payloads(batches: seq<seq<Packet>>): seq<seq<byte>> {
    seq(|batches|, i requires 0 <= i < |batches| => BatchBytes(batches[i]))
  }

  lemma OneMorePayload(batches: seq<seq<Packet>>, b: seq<Packet>)
    ensures Payloads(batches + [b]) == Payloads(batches) + [BatchBytes(b)]
  {
  }

  /** How Flushes goes on when some batches have been flushed already. */
  function Flushed(done: seq<seq<Packet>>, pending: seq<Packet>, stream: seq<Packet>): (seq<seq<Packet>>, seq<Packet>) {
    (done + Flushes(pending, stream).0, Flushes(pending, stream).1)
  }

  lemma FlushedStep(done: seq<seq<Packet>>, pending: seq<Packet>, stream: seq<Packet>)
    requires stream != []
    ensures var next := pending + [stream[0]];
            Flushed(done, pending, stream) ==
              if ShouldFlush(next) then Flushed(done + [next], [], stream[1..]) else Flushed(done, next, stream[1..])
  {
    var next := pending + [stream[0]];
    if ShouldFlush(next) {
      Regroup(done, [next], Flushes([], stream[1..]).0);
    }
  }

  /** The encoder used as its comments ask: every packet added, and a Flush whenever Add returns true. The
      payloads are the batches of Flushes, and the encoder is left with what Flushes leaves pending. */
  method FeedEncoder(encoder: BatchEncoder, stream: seq<Packet>) returns (payloads: seq<seq<byte>>)
    requires encoder.Valid()
    modifies encoder
    ensures encoder.Valid()
    ensures payloads == Payloads(Flushes(old(encoder.packets), stream).0)
    ensures encoder.packets == Flushes(old(encoder.packets), stream).1
  {
    hide Flushes, BatchBytes, ShouldFlush, EntriesSize, Payloads, Flushed;
    payloads := [];
    ghost var done: seq<seq<Packet>> := [];
    var i := 0;
    FlushedFirst(encoder.packets, stream);
    assert stream[0..] == stream;
    while i < |stream|
      invariant 0 <= i <= |stream| && encoder.Valid()
      invariant payloads == Payloads(done)
      invariant Flushed(done, encoder.packets, stream[i..]) == Flushes(old(encoder.packets), stream)
    {
      ghost var rest := stream[i..];
      assert rest[0] == stream[i] && rest[1..] == stream[i + 1..];
      FlushedStep(done, encoder.packets, rest);
      var flush := encoder.Add(stream[i]);
      if flush {
        ghost var full := encoder.packets;
        OneMorePayload(done, full);
        var data := encoder.Flush();
        payloads := payloads + [data.value];
        done := done + [full];
      }
      i := i + 1;
    }
    assert stream[i..] == [];
    FlushedLast(done, encoder.packets);
  }

  lemma FlushedFirst(pending: seq<Packet>, stream: seq<Packet>)
    ensures Flushed([], pending, stream) == Flushes(pending, stream) && Payloads([]) == []
  {
    assert [] + Flushes(pending, stream).0 == Flushes(pending, stream).0;
  }

  lemma FlushedLast(done: seq<seq<Packet>>, pending: seq<Packet>)
    ensures Flushed(done, pending, []) == (done, pending)
  {
    assert done + [] == done;
  }

  function Flatten(batches: seq<seq<Packet>>): seq<Packet> {
    if batches == [] then [] else batches[0] + Flatten(batches[1..])
  }

  predicate AtMost(limit: nat, ps: seq<Packet>) {
    forall p | p in ps :: |p| <= limit
  }

  /** A batch payload that a frame's 16-bit length field can hold, made of a carriable batch. */
  predicate Fits(b: seq<Packet>) {
    Carriable(b) && |BatchBytes(b)| < 0x1_0000
  }

  /** Nothing is lost, duplicated or reordered between Add and Flush. */
  lemma {:induction false} FlushesConserve(pending: seq<Packet>, stream: seq<Packet>)
    ensures var (batches, rest) := Flushes(pending, stream);
            Flatten(batches) + rest == pending + stream
    decreases |stream|
  {
    if stream == [] {
      assert pending + stream == pending;
    } else {
      var next := pending + [stream[0]];
      assert pending + stream == next + stream[1..];
      if ShouldFlush(next) {
        FlushesConserve([], stream[1..]);
        var (batches, rest) := Flushes([], stream[1..]);
        assert ([next] + batches)[1..] == batches;
        assert next + Flatten(batches) + rest == next + (Flatten(batches) + rest);
      } else {
        FlushesConserve(next, stream[1..]);
      }
    }
  }

  /** A batch is flushed when it is due and not before: it has 64 packets or 60000 bytes of entries, and
      without its last packet it had neither. */
  lemma {:induction false} FlushedWhenDue(pending: seq<Packet>, stream: seq<Packet>)
    requires !ShouldFlush(pending)
    ensures forall b | b in Flushes(pending, stream).0 ::
              && b != []
              && (|b| == 64 || EntriesSize(b) >= 60000)
              && |b| <= 64 && EntriesSize(b[..|b| - 1]) < 60000
    decreases |stream|
  {
    if stream != [] {
      var next := pending + [stream[0]];
      assert next[..|next| - 1] == pending;
      if ShouldFlush(next) {
        FlushedWhenDue([], stream[1..]);
        var later := Flushes([], stream[1..]).0;
        assert forall b | b in [next] + later :: b == next || b in later;
      } else {
        FlushedWhenDue(next, stream[1..]);
      }
    }
  }

  lemma FitsAfterAdd(pending: seq<Packet>, p: Packet)
    requires !ShouldFlush(pending) && AtMost(5532, pending) && |p| <= 5532
    ensures Fits(pending + [p])
  {
    EntriesAppend(pending, [p]);
    EntriesLength(pending + [p]);
    assert EntriesSize([p]) == |p| + 2 + EntriesSize([p][1..]);
  }

  /** With packets of at most 5532 bytes, every flushed batch fits a frame, and so does a final flush. */
  lemma {:induction false} BudgetKept(pending: seq<Packet>, stream: seq<Packet>)
    requires !ShouldFlush(pending) && AtMost(5532, pending) && AtMost(5532, stream)
    ensures var (batches, rest) := Flushes(pending, stream);
            && (forall b | b in batches :: Fits(b))
            && !ShouldFlush(rest)
            && (rest != [] ==> Fits(rest))
    decreases |stream|
  {
    EntriesLength(pending);
    if stream != [] {
      var next := pending + [stream[0]];
      FitsAfterAdd(pending, stream[0]);
      BudgetKept(if ShouldFlush(next) then [] else next, stream[1..]);
    }
  }

  /** A batch that is not due before its last packet is flushed as one piece. */
  lemma {:induction false} FlushedWhole(pending: seq<Packet>, stream: seq<Packet>)
    requires stream != [] && ShouldFlush(pending + stream)
    requires forall k | 0 < k < |stream| :: !ShouldFlush(pending + stream[..k])
    ensures Flushes(pending, stream).0 == [pending + stream]
    decreases |stream|
  {
    var next := pending + [stream[0]];
    assert stream[..1] == [stream[0]];
    if |stream| == 1 {
      assert stream == [stream[0]];
    } else {
      assert next + stream[1..] == pending + stream;
      forall k | 0 < k < |stream[1..]|
        ensures !ShouldFlush(next + stream[1..][..k])
      {
        assert next + stream[1..][..k] == pending + stream[..k + 1];
      }
      FlushedWhole(next, stream[1..]);
    }
  }

  function Zeros(n: nat): Packet {
    seq(n, _ => 0)
  }

  function Same(n: nat, p: Packet): (ps: seq<Packet>)
    ensures |ps| == n && forall q | q in ps :: q == p
  {
    seq(n, _ => p)
  }

  lemma {:induction false} SameSize(n: nat, p: Packet)
    ensures EntriesSize(Same(n, p)) == n * (|p| + 2)
  {
    if n > 0 {
      assert Same(n, p)[1..] == Same(n - 1, p);
      SameSize(n - 1, p);
    }
  }

  lemma SizeMonotone(ps: seq<Packet>, k: nat)
    requires k <= |ps|
    ensures EntriesSize(ps[..k]) <= EntriesSize(ps)
  {
    EntriesAppend(ps[..k], ps[k..]);
    assert ps == ps[..k] + ps[k..];
  }

  /** Twelve packets of at most 5533 bytes that are flushed together as 65536 bytes. */
  lemma OneByteOver() returns (ps: seq<Packet>)
    ensures AtMost(5533, ps) && Flushes([], ps).0 == [ps] && |BatchBytes(ps)| == 0x1_0000
  {
    var big, small := Zeros(5533), Zeros(4647);
    var early := Same(10, big) + [small];
    ps := early + [big];
    SameSize(10, big);
    EntriesAppend(Same(10, big), [small]);
    EntriesAppend(early, [big]);
    assert EntriesSize([small]) == 4649 + EntriesSize([small][1..]);
    assert EntriesSize([big]) == 5535 + EntriesSize([big][1..]);
    EntriesLength(ps);
    forall k | 0 < k < |ps|
      ensures !ShouldFlush([] + ps[..k])
    {
      assert [] + ps[..k] == early[..k];
      SizeMonotone(early, k);
    }
    assert [] + ps == ps;
    FlushedWhole([], ps);
  }

  /** The packet-size bound is exact: a limit keeps every flushed batch within a frame, for every stream, if
      and only if it is at most 5532 bytes. */
  lemma BudgetExact(limit: nat)
    ensures (forall stream | AtMost(limit, stream) :: forall b | b in Flushes([], stream).0 :: Fits(b))
            <==> limit <= 5532
  {
    if limit <= 5532 {
      forall stream | AtMost(limit, stream)
        ensures forall b | b in Flushes([], stream).0 :: Fits(b)
      {
        BudgetKept([], stream);
      }
    } else {
      var ps := OneByteOver();
      assert AtMost(limit, ps);
      assert ps in Flushes([], ps).0 && !Fits(ps);
    }
  }
}
