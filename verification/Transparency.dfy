/** End to end: what a sender puts into DATA frames is what the receive loop writes to the TUN device. */
module Transparency {
  import opened Bytes
  import opened Frames
  import opened Batches
  import opened Compression
  import opened FlushDiscipline
  import opened Receiver

  /** What the other side of a connection sends: a packet, a batch of packets, or any other message. */
  datatype Item =
    | Single(packet: Packet)
    | Batch(packets: seq<Packet>)
    | Noise(message: seq<byte>)

  /** An item with the sender's free choices: sequence number, flags, compression, padding. */
  datatype Sending = Sending(item: Item, sequence: uint32, flags: byte, compress: bool, pad: seq<byte>)

  function DataOf(s: Sending): Frame
    requires !s.item.Noise?
  {
    DataFrame(if s.item.Single? then s.item.packet else BatchBytes(s.item.packets), s.sequence).(flags := s.flags)
  }

  function MessageOf(c: Codec, s: Sending): seq<byte> {
    if s.item.Noise? then s.item.message
    else Wire(if s.compress then CompressFrame(c, DataOf(s)) else DataOf(s), s.pad)
  }

  /** The frame in a message has nothing to deliver: it is not DATA, it does not decompress, it is empty, or
      it is a batch whose payload starts with no batch encoding at all. */
  ghost predicate NothingToDeliver(c: Codec, f: Frame) {
    || f.typ != TYPE_DATA
    || DecompressFrame(c, f).Err?
    || (var g := DecompressFrame(c, f).value;
        || g.payload == []
        || (HasFlag(g.flags, FLAG_BATCH_MODE)
            && forall ps | Carriable(ps) :: !(BatchBytes(ps) <= g.payload)))
  }

  ghost predicate Sendable(c: Codec, s: Sending) {
    match s.item
    case Noise(message) => forall f | Carries(message, f) :: NothingToDeliver(c, f)
    case _ => DataSendable(s)
  }

  /** A nonempty packet that fits a frame, or a batch that does, flagged as what it is and not as compressed. */
  predicate DataSendable(s: Sending) {
    && PlainFlags(s)
    && match s.item
       case Single(packet) => 1 <= |packet| < 0x1_0000 && !HasFlag(s.flags, FLAG_BATCH_MODE)
       case Batch(packets) => Fits(packets) && HasFlag(s.flags, FLAG_BATCH_MODE)
       case Noise(_) => false
  }

  predicate PlainFlags(s: Sending) {
    !HasFlag(s.flags, FLAG_COMPRESSED) && PaddingChoice(s.pad)
  }

  function PacketsOf(s: Sending): seq<Packet> {
    match s.item
    case Single(packet) => [packet]
    case Batch(packets) => packets
    case Noise(_) => []
  }

  /** The TUN writes that one message causes. */
  function Delivered(c: Codec, message: seq<byte>): seq<Packet> {
    var f := Received(c, message);
    if f.Some? && f.value.typ == TYPE_DATA then DataPackets(f.value) else []
  }

  /** One DATA message, whatever the sender chose, delivers exactly its packets. */
  lemma DataDelivered(c: Codec, s: Sending)
    requires c.Lossless() && DataSendable(s)
    ensures Delivered(c, MessageOf(c, s)) == PacketsOf(s)
  {
    PipelineIdentity(c, DataOf(s), s.pad);
    RawIdentity(c, DataOf(s), s.pad);
    if s.item.Batch? {
      BatchRoundTrip(s.item.packets);
    }
  }

  /** A message that carries nothing to deliver delivers nothing; a malformed batch is refused whole. */
  lemma NoiseIgnored(c: Codec, message: seq<byte>)
    requires forall f | Carries(message, f) :: NothingToDeliver(c, f)
    ensures Delivered(c, message) == []
  {
    var d := Decoded(message);
    if d.Ok? {
      DecodeExactly(message, d.value);
      var g := DecompressFrame(c, d.value);
      if g.Ok? && ParsedBatch(g.value.payload).Ok? {
        ParseExactly(g.value.payload, ParsedBatch(g.value.payload).value);
      }
    }
  }

  /** A batch frame whose payload lost its end contributes no packet at all. */
  lemma TruncatedBatchIgnored(c: Codec, ps: seq<Packet>, f: Frame, pad: seq<byte>)
    requires Carriable(ps) && f.payload < BatchBytes(ps)
    requires HasFlag(f.flags, FLAG_BATCH_MODE) && !IsCompressed(f)
    ensures Delivered(c, Wire(f, pad)) == []
  {
    var d := Decoded(Wire(f, pad));
    if d.Ok? {
      DecodeExactly(Wire(f, pad), d.value);
      TruncatedFrame(f, d.value, pad);
      StrictPrefixRefused(ps, d.value.payload);
    }
  }

  /** Whatever Decode returns for an encoded frame has its flags and a prefix of its payload. */
  lemma TruncatedFrame(f: Frame, g: Frame, pad: seq<byte>)
    requires Carries(Wire(f, pad), g)
    ensures g.flags == f.flags && |g.payload| == |f.payload| % 0x1_0000 && g.payload <= f.payload
  {
    var w := Wire(f, pad);
    WireShape(f, pad);
    SameFront(w, f, g);
    HeaderLayout(f);
    HeaderLayout(g);
    assert U16(PutU16(|f.payload|)) == U16(PutU16(|g.payload|));
  }

  lemma SameFront(w: seq<byte>, f: Frame, g: Frame)
    requires Header(f) + f.payload <= w && Header(g) + g.payload <= w
    ensures Header(f) == Header(g)
    ensures |g.payload| <= |f.payload| ==> g.payload <= f.payload
  {
    assert w[..HEADER_SIZE] == Header(f) && w[..HEADER_SIZE] == Header(g);
    assert w[HEADER_SIZE..][..|f.payload|] == f.payload;
    assert w[HEADER_SIZE..][..|g.payload|] == g.payload;
  }

  // ---------------------------------------------------------------- whole streams

  function AllDelivered(c: Codec, inbox: seq<Arrival>): seq<Packet> {
    if inbox == [] then [] else Delivered(c, inbox[0].message) + AllDelivered(c, inbox[1..])
  }

  lemma DeliveredByHandle(c: Codec, st: LoopState, a: Arrival)
    ensures Handle(c, st, a).tun == st.tun + Delivered(c, a.message)
  {
  }

  /** The TUN writes of a run are those of its messages, in order, whatever else the loop does. */
  lemma {:induction false} TunWrites(c: Codec, st: LoopState, inbox: seq<Arrival>)
    ensures HandleAll(c, st, inbox).tun == st.tun + AllDelivered(c, inbox)
    decreases |inbox|
  {
    if inbox != [] {
      DeliveredByHandle(c, st, inbox[0]);
      TunWrites(c, Handle(c, st, inbox[0]), inbox[1..]);
      Regroup(st.tun, Delivered(c, inbox[0].message), AllDelivered(c, inbox[1..]));
    }
  }

  function AllPackets(sendings: seq<Sending>): seq<Packet> {
    if sendings == [] then [] else PacketsOf(sendings[0]) + AllPackets(sendings[1..])
  }

  /** inbox holds the messages of sendings, in order, under any foreign draws and live sessions. */
  predicate Carried(c: Codec, sendings: seq<Sending>, inbox: seq<Arrival>) {
    |inbox| == |sendings| && forall i | 0 <= i < |inbox| :: inbox[i].message == MessageOf(c, sendings[i])
  }

  lemma {:induction false} DeliveredIsSent(c: Codec, sendings: seq<Sending>, inbox: seq<Arrival>)
    requires c.Lossless() && Carried(c, sendings, inbox)
    requires forall s | s in sendings :: Sendable(c, s)
    ensures AllDelivered(c, inbox) == AllPackets(sendings)
  {
    if sendings != [] {
      assert Sendable(c, sendings[0]) && inbox[0].message == MessageOf(c, sendings[0]);
      if sendings[0].item.Noise? {
        NoiseIgnored(c, inbox[0].message);
      } else {
        DataDelivered(c, sendings[0]);
      }
      DeliveredIsSent(c, sendings[1..], inbox[1..]);
    }
  }

  /** Transparency: over any message stream of single packets, batches and other messages, compressed or
      not, padded or not, the loop writes exactly the sender's packets to the TUN device, in order. */
  lemma EndToEnd(c: Codec, st: LoopState, sendings: seq<Sending>, inbox: seq<Arrival>)
    requires c.Lossless() && Carried(c, sendings, inbox)
    requires forall s | s in sendings :: Sendable(c, s)
    ensures HandleAll(c, st, inbox).tun == st.tun + AllPackets(sendings)
  {
    TunWrites(c, st, inbox);
    DeliveredIsSent(c, sendings, inbox);
  }

  /** The batches of a stream of packets under the flush discipline, the last one flushed at the end. */
  function BatchesOf(stream: seq<Packet>): seq<seq<Packet>> {
    var (batches, rest) := Flushes([], stream);
    if rest == [] then batches else batches + [rest]
  }

  lemma {:induction false} FlattenAppend(a: seq<seq<Packet>>, b: seq<seq<Packet>>)
    ensures Flatten(a + b) == Flatten(a) + Flatten(b)
  {
    if a == [] {
      assert a + b == b;
    } else {
      FlattenAppend(a[1..], b);
      assert (a + b)[1..] == a[1..] + b && (a + b)[0] == a[0];
      Regroup(a[0], Flatten(a[1..]), Flatten(b));
    }
  }

  lemma BatchesOfStream(stream: seq<Packet>)
    requires AtMost(5532, stream)
    ensures Flatten(BatchesOf(stream)) == stream
    ensures forall b | b in BatchesOf(stream) :: Fits(b)
  {
    var (batches, rest) := Flushes([], stream);
    BudgetKept([], stream);
    FlushesConserve([], stream);
    FlattenAppend(batches, [rest]);
    assert Flatten([rest]) == rest + Flatten([rest][1..]);
    assert [] + stream == stream;
  }

  lemma {:induction false} PacketsOfBatches(batches: seq<seq<Packet>>, sendings: seq<Sending>)
    requires |sendings| == |batches|
    requires forall i | 0 <= i < |batches| :: sendings[i].item == Batch(batches[i])
    ensures AllPackets(sendings) == Flatten(batches)
  {
    if batches != [] {
      PacketsOfBatches(batches[1..], sendings[1..]);
    }
  }

  /** The whole path: packets of at most 5532 bytes collected by the batch encoder, flushed when it says so,
      framed, compressed and padded at will, arrive at the TUN device as they were. */
  lemma BatchedStreamArrives(c: Codec, st: LoopState, stream: seq<Packet>, sendings: seq<Sending>, inbox: seq<Arrival>)
    requires c.Lossless() && AtMost(5532, stream) && Carried(c, sendings, inbox)
    requires |sendings| == |BatchesOf(stream)|
    requires forall i | 0 <= i < |sendings| :: sendings[i].item == Batch(BatchesOf(stream)[i])
    requires forall s | s in sendings :: PlainFlags(s) && HasFlag(s.flags, FLAG_BATCH_MODE)
    ensures HandleAll(c, st, inbox).tun == st.tun + stream
  {
    BatchesOfStream(stream);
    PacketsOfBatches(BatchesOf(stream), sendings);
    forall s | s in sendings
      ensures DataSendable(s)
    {
      var i :| 0 <= i < |sendings| && sendings[i] == s;
      assert Fits(BatchesOf(stream)[i]);
    }
    EndToEnd(c, st, sendings, inbox);
  }
}
