/** The receive loop in the numbers of the wire: what each frame asks for, and every byte that is sent back. */
module Dialogue {
  import opened Bytes
  import opened Frames
  import opened Batches
  import opened Compression
  import opened Receiver

  // ---------------------------------------------------------------- what a frame asks for

  /** The packets of a DATA frame: none of an empty one or of a malformed batch, and of any other payload itself. */
  function PacketsIn(f: Frame): seq<Packet> {
    if f.payload == [] then []
    else if f.flags / 16 % 2 == 0 then [f.payload]
    else match ParsedBatch(f.payload)
         case Ok(packets) => packets
         case Err(_) => []
  }

  /** The dispatch, exactly: which frame types, and which first payload bytes of a control frame, ask for what. */
  lemma DispatchExactly(c: Codec, a: Arrival, f: Frame)
    requires Received(c, a.message) == Some(f)
    ensures forall packets :: ActionOf(c, a) == Deliver(packets) <==> f.typ == 1 && packets == PacketsIn(f)
    ensures forall data :: ActionOf(c, a) == Pong(data) <==> f.typ == 3 && f.payload == [8] + data
    ensures ActionOf(c, a) == Disconnect <==> f.typ == 3 && f.payload != [] && f.payload[0] == 5
    ensures ActionOf(c, a) == Keepalive <==> f.typ == 5
    ensures ActionOf(c, a) == MigrateAck <==> f.typ == 6 && f.payload in a.liveIds
  {
    if f.typ == 3 && f.payload != [] {
      assert f.payload == [f.payload[0]] + f.payload[1..];
      forall data
        ensures ControlAction(f) == Pong(data) <==> f.payload == [8] + data
      {
        assert f.payload == [8] + data ==> f.payload[0] == 8 && f.payload[1..] == data;
      }
    }
  }

  lemma UnreadableIgnored(c: Codec, a: Arrival)
    ensures Received(c, a.message) == None ==> ActionOf(c, a) == Ignore
  {
  }

  // ---------------------------------------------------------------- the bytes of a reply

  /** Version 2 and the type in one byte, no flag, then length and sequence number. */
  function ReplyHeader(typ: byte, length: nat, sequence: uint32): seq<byte>
    requires typ < 16
  {
    [0x20 + typ, 0, length / 0x100 % 0x100, length % 0x100] + BigEndian(sequence)
  }

  function PongBytes(data: seq<byte>, sequence: uint32): seq<byte> {
    ReplyHeader(3, 1 + |data|, sequence) + [9] + data
  }

  function KeepaliveBytes(sequence: uint32): seq<byte> {
    ReplyHeader(5, 0, sequence)
  }

  /** The text "migrate_ack" behind subtype 1. */
  function MigrateAckBytes(sequence: uint32): seq<byte> {
    ReplyHeader(3, 12, sequence) + [1] + [0x6D, 0x69, 0x67, 0x72, 0x61, 0x74, 0x65, 0x5F, 0x61, 0x63, 0x6B]
  }

  lemma HeaderBytes(f: Frame)
    requires f.version == 2 && f.typ < 16 && f.flags == 0
    ensures Wire(f, []) == ReplyHeader(f.typ, |f.payload|, f.sequence) + f.payload
  {
    hide BigEndian, Wire;
    WireBytes(f, []);
  }

  lemma ReplyBytes(action: Action, sequence: uint32)
    requires Draws(action)
    ensures Wire(ReplyFrame(action, sequence), []) ==
              match action
              case Pong(data) => PongBytes(data, sequence)
              case Keepalive => KeepaliveBytes(sequence)
              case _ => MigrateAckBytes(sequence)
  {
    hide Wire, ReplyHeader;
    HeaderBytes(ReplyFrame(action, sequence));
    if action.Pong? {
      Regroup(ReplyHeader(3, 1 + |action.data|, sequence), [9], action.data);
    } else if action.MigrateAck? {
      Regroup(ReplyHeader(3, 12, sequence), [1], MIGRATE_ACK);
    }
  }

  // ---------------------------------------------------------------- the dialogue

  function Add32(sequence: uint32, draws: nat): uint32 {
    (sequence + draws) % 0x1_0000_0000
  }

  /** The reply to a frame, under a sequence number. */
  function ReplyTo(f: Frame, liveIds: set<seq<byte>>, sequence: uint32): Option<seq<byte>> {
    if f.typ == 3 && f.payload != [] && f.payload[0] == 8 then Some(PongBytes(f.payload[1..], sequence))
    else if f.typ == 5 then Some(KeepaliveBytes(sequence))
    else if f.typ == 6 && f.payload in liveIds then Some(MigrateAckBytes(sequence))
    else None
  }

  /** A control frame that ends the dialogue. */
  predicate Ends(f: Frame) {
    f.typ == 3 && f.payload != [] && f.payload[0] == 5
  }

  /** All that is sent back for the messages of inbox, in terms of the frames received: last is the sequence
      number drawn last. Each reply draws the next number; after a Disconnect nothing is sent. */
  function Spoken(c: Codec, inbox: seq<Arrival>, last: uint32): seq<seq<byte>> {
    if inbox == [] then [] else
    var f, before := Received(c, inbox[0].message), Add32(last, inbox[0].foreignDraws);
    if f.None? then Spoken(c, inbox[1..], before)
    else if Ends(f.value) then []
    else match ReplyTo(f.value, inbox[0].liveIds, Add32(before, 1))
         case None => Spoken(c, inbox[1..], before)
         case Some(reply) => [reply] + Spoken(c, inbox[1..], Add32(before, 1))
  }

  lemma {:induction false} ClosedIsSilent(c: Codec, st: LoopState, inbox: seq<Arrival>)
    requires st.closed
    ensures HandleAll(c, st, inbox).sent == st.sent
    decreases |inbox|
  {
    if inbox != [] {
      ClosedIsSilent(c, Handle(c, st, inbox[0]), inbox[1..]);
    }
  }

  /** One turn: the number drawn, whether the connection is closed, and what is sent. */
  lemma OneTurn(c: Codec, st: LoopState, a: Arrival)
    requires !st.closed
    ensures var f, before, after := Received(c, a.message), Add32(st.sequence, a.foreignDraws), Handle(c, st, a);
            var reply := if f.None? then None else ReplyTo(f.value, a.liveIds, Add32(before, 1));
            && (after.closed <==> f.Some? && Ends(f.value)) && (after.closed ==> reply.None?)
            && after.sequence == (if reply.Some? then Add32(before, 1) else before)
            && after.sent == (if reply.Some? then st.sent + [reply.value] else st.sent)
  {
    hide Received, Wire, ReplyFrame, PongBytes, KeepaliveBytes, MigrateAckBytes, FrameAction;
    var f := Received(c, a.message);
    if f.None? {
      UnreadableIgnored(c, a);
    } else {
      DispatchExactly(c, a, f.value);
      var action := ActionOf(c, a);
      if f.value.payload != [] {
        assert f.value.payload == [f.value.payload[0]] + f.value.payload[1..];
      }
      if Draws(action) {
        ReplyBytes(action, Add32(Add32(st.sequence, a.foreignDraws), 1));
      }
      if action.Pong? {
        assert f.value.payload == [8] + action.data;
        assert f.value.payload[1..] == action.data;
      }
    }
  }

  /** The whole dialogue, byte by byte: over every inbox, the loop sends back exactly that. */
  lemma {:induction false} DialogueExactly(c: Codec, st: LoopState, inbox: seq<Arrival>)
    requires !st.closed
    ensures HandleAll(c, st, inbox).sent == st.sent + Spoken(c, inbox, st.sequence)
    decreases |inbox|
  {
    hide Handle, Received, ReplyTo, Ends;
    if inbox != [] {
      var after := Handle(c, st, inbox[0]);
      OneTurn(c, st, inbox[0]);
      if after.closed {
        ClosedIsSilent(c, after, inbox[1..]);
      } else {
        DialogueExactly(c, after, inbox[1..]);
        var before := Add32(st.sequence, inbox[0].foreignDraws);
        var f := Received(c, inbox[0].message);
        if f.Some? && ReplyTo(f.value, inbox[0].liveIds, Add32(before, 1)).Some? {
          var reply := ReplyTo(f.value, inbox[0].liveIds, Add32(before, 1)).value;
          Regroup(st.sent, [reply], Spoken(c, inbox[1..], Add32(before, 1)));
        }
      }
    }
  }

  /** How many frames ask for a reply before the first Disconnect. */
  function Asked(c: Codec, inbox: seq<Arrival>): nat {
    if inbox == [] then 0 else
    var f := Received(c, inbox[0].message);
    if f.Some? && Ends(f.value) then 0
    else (if f.Some? && Asks(f.value, inbox[0].liveIds) then 1 else 0) + Asked(c, inbox[1..])
  }

  predicate Asks(f: Frame, liveIds: set<seq<byte>>) {
    || (f.typ == 3 && f.payload != [] && f.payload[0] == 8)
    || f.typ == 5
    || (f.typ == 6 && f.payload in liveIds)
  }

  /** One reply for each frame that asks, no more and no fewer. */
  lemma {:induction false} RepliesCounted(c: Codec, inbox: seq<Arrival>, last: uint32)
    ensures |Spoken(c, inbox, last)| == Asked(c, inbox)
  {
    if inbox != [] {
      var f, before := Received(c, inbox[0].message), Add32(last, inbox[0].foreignDraws);
      RepliesCounted(c, inbox[1..], before);
      RepliesCounted(c, inbox[1..], Add32(before, 1));
    }
  }

  // ---------------------------------------------------------------- the numbers

  /** The number that k draws from a counter return last. */
  function Drawn(sequence: uint32, k: nat): uint32 {
    if k == 0 then sequence else Next(Drawn(sequence, k - 1), 1)
  }

  lemma OneMoreWraps(n: nat)
    ensures (n % 0x1_0000_0000 + 1) % 0x1_0000_0000 == (n + 1) % 0x1_0000_0000
  {
  }

  /** Numbers count up by one, and after 2^32 - 1 comes 0: the k-th draw of a fresh session is k. */
  lemma {:induction false} DrawnExactly(sequence: uint32, k: nat)
    ensures Drawn(sequence, k) == (sequence + k) % 0x1_0000_0000
    ensures sequence + k < 0x1_0000_0000 ==> Drawn(sequence, k) == sequence + k
  {
    if k > 0 {
      DrawnExactly(sequence, k - 1);
      OneMoreWraps(sequence + k - 1);
    }
  }

  lemma NoWrap(n: uint32, draws: nat)
    requires n + draws < 0x1_0000_0000
    ensures Add32(n, draws) == n + draws
  {
  }

  lemma NumberInReply(f: Frame, liveIds: set<seq<byte>>, sequence: uint32)
    requires ReplyTo(f, liveIds, sequence).Some?
    ensures var reply := ReplyTo(f, liveIds, sequence).value;
            |reply| >= 8 && reply[4..8] == BigEndian(sequence)
  {
    var reply := ReplyTo(f, liveIds, sequence).value;
    assert reply[..8][4..] == reply[4..8];
  }

  /** Where no other goroutine draws, the replies of a session are numbered one after the other: bytes 4 to 7
      of the k-th reply of a fresh session are the number k. */
  lemma {:induction false} RepliesCountUp(c: Codec, inbox: seq<Arrival>, last: uint32, k: nat)
    requires forall a | a in inbox :: a.foreignDraws == 0
    requires k < |Spoken(c, inbox, last)| && last + k + 1 < 0x1_0000_0000
    ensures var reply := Spoken(c, inbox, last)[k];
            |reply| >= 8 && reply[4..8] == BigEndian(last + k + 1)
    decreases |inbox|
  {
    hide Received, ReplyTo, Ends, BigEndian, Add32;
    assert inbox[0] in inbox && inbox[0].foreignDraws == 0;
    NoWrap(last, 0);
    NoWrap(last, 1);
    var f := Received(c, inbox[0].message);
    if f.None? || ReplyTo(f.value, inbox[0].liveIds, Add32(last, 1)).None? {
      RepliesCountUp(c, inbox[1..], last, k);
    } else if k == 0 {
      NumberInReply(f.value, inbox[0].liveIds, last + 1);
    } else {
      RepliesCountUp(c, inbox[1..], last + 1, k - 1);
    }
  }
}
