/** The reply trace of the receive loop: which messages it sends, in which order, under which numbers. */
module Replies {
  import opened Bytes
  import opened Frames
  import opened Compression
  import opened Receiver

  /** One turn of the loop: what other goroutines draw first, and what the message asks for. */
  datatype Turn = Turn(foreignDraws: nat, action: Action)

  function Turns(c: Codec, inbox: seq<Arrival>): (turns: seq<Turn>)
    ensures |turns| == |inbox|
  {
    if inbox == [] then [] else [Turn(inbox[0].foreignDraws, ActionOf(c, inbox[0]))] + Turns(c, inbox[1..])
  }

  /** A reply asked for, and which draw of the session's sequence counter it uses. */
  datatype Demand = Demand(action: Action, draw: nat)

  /** The replies asked for before the first Disconnect, in order; drawn counts the draws made earlier. */
  function Demands(turns: seq<Turn>, drawn: nat): (demands: seq<Demand>)
    ensures forall d | d in demands :: Draws(d.action)
  {
    if turns == [] then [] else
    var action := turns[0].action;
    var before := drawn + turns[0].foreignDraws;
    if action.Disconnect? then []
    else if Draws(action) then [Demand(action, before + 1)] + Demands(turns[1..], before + 1)
    else Demands(turns[1..], before)
  }

  function TotalDraws(turns: seq<Turn>): nat {
    if turns == [] then 0 else
    turns[0].foreignDraws + (if Draws(turns[0].action) then 1 else 0) + TotalDraws(turns[1..])
  }

  lemma NextAdds(s: uint32, a: nat, b: nat)
    ensures Next(Next(s, a), b) == Next(s, a + b)
  {
  }

  /** Two draws of one session carry the same number exactly when they are a multiple of 2^32 apart; so any
      2^32 consecutive draws, by whichever goroutines, are pairwise distinct. */
  lemma DrawsCollide(s: uint32, i: nat, j: nat)
    ensures Next(s, i) == Next(s, j) <==> (i - j) % 0x1_0000_0000 == 0
    ensures i < j <= i + 0xFFFF_FFFF ==> Next(s, i) != Next(s, j)
  {
    var m := 0x1_0000_0000;
    var qi, qj := (s + i) / m, (s + j) / m;
    assert s + i == m * qi + Next(s, i) && s + j == m * qj + Next(s, j);
    assert i - j == m * (qi - qj) + (Next(s, i) - Next(s, j));
  }

  // ---------------------------------------------------------------- what is sent

  function TurnTaken(st: LoopState, t: Turn): LoopState {
    Perform(st.(sequence := Next(st.sequence, t.foreignDraws)), t.action)
  }

  function AllTurns(st: LoopState, turns: seq<Turn>): LoopState
    decreases |turns|
  {
    if turns == [] then st else AllTurns(TurnTaken(st, turns[0]), turns[1..])
  }

  lemma {:induction false} LoopTakesTurns(c: Codec, st: LoopState, inbox: seq<Arrival>)
    ensures HandleAll(c, st, inbox) == AllTurns(st, Turns(c, inbox))
    decreases |inbox|
  {
    if inbox != [] {
      LoopTakesTurns(c, Handle(c, st, inbox[0]), inbox[1..]);
    }
  }

  function Answer(d: Demand, start: uint32): seq<byte>
    requires Draws(d.action)
  {
    Wire(ReplyFrame(d.action, Next(start, d.draw)), [])
  }

  function Answers(demands: seq<Demand>, start: uint32): (messages: seq<seq<byte>>)
    requires forall d | d in demands :: Draws(d.action)
    ensures |messages| == |demands|
    ensures forall k | 0 <= k < |demands| :: messages[k] == Answer(demands[k], start)
  {
    if demands == [] then [] else [Answer(demands[0], start)] + Answers(demands[1..], start)
  }

  lemma {:induction false} ClosedSendsNothing(st: LoopState, turns: seq<Turn>)
    requires st.closed
    ensures AllTurns(st, turns).sent == st.sent
    decreases |turns|
  {
    if turns != [] {
      ClosedSendsNothing(TurnTaken(st, turns[0]), turns[1..]);
    }
  }

  lemma TurnState(st: LoopState, t: Turn, start: uint32, drawn: nat)
    requires st.sequence == Next(start, drawn)
    ensures var before := drawn + t.foreignDraws;
            var after := TurnTaken(st, t);
            && after.sequence == Next(start, if Draws(t.action) then before + 1 else before)
            && (after.closed <==> st.closed || t.action.Disconnect?)
            && after.sent == if st.closed || !Draws(t.action) then st.sent
                             else st.sent + [Answer(Demand(t.action, before + 1), start)]
  {
    NextAdds(start, drawn, t.foreignDraws);
    NextAdds(start, drawn + t.foreignDraws, 1);
  }

  lemma AnswersCons(d: Demand, rest: seq<Demand>, start: uint32)
    requires Draws(d.action) && forall e | e in rest :: Draws(e.action)
    ensures Answers([d] + rest, start) == [Answer(d, start)] + Answers(rest, start)
  {
    assert ([d] + rest)[1..] == rest;
  }

  /** The loop sends exactly the answers to the demands, in order; drawn is the number of draws between
      `start` and the state st. */
  lemma {:induction false} SentFrom(st: LoopState, turns: seq<Turn>, start: uint32, drawn: nat)
    requires !st.closed && st.sequence == Next(start, drawn)
    ensures AllTurns(st, turns).sent == st.sent + Answers(Demands(turns, drawn), start)
    decreases |turns|
  {
    if turns == [] {
    } else {
      var before := drawn + turns[0].foreignDraws;
      var after := TurnTaken(st, turns[0]);
      TurnState(st, turns[0], start, drawn);
      if turns[0].action.Disconnect? {
        ClosedSendsNothing(after, turns[1..]);
      } else if Draws(turns[0].action) {
        SentFrom(after, turns[1..], start, before + 1);
        var d, rest := Demand(turns[0].action, before + 1), Demands(turns[1..], before + 1);
        AnswersCons(d, rest, start);
        Regroup(st.sent, [Answer(d, start)], Answers(rest, start));
      } else {
        SentFrom(after, turns[1..], start, before);
      }
    }
  }

  lemma {:induction false} DrawsIncrease(turns: seq<Turn>, drawn: nat)
    ensures forall k | 0 <= k < |Demands(turns, drawn)| ::
              drawn < Demands(turns, drawn)[k].draw <= drawn + TotalDraws(turns)
    ensures forall j, k | 0 <= j < k < |Demands(turns, drawn)| ::
              Demands(turns, drawn)[j].draw < Demands(turns, drawn)[k].draw
  {
    if turns == [] {
    } else if turns[0].action.Disconnect? {
    } else if Draws(turns[0].action) {
      DrawsIncrease(turns[1..], drawn + turns[0].foreignDraws + 1);
    } else {
      DrawsIncrease(turns[1..], drawn + turns[0].foreignDraws);
    }
  }

  // ---------------------------------------------------------------- what the client reads

  /** A message in which a client finds the reply to action, numbered sequence: version 2, no flag. */
  predicate IsReply(c: Codec, message: seq<byte>, action: Action, sequence: uint32) {
    match action
    case Pong(data) => Received(c, message) == Some(Frame(2, 3, 0, sequence, [9] + data))
    case Keepalive => Received(c, message) == Some(Frame(2, 5, 0, sequence, []))
    case MigrateAck => Received(c, message) == Some(Frame(2, 3, 0, sequence, [1] + MIGRATE_ACK))
    case _ => false
  }

  predicate Sendable(action: Action) {
    action.Pong? ==> |action.data| < 0xFFFF
  }

  lemma ReplyReadable(c: Codec, action: Action, sequence: uint32)
    requires Draws(action) && Sendable(action)
    ensures IsReply(c, Wire(ReplyFrame(action, sequence), []), action, sequence)
  {
    FrameRoundTrip(ReplyFrame(action, sequence), []);
  }

  lemma ReceivedFits(c: Codec, message: seq<byte>)
    requires c.Lossless()
    ensures var f := Received(c, message);
            f.Some? ==> f.value.version == VERSION && f.value.Representable()
  {
    var d := Decoded(message);
    if d.Ok? {
      DecodeExactly(message, d.value);
      if IsCompressed(d.value) && DecompressFrame(c, d.value).Ok? {
        DecompressedSize(c, d.value);
      }
    }
  }

  lemma ActionSendable(c: Codec, a: Arrival)
    requires c.Lossless()
    ensures Sendable(ActionOf(c, a))
  {
    ReceivedFits(c, a.message);
  }

  lemma {:induction false} TurnsSendable(c: Codec, inbox: seq<Arrival>)
    requires c.Lossless()
    ensures forall t | t in Turns(c, inbox) :: Sendable(t.action)
  {
    if inbox != [] {
      ActionSendable(c, inbox[0]);
      TurnsSendable(c, inbox[1..]);
    }
  }

  lemma {:induction false} DemandsSendable(turns: seq<Turn>, drawn: nat)
    requires forall t | t in turns :: Sendable(t.action)
    ensures forall d | d in Demands(turns, drawn) :: Sendable(d.action)
  {
    if turns == [] {
    } else if Draws(turns[0].action) {
      DemandsSendable(turns[1..], drawn + turns[0].foreignDraws + 1);
    } else {
      DemandsSendable(turns[1..], drawn + turns[0].foreignDraws);
    }
  }

  /** messages are the replies to demands, one for one and in order, each under the number of its draw. */
  predicate RepliesTo(c: Codec, messages: seq<seq<byte>>, demands: seq<Demand>, start: uint32) {
    && |messages| == |demands|
    && forall k | 0 <= k < |demands| :: IsReply(c, messages[k], demands[k].action, Next(start, demands[k].draw))
  }

  predicate DistinctNumbers(demands: seq<Demand>, start: uint32) {
    forall j, k | 0 <= j < k < |demands| :: Next(start, demands[j].draw) != Next(start, demands[k].draw)
  }

  lemma AnswersReadable(c: Codec, demands: seq<Demand>, start: uint32)
    requires forall d | d in demands :: Draws(d.action) && Sendable(d.action)
    ensures RepliesTo(c, Answers(demands, start), demands, start)
  {
    forall k | 0 <= k < |demands|
      ensures IsReply(c, Answers(demands, start)[k], demands[k].action, Next(start, demands[k].draw))
    {
      ReplyReadable(c, demands[k].action, Next(start, demands[k].draw));
    }
  }

  /** As long as the session's goroutines draw at most 2^32 numbers between them, no two replies carry the
      same number. */
  lemma RepliesNumbered(turns: seq<Turn>, start: uint32)
    requires TotalDraws(turns) <= 0x1_0000_0000
    ensures DistinctNumbers(Demands(turns, 0), start)
  {
    DrawsIncrease(turns, 0);
    var demands := Demands(turns, 0);
    forall j, k | 0 <= j < k < |demands|
      ensures Next(start, demands[j].draw) != Next(start, demands[k].draw)
    {
      assert 0 < demands[j].draw < demands[k].draw <= 0x1_0000_0000;
      DrawsCollide(start, demands[j].draw, demands[k].draw);
    }
  }

  lemma LoopSends(c: Codec, st: LoopState, inbox: seq<Arrival>)
    requires !st.closed
    ensures HandleAll(c, st, inbox).sent == st.sent + Answers(Demands(Turns(c, inbox), 0), st.sequence)
  {
    LoopTakesTurns(c, st, inbox);
    SentByTurns(st, Turns(c, inbox));
  }

  lemma SentByTurns(st: LoopState, turns: seq<Turn>)
    requires !st.closed
    ensures AllTurns(st, turns).sent == st.sent + Answers(Demands(turns, 0), st.sequence)
  {
    assert st.sequence == Next(st.sequence, 0);
    SentFrom(st, turns, st.sequence, 0);
  }

  /** The reply trace of one connection: beyond what was sent before, exactly one reply per Ping, keepalive
      and answerable Migrate before the first Disconnect, in message order, each echoing what was asked. */
  lemma ReplyTrace(c: Codec, st: LoopState, inbox: seq<Arrival>) returns (replies: seq<seq<byte>>)
    requires c.Lossless() && !st.closed
    ensures HandleAll(c, st, inbox).sent == st.sent + replies
    ensures RepliesTo(c, replies, Demands(Turns(c, inbox), 0), st.sequence)
  {
    var demands := Demands(Turns(c, inbox), 0);
    replies := Answers(demands, st.sequence);
    LoopSends(c, st, inbox);
    TurnsSendable(c, inbox);
    DemandsSendable(Turns(c, inbox), 0);
    AnswersReadable(c, demands, st.sequence);
  }

  /** A Pong is due exactly for a Ping, echoing exactly its data. */
  lemma PongDue(c: Codec, a: Arrival, data: seq<byte>)
    ensures ActionOf(c, a) == Pong(data) <==>
              exists f :: Received(c, a.message) == Some(f) && f.typ == TYPE_CONTROL && f.payload == [CTRL_PING] + data
  {
    var r := Received(c, a.message);
    if r.Some? {
      var f := r.value;
      if f.typ == TYPE_CONTROL && |f.payload| > 0 {
        assert f.payload == [f.payload[0]] + f.payload[1..];
        assert f.payload == [CTRL_PING] + data ==> f.payload[1..] == data && f.payload[0] == CTRL_PING;
        assert ControlData(f) == f.payload[1..];
      }
    }
  }

  /** A ping sent through the pipeline, padded, compressed or neither, is answered with its own data. */
  lemma PingIsAnswered(c: Codec, ping: Frame, data: seq<byte>, compress: bool, pad: seq<byte>, a: Arrival)
    requires c.Lossless() && PaddingChoice(pad)
    requires ping.version == VERSION && ping.typ == TYPE_CONTROL && !IsCompressed(ping)
    requires ping.payload == [CTRL_PING] + data && |data| < 0xFFFF
    requires a.message == Wire(if compress then CompressFrame(c, ping) else ping, pad)
    ensures ActionOf(c, a) == Pong(data)
  {
    PipelineIdentity(c, ping, pad);
    RawIdentity(c, ping, pad);
    PongDue(c, a, data);
  }
}
