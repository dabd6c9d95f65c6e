/** The receive loop of one client: messages in, TUN writes and replies out. */
module Receiver {
  import opened Bytes
  import opened Frames
  import opened Batches
  import opened Compression

  const MIGRATE_ACK: seq<byte> := [0x6D, 0x69, 0x67, 0x72, 0x61, 0x74, 0x65, 0x5F, 0x61, 0x63, 0x6B]

  /** One message as ReadMessage returns it. Other goroutines of the session draw foreignDraws sequence
      numbers before it is handled; liveIds are the session ids then in the session table. */
  datatype Arrival = Arrival(message: seq<byte>, foreignDraws: nat, liveIds: set<seq<byte>>)

  /** What a message asks the loop to do. */
  datatype Action =
    | Ignore
    | Deliver(packets: seq<Packet>)
    | Pong(data: seq<byte>)
    | Keepalive
    | MigrateAck
    | Disconnect

  function ControlAction(f: Frame): Action {
    var subtype := ControlSubtype(f);
    if subtype == Some(CTRL_DISCONNECT) then Disconnect
    else if subtype == Some(CTRL_PING) then Pong(ControlData(f))
    else Ignore
  }

  function DataPackets(f: Frame): seq<Packet> {
    if f.payload == [] then []
    else if HasFlag(f.flags, FLAG_BATCH_MODE) then
      var b := ParsedBatch(f.payload);
      if b.Err? then [] else b.value
    else [f.payload]
  }

  function FrameAction(f: Frame, liveIds: set<seq<byte>>): Action {
    if f.typ == TYPE_DATA then Deliver(DataPackets(f))
    else if f.typ == TYPE_CONTROL then ControlAction(f)
    else if f.typ == TYPE_KEEPALIVE then Keepalive
    else if f.typ == TYPE_MIGRATE && f.payload in liveIds then MigrateAck
    else Ignore
  }

  function ActionOf(c: Codec, a: Arrival): Action {
    var f := Received(c, a.message);
    if f.None? then Ignore else FrameAction(f.value, a.liveIds)
  }

  predicate Draws(action: Action) {
    action.Pong? || action.Keepalive? || action.MigrateAck?
  }

  function ReplyFrame(action: Action, sequence: uint32): Frame
    requires Draws(action)
  {
    match action
    case Pong(data) => ControlFrame(CTRL_PONG, data, sequence)
    case Keepalive => KeepaliveFrame(sequence)
    case MigrateAck => ControlFrame(CTRL_SESSION_INIT, MIGRATE_ACK, sequence)
  }

  function Next(sequence: uint32, draws: nat): uint32 {
    (sequence + draws) % 0x1_0000_0000
  }

  /** Everything the loop changes. */
  datatype LoopState = LoopState(tun: seq<Packet>, sent: seq<seq<byte>>, sequence: uint32, closed: bool)

  function Perform(st: LoopState, action: Action): LoopState {
    match action
    case Ignore => st
    case Deliver(packets) => st.(tun := st.tun + packets)
    case Disconnect => st.(closed := true)
    case _ =>
      var sequence := Next(st.sequence, 1);
      st.(sequence := sequence,
          sent := if st.closed then st.sent else st.sent + [Wire(ReplyFrame(action, sequence), [])])
  }

  function Handle(c: Codec, st: LoopState, a: Arrival): LoopState {
    Perform(st.(sequence := Next(st.sequence, a.foreignDraws)), ActionOf(c, a))
  }

  function HandleAll(c: Codec, st: LoopState, inbox: seq<Arrival>): LoopState
    decreases |inbox|
  {
    if inbox == [] then st else HandleAll(c, Handle(c, st, inbox[0]), inbox[1..])
  }

  // ---------------------------------------------------------------- the loop

  class Session {
    var sequence: uint32

    constructor ()
      ensures sequence == 0
    {
      sequence := 0;
    }

    /** atomic.Uint32.Add(1): the new value, which wraps. */
    method NextSeq() returns (n: uint32)
      modifies this
      ensures n == sequence == Next(old(sequence), 1)
      ensures n == if old(sequence) < 0xFFFF_FFFF then old(sequence) + 1 else 0
    {
      sequence := (sequence + 1) % 0x1_0000_0000;
      n := sequence;
    }

    /** The draws made meanwhile by the session's other goroutines. */
    method DrawnByOthers(draws: nat)
      modifies this
      ensures sequence == Next(old(sequence), draws)
    {
      sequence := (sequence + draws) % 0x1_0000_0000;
    }
  }

  class Conn {
    var sent: seq<seq<byte>>
    var closed: bool

    constructor ()
      ensures sent == [] && !closed
    {
      sent := [];
      closed := false;
    }

    /** A write after Close fails, and the loop ignores the error. */
    method WriteMessage(data: seq<byte>)
      modifies this
      ensures closed == old(closed)
      ensures sent == if closed then old(sent) else old(sent) + [data]
    {
      if !closed {
        sent := sent + [data];
      }
    }

    method Close()
      modifies this
      ensures closed && sent == old(sent)
    {
      closed := true;
    }
  }

  class Tun {
    var written: seq<Packet>

    constructor ()
      ensures written == []
    {
      written := [];
    }

    method Write(p: Packet)
      modifies this
      ensures written == old(written) + [p]
    {
      written := written + [p];
    }
  }

  ghost function StateOf(session: Session, conn: Conn, tun: Tun): LoopState
    reads session, conn, tun
  {
    LoopState(tun.written, conn.sent, session.sequence, conn.closed)
  }

  method Reply(session: Session, conn: Conn, action: Action)
    requires Draws(action)
    modifies session, conn
    ensures session.sequence == Next(old(session.sequence), 1)
    ensures conn.closed == old(conn.closed)
    ensures conn.sent == if conn.closed then old(conn.sent)
                         else old(conn.sent) + [Wire(ReplyFrame(action, session.sequence), [])]
  {
    var sequence := session.NextSeq();
    var buf := Encode(ReplyFrame(action, sequence), []);
    conn.WriteMessage(buf[..]);
  }

  method HandleControlFrame(session: Session, conn: Conn, tun: Tun, frame: Frame)
    modifies session, conn
    ensures StateOf(session, conn, tun) == Perform(old(StateOf(session, conn, tun)), ControlAction(frame))
  {
    var subtype := ControlSubtype(frame);
    if subtype.None? {
      return;
    }
    if subtype.value == CTRL_DISCONNECT {
      conn.Close();
    } else if subtype.value == CTRL_PING {
      Reply(session, conn, Pong(ControlData(frame)));
    }
  }

  method WriteAll(tun: Tun, packets: seq<Packet>)
    modifies tun
    ensures tun.written == old(tun.written) + packets
  {
    for i := 0 to |packets|
      invariant tun.written == old(tun.written) + packets[..i]
    {
      tun.Write(packets[i]);
      assert packets[..i + 1] == packets[..i] + [packets[i]];
    }
    assert packets[..|packets|] == packets;
  }

  method HandleData(tun: Tun, frame: Frame)
    modifies tun
    ensures tun.written == old(tun.written) + DataPackets(frame)
  {
    if |frame.payload| == 0 {
      return;
    }
    if HasFlag(frame.flags, FLAG_BATCH_MODE) {
      var b := DecodeBatch(frame.payload);
      if b.Err? {
        return;
      }
      WriteAll(tun, b.value);
    } else {
      tun.Write(frame.payload);
    }
  }

  /** The switch on the frame type. */
  method HandleFrame(session: Session, conn: Conn, tun: Tun, frame: Frame, liveIds: set<seq<byte>>)
    modifies session, conn, tun
    ensures StateOf(session, conn, tun) == Perform(old(StateOf(session, conn, tun)), FrameAction(frame, liveIds))
  {
    if frame.typ == TYPE_DATA {
      HandleData(tun, frame);
    } else if frame.typ == TYPE_CONTROL {
      HandleControlFrame(session, conn, tun, frame);
    } else if frame.typ == TYPE_KEEPALIVE {
      Reply(session, conn, Keepalive);
    } else if frame.typ == TYPE_MIGRATE {
      if frame.payload in liveIds {
        Reply(session, conn, MigrateAck);
      }
    }
  }

  /** One turn of the loop, after ReadMessage. */
  method HandleMessage(c: Codec, session: Session, conn: Conn, tun: Tun, a: Arrival)
    modifies session, conn, tun
    ensures StateOf(session, conn, tun) == Handle(c, old(StateOf(session, conn, tun)), a)
  {
    session.DrawnByOthers(a.foreignDraws);
    var decoded := Decode(a.message);
    if decoded.Err? {
      return;
    }
    var frame := decoded.value;
    if IsCompressed(frame) {
      var d := DecompressFrame(c, frame);
      if d.Err? {
        return;
      }
      frame := d.value;
    }
    assert ActionOf(c, a) == FrameAction(frame, a.liveIds);
    HandleFrame(session, conn, tun, frame, a.liveIds);
  }

  /** The loop over every message that ReadMessage returns before it fails. */
  method ClientReadLoop(c: Codec, session: Session, conn: Conn, tun: Tun, inbox: seq<Arrival>)
    modifies session, conn, tun
    ensures StateOf(session, conn, tun) == HandleAll(c, old(StateOf(session, conn, tun)), inbox)
  {
    var i := 0;
    while i < |inbox|
      invariant 0 <= i <= |inbox|
      invariant HandleAll(c, StateOf(session, conn, tun), inbox[i..])
             == HandleAll(c, old(StateOf(session, conn, tun)), inbox)
    {
      assert inbox[i..][1..] == inbox[i + 1..];
      HandleMessage(c, session, conn, tun, inbox[i]);
      i := i + 1;
    }
  }
}
