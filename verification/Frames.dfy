/** The frame codec: an 8-byte header, a payload, and optional random padding closed by its length. */
module Frames {
  import opened Bytes

  const VERSION: byte := 0x02

  const TYPE_DATA: byte := 0x01
  const TYPE_DATA_FRAG: byte := 0x02
  const TYPE_CONTROL: byte := 0x03
  const TYPE_PADDING: byte := 0x04
  const TYPE_KEEPALIVE: byte := 0x05
  const TYPE_MIGRATE: byte := 0x06

  const FLAG_HAS_PADDING: byte := 0x01
  const FLAG_COMPRESSED: byte := 0x02
  const FLAG_BATCH_MODE: byte := 0x10

  const CTRL_SESSION_INIT: byte := 0x01
  const CTRL_DISCONNECT: byte := 0x05
  const CTRL_PING: byte := 0x08
  const CTRL_PONG: byte := 0x09

  const HEADER_SIZE := 8

  datatype Frame = Frame(version: byte, typ: byte, flags: byte, sequence: uint32, payload: seq<byte>) {
    predicate HasPadding() {
      HasFlag(flags, FLAG_HAS_PADDING)
    }

    /** The frames the wire format can represent: the two nibbles and the 16-bit length lose nothing. */
    predicate Representable() {
      version < 16 && typ < 16 && |payload| < 0x1_0000
    }
  }

  function ControlFrame(subtype: byte, data: seq<byte>, sequence: uint32): Frame {
    Frame(VERSION, TYPE_CONTROL, 0, sequence, [subtype] + data)
  }

  function KeepaliveFrame(sequence: uint32): Frame {
    Frame(VERSION, TYPE_KEEPALIVE, 0, sequence, [])
  }

  function DataFrame(payload: seq<byte>, sequence: uint32): Frame {
    Frame(VERSION, TYPE_DATA, 0, sequence, payload)
  }

  function ControlSubtype(f: Frame): Option<byte> {
    if f.typ != TYPE_CONTROL || |f.payload| < 1 then None else Some(f.payload[0])
  }

  function ControlData(f: Frame): seq<byte> {
    if f.typ != TYPE_CONTROL || |f.payload| < 2 then [] else f.payload[1..]
  }

  // ---------------------------------------------------------------- encoding

  /** (version << 4) | (typ & 0x0F) on bytes: each operand keeps its low four bits. */
  function PackNibbles(version: byte, typ: byte): byte {
    version % 16 * 16 + typ % 16
  }

  /** (b >> 4) & 0x0F */
  function HighNibble(b: byte): byte {
    b / 16
  }

  /** b & 0x0F */
  function LowNibble(b: byte): byte {
    b % 16
  }

  function Header(f: Frame): (h: seq<byte>)
    ensures |h| == HEADER_SIZE
  {
    [PackNibbles(f.version, f.typ), f.flags] + PutU16(|f.payload|) + PutU32(f.sequence)
  }

  /** The random choice made by Encode: between 1 and 128 bytes, used only under the padding flag. */
  predicate PaddingChoice(pad: seq<byte>) {
    1 <= |pad| <= 128
  }

  function Trailer(f: Frame, pad: seq<byte>): seq<byte> {
    if f.HasPadding() then pad + [|pad| % 0x100] else []
  }

  function Wire(f: Frame, pad: seq<byte>): seq<byte> {
    Header(f) + f.payload + Trailer(f, pad)
  }

  /** Go's copy(buf[at:], src) for a source that fits. */
  method CopyAt(buf: array<byte>, at: nat, src: seq<byte>)
    requires at + |src| <= buf.Length
    modifies buf
    ensures buf[..] == old(buf[..at]) + src + old(buf[at + |src|..])
  {
    forall i | 0 <= i < |src| {
      buf[at + i] := src[i];
    }
  }

  /** The first eight bytes of the buffer. */
  method PutHeader(buf: array<byte>, f: Frame)
    requires HEADER_SIZE <= buf.Length
    modifies buf
    ensures buf[..HEADER_SIZE] == Header(f)
  {
    hide PutU16, PutU32, U16, U32, PackNibbles;
    buf[0] := PackNibbles(f.version, f.typ);
    buf[1] := f.flags;
    CopyAt(buf, 2, PutU16(|f.payload|));
    CopyAt(buf, 4, PutU32(f.sequence));
  }

  method Encode(f: Frame, pad: seq<byte>) returns (buf: array<byte>)
    requires f.HasPadding() ==> PaddingChoice(pad)
    ensures fresh(buf)
    ensures buf[..] == Wire(f, pad)
  {
    hide Header, HasFlag;
    var payloadLen := |f.payload|;
    var padLen := 0;
    var hasPadding := HasFlag(f.flags, FLAG_HAS_PADDING);
    if hasPadding {
      padLen := |pad|;
    }
    var totalLen := HEADER_SIZE + payloadLen + padLen;
    if hasPadding {
      totalLen := totalLen + 1;
    }
    buf := new byte[totalLen];
    PutHeader(buf, f);
    CopyAt(buf, HEADER_SIZE, f.payload);
    assert buf[..HEADER_SIZE + payloadLen] == Header(f) + f.payload;
    if hasPadding {
      var padStart := HEADER_SIZE + payloadLen;
      CopyAt(buf, padStart, pad);
      buf[totalLen - 1] := padLen % 0x100;
    }
  }

  // ---------------------------------------------------------------- decoding

  datatype DecodeError = TooShort | UnsupportedVersion | NoPadding | PaddingOverflow | PayloadOverflow

  function Decoded(data: seq<byte>): Result<Frame, DecodeError> {
    if |data| < HEADER_SIZE then Err(TooShort) else
    var version := HighNibble(data[0]);
    var typ := LowNibble(data[0]);
    var flags := data[1];
    var payloadLen := U16(data[2..4]);
    var sequence := U32(data[4..8]);
    if version != VERSION then Err(UnsupportedVersion) else
    var remaining := data[HEADER_SIZE..];
    if HasFlag(flags, FLAG_HAS_PADDING) then
      if |remaining| < 1 then Err(NoPadding) else
      var padLen := remaining[|remaining| - 1];
      if |remaining| < payloadLen + padLen + 1 then Err(PaddingOverflow)
      else Ok(Frame(version, typ, flags, sequence, remaining[..payloadLen]))
    else if |remaining| < payloadLen then Err(PayloadOverflow)
    else Ok(Frame(version, typ, flags, sequence, remaining[..payloadLen]))
  }

  /** What it means for a message to carry f, said without parsing: header and payload come first, and a
      padded message is long enough for the padding that its last byte announces. */
  predicate Carries(data: seq<byte>, f: Frame) {
    && f.version == VERSION
    && f.Representable()
    && Header(f) + f.payload <= data
    && (f.HasPadding() ==>
          && |data| > HEADER_SIZE
          && |data| - HEADER_SIZE >= |f.payload| + data[|data| - 1] + 1)
  }

  lemma HeaderLayout(f: Frame)
    ensures var h := Header(f);
            && h[0] == PackNibbles(f.version, f.typ)
            && h[1] == f.flags
            && h[2..4] == PutU16(|f.payload|)
            && h[4..8] == PutU32(f.sequence)
  {
  }

  /** The wire format, byte by byte: version and type share byte 0, then flags, then big-endian length and
      sequence number. */
  lemma WireFormat(f: Frame, pad: seq<byte>)
    requires f.Representable()
    ensures var w := Wire(f, pad);
            var b2: int, b3: int, b4: int, b5: int, b6: int, b7: int := w[2], w[3], w[4], w[5], w[6], w[7];
            && w[0] == 16 * f.version + f.typ
            && w[1] == f.flags
            && 256 * b2 + b3 == |f.payload|
            && 0x100_0000 * b4 + 0x1_0000 * b5 + 0x100 * b6 + b7 == f.sequence
            && w[HEADER_SIZE..HEADER_SIZE + |f.payload|] == f.payload
  {
    var w := Wire(f, pad);
    WireShape(f, pad);
    Slices(w, f, w[HEADER_SIZE + |f.payload|..]);
    HeaderLayout(f);
    HeaderRead(f);
    var length, sequence := w[2..4], w[4..8];
    assert w[2] == length[0] && w[3] == length[1];
    assert w[4] == sequence[0] && w[5] == sequence[1] && w[6] == sequence[2] && w[7] == sequence[3];
    U32Bytes(sequence);
  }

  /** Every byte of an encoded frame: the header fields cut to their width, the payload, and under flag 1 the
      padding and its length. */
  lemma WireBytes(f: Frame, pad: seq<byte>)
    ensures Wire(f, pad) ==
              [f.version % 16 * 16 + f.typ % 16, f.flags, |f.payload| / 0x100 % 0x100, |f.payload| % 0x100]
              + BigEndian(f.sequence) + f.payload + (if f.flags % 2 == 1 then pad + [|pad| % 0x100] else [])
  {
    hide BigEndian, PutU32;
    BigEndianIsPutU32(f.sequence);
  }

  lemma QuotientAndRest(q: int, r: int)
    requires 0 <= r < 16
    ensures (16 * q + r) / 16 == q && (16 * q + r) % 16 == r
  {
  }

  lemma Nibbles(version: byte, typ: byte)
    requires version < 16 && typ < 16
    ensures HighNibble(PackNibbles(version, typ)) == version && LowNibble(PackNibbles(version, typ)) == typ
  {
    QuotientAndRest(0, version);
    QuotientAndRest(0, typ);
    assert PackNibbles(version, typ) == 16 * version + typ;
    QuotientAndRest(version, typ);
  }

  lemma NibblesOfByte(b: byte)
    ensures HighNibble(b) < 16 && LowNibble(b) < 16 && PackNibbles(HighNibble(b), LowNibble(b)) == b
  {
  }

  /** Reading the fields back from a header that was written. */
  lemma HeaderRead(f: Frame)
    requires f.Representable()
    ensures var h := Header(f);
            && HighNibble(h[0]) == f.version
            && LowNibble(h[0]) == f.typ
            && h[1] == f.flags
            && U16(h[2..4]) == |f.payload|
            && U32(h[4..8]) == f.sequence
  {
    hide PutU16, PutU32, U16, U32, PackNibbles, HighNibble, LowNibble;
    U16Exact(|f.payload|);
    HeaderLayout(f);
    Nibbles(f.version, f.typ);
  }

  lemma SameHeader(a: seq<byte>, b: seq<byte>)
    requires |a| == |b| == HEADER_SIZE
    requires a[0] == b[0] && a[1] == b[1] && a[2..4] == b[2..4] && a[4..8] == b[4..8]
    ensures a == b
  {
    assert a == [a[0], a[1]] + a[2..4] + a[4..8];
    assert b == [b[0], b[1]] + b[2..4] + b[4..8];
  }

  /** Writing the fields that were read gives back the header. */
  lemma HeaderRebuilt(h: seq<byte>, f: Frame)
    requires |h| == HEADER_SIZE
    requires f.version == HighNibble(h[0]) && f.typ == LowNibble(h[0]) && f.flags == h[1]
    requires |f.payload| == U16(h[2..4]) && f.sequence == U32(h[4..8])
    ensures Header(f) == h && f.typ < 16 && f.version < 16
  {
    hide PutU16, PutU32, U16, U32, PackNibbles, HighNibble, LowNibble;
    HeaderLayout(f);
    PutOfU16(h[2..4]);
    PutOfU32(h[4..8]);
    NibblesOfByte(h[0]);
    SameHeader(Header(f), h);
  }

  /** Decode accepts a message with result f exactly when the message carries f. */
  lemma DecodeExactly(data: seq<byte>, f: Frame)
    ensures Decoded(data) == Ok(f) <==> Carries(data, f)
  {
    if Carries(data, f) {
      Slices(data, f, data[HEADER_SIZE + |f.payload|..]);
      HeaderRead(f);
    }
    if Decoded(data) == Ok(f) {
      var h := data[..HEADER_SIZE];
      assert h[2..4] == data[2..4] && h[4..8] == data[4..8];
      HeaderRebuilt(h, f);
      assert f.payload == data[HEADER_SIZE..][..|f.payload|];
      assert Header(f) + f.payload == data[..HEADER_SIZE + |f.payload|];
    }
  }

  /** The length that bytes 2 and 3 of a message announce. */
  function Announced(data: seq<byte>): int
    requires |data| >= 8
  {
    var b2: int, b3: int := data[2], data[3];
    0x100 * b2 + b3
  }

  /** Decode byte by byte: what it returns, and each error with its condition. */
  lemma DecodedBytes(data: seq<byte>)
    ensures Decoded(data) == Err(TooShort) <==> |data| < 8
    ensures Decoded(data) == Err(UnsupportedVersion) <==> |data| >= 8 && data[0] / 16 != 2
    ensures Decoded(data) == Err(NoPadding) <==> |data| == 8 && data[0] / 16 == 2 && data[1] % 2 == 1
    ensures Decoded(data) == Err(PaddingOverflow) <==>
              && |data| > 8 && data[0] / 16 == 2 && data[1] % 2 == 1
              && |data| < 8 + Announced(data) + data[|data| - 1] + 1
    ensures Decoded(data) == Err(PayloadOverflow) <==>
              |data| >= 8 && data[0] / 16 == 2 && data[1] % 2 == 0 && |data| < 8 + Announced(data)
    ensures Decoded(data).Ok? ==>
              var b4: int, b5: int, b6: int, b7: int := data[4], data[5], data[6], data[7];
              Decoded(data).value == Frame(2, data[0] % 16, data[1],
                                           0x100_0000 * b4 + 0x1_0000 * b5 + 0x100 * b6 + b7,
                                           data[8..8 + Announced(data)])
  {
    if |data| >= 8 {
      var length, sequence := data[2..4], data[4..8];
      assert length[0] == data[2] && length[1] == data[3];
      U32Bytes(sequence);
      assert sequence[0] == data[4] && sequence[1] == data[5] && sequence[2] == data[6] && sequence[3] == data[7];
      if |data| >= 8 + Announced(data) {
        assert data[8..][..Announced(data)] == data[8..8 + Announced(data)];
      }
    }
  }

  /** Where a header h and a payload p lie in the message that starts with them. */
  lemma Parts(data: seq<byte>, h: seq<byte>, p: seq<byte>)
    requires |h| == HEADER_SIZE && h + p <= data
    ensures data == h + p + data[HEADER_SIZE + |p|..]
    ensures data[..HEADER_SIZE] == h && data[HEADER_SIZE..HEADER_SIZE + |p|] == p
    ensures data[HEADER_SIZE..][..|p|] == p
  {
    assert data == data[..HEADER_SIZE + |p|] + data[HEADER_SIZE + |p|..];
    assert data[..HEADER_SIZE + |p|] == h + p;
  }

  lemma FieldsOf(data: seq<byte>, h: seq<byte>)
    requires |h| == HEADER_SIZE <= |data| && data[..HEADER_SIZE] == h
    ensures data[0] == h[0] && data[1] == h[1] && data[2..4] == h[2..4] && data[4..8] == h[4..8]
  {
    assert data[2..4] == data[..HEADER_SIZE][2..4] && data[4..8] == data[..HEADER_SIZE][4..8];
  }

  /** Where the fields of a message lie. */
  lemma Slices(data: seq<byte>, f: Frame, rest: seq<byte>)
    requires Header(f) + f.payload <= data && data[HEADER_SIZE + |f.payload|..] == rest
    ensures data == Header(f) + f.payload + rest
    ensures data[0] == Header(f)[0] && data[1] == Header(f)[1]
    ensures data[2..4] == Header(f)[2..4] && data[4..8] == Header(f)[4..8]
    ensures data[HEADER_SIZE..][..|f.payload|] == f.payload
    ensures data[HEADER_SIZE..HEADER_SIZE + |f.payload|] == f.payload
  {
    Parts(data, Header(f), f.payload);
    FieldsOf(data, Header(f));
  }

  /** Decode undoes Encode, whatever padding was drawn, exactly for version-2 frames whose type and
      payload length fit the header. */
  lemma FrameRoundTrip(f: Frame, pad: seq<byte>)
    requires f.HasPadding() ==> PaddingChoice(pad)
    ensures Decoded(Wire(f, pad)) == Ok(f) <==> f.version == VERSION && f.Representable()
  {
    DecodeExactly(Wire(f, pad), f);
    WireCarries(f, pad);
  }

  lemma WireShape(f: Frame, pad: seq<byte>)
    ensures var w := Wire(f, pad);
            && Header(f) + f.payload <= w
            && (f.HasPadding() ==>
                  && |w| - HEADER_SIZE == |f.payload| + |pad| + 1
                  && w[|w| - 1] == |pad| % 0x100
                  && (|pad| <= 128 ==> w[|w| - 1] == |pad|))
  {
  }

  lemma WireCarries(f: Frame, pad: seq<byte>)
    requires f.HasPadding() ==> PaddingChoice(pad)
    ensures Carries(Wire(f, pad), f) <==> f.version == VERSION && f.Representable()
  {
    WireShape(f, pad);
  }

  /** Re-encoding whatever Decode accepts gives back the header and payload bytes that were received. */
  lemma DecodeReencodes(data: seq<byte>, pad: seq<byte>)
    requires Decoded(data).Ok?
    requires Decoded(data).value.HasPadding() ==> PaddingChoice(pad)
    ensures var f := Decoded(data).value;
            && Wire(f, pad)[..HEADER_SIZE + |f.payload|] <= data
            && Decoded(Wire(f, pad)) == Ok(f)
  {
    var f := Decoded(data).value;
    DecodeExactly(data, f);
    FrameRoundTrip(f, pad);
    assert Wire(f, pad)[..HEADER_SIZE + |f.payload|] == Header(f) + f.payload;
  }

  method Decode(data: seq<byte>) returns (r: Result<Frame, DecodeError>)
    ensures r == Decoded(data)
    ensures r.Ok? ==> Carries(data, r.value)
    ensures r.Err? ==> forall f :: !Carries(data, f)
  {
    forall f
      ensures Decoded(data) == Ok(f) <==> Carries(data, f)
    {
      DecodeExactly(data, f);
    }
    if |data| < HEADER_SIZE {
      return Err(TooShort);
    }
    var f := Frame(0, 0, 0, 0, []);
    f := f.(version := HighNibble(data[0]));
    f := f.(typ := LowNibble(data[0]));
    f := f.(flags := data[1]);
    var payloadLen := U16(data[2..4]);
    f := f.(sequence := U32(data[4..8]));
    if f.version != VERSION {
      return Err(UnsupportedVersion);
    }
    var remaining := data[HEADER_SIZE..];
    if HasFlag(f.flags, FLAG_HAS_PADDING) {
      if |remaining| < 1 {
        return Err(NoPadding);
      }
      var padLen := remaining[|remaining| - 1];
      var expectedLen := payloadLen + padLen + 1;
      if |remaining| < expectedLen {
        return Err(PaddingOverflow);
      }
      f := f.(payload := remaining[..payloadLen]);
    } else {
      if |remaining| < payloadLen {
        return Err(PayloadOverflow);
      }
      f := f.(payload := remaining[..payloadLen]);
    }
    r := Ok(f);
  }

  // ---------------------------------------------------------------- stream reading

  datatype ReadError = ShortHeader | ShortPayload

  /** An io.Reader over bytes already received; rest is what has not been read yet. */
  class Reader {
    var rest: seq<byte>

    constructor (data: seq<byte>)
      ensures rest == data
    {
      rest := data;
    }

    /** io.ReadFull: on a short stream it consumes what there is and fails. */
    method ReadFull(n: nat) returns (r: Option<seq<byte>>)
      modifies this
      ensures |old(rest)| >= n ==> r == Some(old(rest)[..n]) && rest == old(rest)[n..]
      ensures |old(rest)| < n ==> r == None && rest == []
    {
      if |rest| < n {
        rest := [];
        return None;
      }
      r := Some(rest[..n]);
      rest := rest[n..];
    }
  }

  /** One frame off the front of a stream, with what is left. The version is not checked and padding is
      not skipped. */
  function Taken(data: seq<byte>): (Result<Frame, ReadError>, seq<byte>) {
    if |data| < HEADER_SIZE then (Err(ShortHeader), []) else
    var payloadLen := U16(data[2..4]);
    if |data| < HEADER_SIZE + payloadLen then (Err(ShortPayload), []) else
    (Ok(Frame(HighNibble(data[0]), LowNibble(data[0]), data[1], U32(data[4..8]),
              data[HEADER_SIZE..HEADER_SIZE + payloadLen])),
     data[HEADER_SIZE + payloadLen..])
  }

  method DecodeFromReader(r: Reader) returns (res: Result<Frame, ReadError>)
    modifies r
    ensures (res, r.rest) == Taken(old(r.rest))
  {
    var data := r.rest;
    var header := r.ReadFull(HEADER_SIZE);
    if header.None? {
      return Err(ShortHeader);
    }
    var h := header.value;
    assert h[2..4] == data[2..4] && h[4..8] == data[4..8];
    var payloadLen := U16(h[2..4]);
    var flags := h[1];
    var payload := [];
    if payloadLen > 0 {
      var p := r.ReadFull(payloadLen);
      if p.None? {
        return Err(ShortPayload);
      }
      payload := p.value;
    }
    assert payload == data[HEADER_SIZE..HEADER_SIZE + payloadLen];
    assert r.rest == data[HEADER_SIZE + payloadLen..];
    res := Ok(Frame(HighNibble(h[0]), LowNibble(h[0]), flags, U32(h[4..8]), payload));
  }

  /** Taking a frame succeeds exactly on a stream that starts with that frame's header and payload. */
  lemma TakenExactly(data: seq<byte>, f: Frame, rest: seq<byte>)
    ensures Taken(data) == (Ok(f), rest) <==> f.Representable() && data == Header(f) + f.payload + rest
  {
    if f.Representable() && data == Header(f) + f.payload + rest {
      TakenOf(data, f, rest);
    }
    if Taken(data) == (Ok(f), rest) {
      TakenFrom(data, f, rest);
    }
  }

  lemma TakenOf(data: seq<byte>, f: Frame, rest: seq<byte>)
    requires f.Representable() && data == Header(f) + f.payload + rest
    ensures Taken(data) == (Ok(f), rest)
  {
    assert Header(f) + f.payload <= data && data[HEADER_SIZE + |f.payload|..] == rest;
    Slices(data, f, rest);
    HeaderRead(f);
  }

  lemma TakenFrom(data: seq<byte>, f: Frame, rest: seq<byte>)
    requires Taken(data) == (Ok(f), rest)
    ensures f.Representable() && data == Header(f) + f.payload + rest
  {
    hide PutU16, PutU32, U16, U32, PackNibbles, HighNibble, LowNibble;
    var h := data[..HEADER_SIZE];
    assert h[2..4] == data[2..4];
    assert h[4..8] == data[4..8];
    HeaderRebuilt(h, f);
    assert data == h + data[HEADER_SIZE..HEADER_SIZE + |f.payload|] + rest;
  }

  /** The errors of the stream reader, which has then used up the stream. */
  lemma TakenErrors(data: seq<byte>)
    ensures Taken(data) == (Err(ShortHeader), []) <==> |data| < 8
    ensures Taken(data) == (Err(ShortPayload), []) <==> |data| >= 8 && |data| < 8 + Announced(data)
    ensures Taken(data).0.Ok? <==> |data| >= 8 && |data| >= 8 + Announced(data)
  {
    if |data| >= 8 {
      var length := data[2..4];
      assert length[0] == data[2] && length[1] == data[3];
    }
  }

  /** Calling DecodeFromReader until the stream is empty. */
  function AllTaken(data: seq<byte>): Result<seq<Frame>, ReadError>
    decreases |data|
  {
    if data == [] then Ok([]) else
    var (r, rest) := Taken(data);
    if r.Err? then Err(r.error) else
    var more := AllTaken(rest);
    if more.Err? then more else Ok([r.value] + more.value)
  }

  /** The outcome when some frames have been taken already. */
  function Before(frames: seq<Frame>, rest: Result<seq<Frame>, ReadError>): Result<seq<Frame>, ReadError> {
    if rest.Err? then rest else Ok(frames + rest.value)
  }

  lemma AllTakenStep(frames: seq<Frame>, data: seq<byte>)
    requires data != []
    ensures var (r, rest) := Taken(data);
            Before(frames, AllTaken(data)) ==
              if r.Err? then Err(r.error) else Before(frames + [r.value], AllTaken(rest))
  {
    var (r, rest) := Taken(data);
    if r.Ok? && AllTaken(rest).Ok? {
      assert frames + ([r.value] + AllTaken(rest).value) == frames + [r.value] + AllTaken(rest).value;
    }
  }

  /** Reads a stream to its end, one frame after the other. */
  method ReadAll(r: Reader) returns (res: Result<seq<Frame>, ReadError>)
    modifies r
    ensures res == AllTaken(old(r.rest))
  {
    var frames := [];
    assert AllTaken(r.rest).Ok? ==> [] + AllTaken(r.rest).value == AllTaken(r.rest).value;
    while r.rest != []
      invariant Before(frames, AllTaken(r.rest)) == AllTaken(old(r.rest))
      decreases |r.rest|
    {
      AllTakenStep(frames, r.rest);
      var frame := DecodeFromReader(r);
      if frame.Err? {
        return Err(frame.error);
      }
      frames := frames + [frame.value];
    }
    assert frames + [] == frames;
    res := Ok(frames);
  }

  function Stream(fs: seq<Frame>, pads: seq<seq<byte>>): seq<byte>
    requires |fs| == |pads|
  {
    if fs == [] then [] else Wire(fs[0], pads[0]) + Stream(fs[1..], pads[1..])
  }

  /** Header and payload bytes alone: what AllTaken accounts for. */
  function Bare(fs: seq<Frame>): seq<byte> {
    if fs == [] then [] else Header(fs[0]) + fs[0].payload + Bare(fs[1..])
  }

  /** A stream is split into fs exactly when it is the bare bytes of representable frames fs. */
  lemma {:induction false} AllTakenExactly(data: seq<byte>, fs: seq<Frame>)
    ensures AllTaken(data) == Ok(fs) <==> data == Bare(fs) && forall f | f in fs :: f.Representable()
    decreases |data|
  {
    if data == [] {
      if fs != [] {
        assert |Bare(fs)| >= HEADER_SIZE;
      }
    } else if fs != [] {
      var (r, rest) := Taken(data);
      assert fs == [fs[0]] + fs[1..];
      if r.Ok? {
        TakenExactly(data, r.value, rest);
        AllTakenExactly(rest, fs[1..]);
      }
      if data == Bare(fs) && fs[0].Representable() {
        TakenExactly(data, fs[0], Bare(fs[1..]));
      }
    }
  }

  lemma {:induction false} StreamLength(fs: seq<Frame>, pads: seq<seq<byte>>)
    requires |fs| == |pads|
    ensures |Stream(fs, pads)| >= |Bare(fs)|
    ensures (forall f | f in fs :: !f.HasPadding()) ==> Stream(fs, pads) == Bare(fs)
    ensures Stream(fs, pads) == Bare(fs) ==> forall f | f in fs :: !f.HasPadding()
  {
    if fs != [] {
      StreamLength(fs[1..], pads[1..]);
      assert fs == [fs[0]] + fs[1..];
      assert |Wire(fs[0], pads[0])| == |Header(fs[0]) + fs[0].payload| + |Trailer(fs[0], pads[0])|;
      if Stream(fs, pads) == Bare(fs) {
        assert Trailer(fs[0], pads[0]) == [];
        assert Wire(fs[0], pads[0]) == Header(fs[0]) + fs[0].payload;
        assert Stream(fs, pads)[|Wire(fs[0], pads[0])|..] == Stream(fs[1..], pads[1..]);
        assert Bare(fs)[|Wire(fs[0], pads[0])|..] == Bare(fs[1..]);
      }
    }
  }

  /** Reading a concatenation of encoded frames gives exactly those frames, nothing left over, if and only
      if every frame fits the header and none is padded. */
  lemma StreamRoundTrip(fs: seq<Frame>, pads: seq<seq<byte>>)
    requires |fs| == |pads|
    ensures AllTaken(Stream(fs, pads)) == Ok(fs) <==>
              forall f | f in fs :: f.Representable() && !f.HasPadding()
  {
    AllTakenExactly(Stream(fs, pads), fs);
    StreamLength(fs, pads);
  }

  /** On one message the two readers agree: the stream reader takes the frame that Decode returns and
      leaves exactly the bytes behind its payload. */
  lemma ReaderAgreesWithDecode(data: seq<byte>)
    requires Decoded(data).Ok?
    ensures var f := Decoded(data).value;
            Taken(data) == (Ok(f), data[HEADER_SIZE + |f.payload|..])
  {
    var f := Decoded(data).value;
    DecodeExactly(data, f);
    var rest := data[HEADER_SIZE + |f.payload|..];
    Slices(data, f, rest);
    TakenExactly(data, f, rest);
  }
}
