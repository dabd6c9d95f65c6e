/** Optional payload compression. LZ4 is an abstract block codec known only by its contract. */
module Compression {
  import opened Bytes
  import opened Frames

  /** lz4's CompressBlock and UncompressBlock: None is an error; an empty block means "incompressible". */
  datatype Codec = Codec(compressBlock: seq<byte> -> Option<seq<byte>>,
                         uncompressBlock: (seq<byte>, nat) -> Option<seq<byte>>) {

    predicate Undone(data: seq<byte>, block: Option<seq<byte>>) {
      block.Some? && block.value != [] ==> uncompressBlock(block.value, |data|) == Some(data)
    }

    predicate Within(n: nat, data: Option<seq<byte>>) {
      data.Some? ==> |data.value| <= n
    }

    /** The library's contract: a block decompresses, into a buffer of the original size, to what was
        compressed; and decompression never overruns its buffer. */
    ghost predicate Lossless() {
      && (forall data :: Undone(data, compressBlock(data)))
      && (forall z, n: nat :: Within(n, uncompressBlock(z, n)))
    }
  }

  function CompressLZ4(c: Codec, data: seq<byte>): Option<seq<byte>> {
    var block := c.compressBlock(data);
    if block == Some([]) then Some(data) else block
  }

  /** The original length in front of a compressed block, converted to uint32. */
  function SizeField(n: nat): (b: seq<byte>)
    ensures |b| == 4
    ensures n < 0x1_0000_0000 ==> U32(b) == n
  {
    PutU32(n % 0x1_0000_0000)
  }

  predicate IsCompressed(f: Frame) {
    HasFlag(f.flags, FLAG_COMPRESSED)
  }

  function CompressFrame(c: Codec, f: Frame): Frame {
    if |f.payload| < 256 then f else
    var compressed := CompressLZ4(c, f.payload);
    if compressed.None? || |compressed.value| >= |f.payload| * 9 / 10 then f else
    f.(flags := WithFlag(f.flags, FLAG_COMPRESSED),
       payload := SizeField(|f.payload|) + compressed.value)
  }

  datatype DecompressError = CompressedTooShort | SizeTooLarge | BadBlock

  function DecompressFrame(c: Codec, f: Frame): Result<Frame, DecompressError> {
    if !IsCompressed(f) then Ok(f) else
    if |f.payload| < 4 then Err(CompressedTooShort) else
    var origSize := U32(f.payload[..4]);
    if origSize > 65535 then Err(SizeTooLarge) else
    var data := c.uncompressBlock(f.payload[4..], origSize);
    if data.None? then Err(BadBlock)
    else Ok(f.(flags := WithoutFlag(f.flags, FLAG_COMPRESSED), payload := data.value))
  }

  /** Compression either leaves the frame alone or saves at least 10%, so that the payload, its 4-byte length
      included, is strictly shorter; the flag records which, so a raw fallback is never flagged. */
  lemma CompressionGains(c: Codec, f: Frame)
    requires !IsCompressed(f)
    ensures var g := CompressFrame(c, f);
            && (IsCompressed(g) <==> g != f)
            && (g != f ==> |g.payload| < |f.payload| && 10 * (|g.payload| - 4) < 9 * |f.payload|)
            && WithoutFlag(g.flags, FLAG_COMPRESSED) == f.flags
            && g.version == f.version && g.typ == f.typ && g.sequence == f.sequence
            && (g.HasPadding() <==> f.HasPadding())
  {
  }

  lemma SizeBytes(n: nat)
    ensures SizeField(n) == BigEndian(n % 0x1_0000_0000)
  {
    BigEndianIsPutU32(n % 0x1_0000_0000);
  }

  /** When a frame is compressed, and into what: its payload has at least 256 bytes and the codec makes of it a
      nonempty block of less than nine tenths, which then follows the big-endian length. */
  lemma CompressedExactly(c: Codec, f: Frame)
    requires !IsCompressed(f)
    ensures IsCompressed(CompressFrame(c, f)) <==> WorthIt(c, f.payload)
    ensures WorthIt(c, f.payload) ==>
              && CompressFrame(c, f).flags == f.flags + 2
              && CompressFrame(c, f).payload
                 == BigEndian(|f.payload| % 0x1_0000_0000) + c.compressBlock(f.payload).value
    ensures !WorthIt(c, f.payload) ==> CompressFrame(c, f) == f
  {
    hide BigEndian, PutU32, SizeField, U32;
    if WorthIt(c, f.payload) {
      SizeBytes(|f.payload|);
    }
  }

  predicate WorthIt(c: Codec, payload: seq<byte>) {
    var block := c.compressBlock(payload);
    |payload| >= 256 && block.Some? && block.value != [] && |block.value| < |payload| * 9 / 10
  }

  /** What decompression makes of a frame, or why it fails. */
  lemma DecompressedExactly(c: Codec, f: Frame)
    ensures f.flags / 2 % 2 == 0 ==> DecompressFrame(c, f) == Ok(f)
    ensures f.flags / 2 % 2 == 1 ==>
              if |f.payload| < 4 then DecompressFrame(c, f) == Err(CompressedTooShort)
              else
                var b0: int, b1: int, b2: int, b3: int := f.payload[0], f.payload[1], f.payload[2], f.payload[3];
                var size := 0x100_0000 * b0 + 0x1_0000 * b1 + 0x100 * b2 + b3;
                var data := c.uncompressBlock(f.payload[4..], size);
                DecompressFrame(c, f) == if size > 65535 then Err(SizeTooLarge) else if data.None? then Err(BadBlock)
                                         else Ok(Frame(f.version, f.typ, f.flags - 2, f.sequence, data.value))
  {
    if |f.payload| >= 4 {
      U32Bytes(f.payload[..4]);
    }
  }

  lemma CompressedPayload(c: Codec, f: Frame)
    requires c.Lossless() && CompressFrame(c, f) != f
    ensures var g := CompressFrame(c, f);
            && |g.payload| >= 4
            && (|f.payload| <= 65535 ==> U32(g.payload[..4]) == |f.payload|)
            && c.uncompressBlock(g.payload[4..], |f.payload|) == Some(f.payload)
  {
    var z := CompressLZ4(c, f.payload).value;
    SplitSizeField(SizeField(|f.payload|), z);
    assert c.compressBlock(f.payload) != Some([]);
  }

  lemma SplitSizeField(size: seq<byte>, z: seq<byte>)
    requires |size| == 4
    ensures (size + z)[..4] == size && (size + z)[4..] == z
  {
  }

  lemma DecompressedSize(c: Codec, g: Frame)
    requires c.Lossless() && IsCompressed(g) && DecompressFrame(c, g).Ok?
    ensures |DecompressFrame(c, g).value.payload| <= 65535
  {
  }

  lemma DecompressOf(c: Codec, g: Frame, data: seq<byte>)
    requires IsCompressed(g) && |g.payload| >= 4
    requires U32(g.payload[..4]) == |data| <= 65535
    requires c.uncompressBlock(g.payload[4..], |data|) == Some(data)
    ensures DecompressFrame(c, g) == Ok(g.(flags := WithoutFlag(g.flags, FLAG_COMPRESSED), payload := data))
  {
  }

  lemma CompressedUndone(c: Codec, f: Frame)
    requires c.Lossless() && !IsCompressed(f) && CompressFrame(c, f) != f && |f.payload| <= 65535
    ensures DecompressFrame(c, CompressFrame(c, f)) == Ok(f)
  {
    CompressionGains(c, f);
    CompressedPayload(c, f);
    DecompressOf(c, CompressFrame(c, f), f.payload);
  }

  /** Decompression undoes compression exactly when the frame went raw or its payload is at most 65535 bytes. */
  lemma CompressionRoundTrip(c: Codec, f: Frame)
    requires c.Lossless() && !IsCompressed(f)
    ensures DecompressFrame(c, CompressFrame(c, f)) == Ok(f) <==>
              CompressFrame(c, f) == f || |f.payload| <= 65535
  {
    CompressionGains(c, f);
    if CompressFrame(c, f) != f {
      if |f.payload| <= 65535 {
        CompressedUndone(c, f);
      } else if DecompressFrame(c, CompressFrame(c, f)).Ok? {
        DecompressedSize(c, CompressFrame(c, f));
      }
    }
  }

  /** What the receiver recovers from a message. */
  function Received(c: Codec, message: seq<byte>): Option<Frame> {
    var d := Decoded(message);
    if d.Err? then None else
    var f := DecompressFrame(c, d.value);
    if f.Err? then None else Some(f.value)
  }

  /** CompressFrame, Encode, Decode, DecompressFrame in sequence is the identity, whatever the padding and
      whether or not the codec managed to compress, exactly on the version-2 frames that fit the header. */
  lemma PipelineIdentity(c: Codec, f: Frame, pad: seq<byte>)
    requires c.Lossless() && !IsCompressed(f) && PaddingChoice(pad)
    ensures Received(c, Wire(CompressFrame(c, f), pad)) == Some(f) <==> f.version == VERSION && f.Representable()
  {
    var g := CompressFrame(c, f);
    CompressionGains(c, f);
    CompressionRoundTrip(c, f);
    FrameRoundTrip(g, pad);
    var d := Decoded(Wire(g, pad));
    if d.Ok? {
      DecodeExactly(Wire(g, pad), d.value);
    }
  }

  /** Without CompressFrame the same holds. */
  lemma RawIdentity(c: Codec, f: Frame, pad: seq<byte>)
    requires !IsCompressed(f) && PaddingChoice(pad) && f.version == VERSION && f.Representable()
    ensures Received(c, Wire(f, pad)) == Some(f)
  {
    FrameRoundTrip(f, pad);
  }
}
