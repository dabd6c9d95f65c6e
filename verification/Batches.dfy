/** Batches: several packets in one DATA payload, and the encoder that collects them. */
module Batches {
  import opened Bytes

  type Packet = seq<byte>

  const MAX_BATCH_SIZE := 64
  const MAX_BATCH_BYTES := 60000

  // ---------------------------------------------------------------- the format

  function Entry(p: Packet): seq<byte> {
    PutU16(|p|) + p
  }

  function Entries(ps: seq<Packet>): seq<byte> {
    if ps == [] then [] else Entry(ps[0]) + Entries(ps[1..])
  }

  function BatchBytes(ps: seq<Packet>): seq<byte> {
    PutU16(|ps|) + Entries(ps)
  }

  /** The sum of len + 2, which the encoder keeps in its size field. */
  function EntriesSize(ps: seq<Packet>): nat {
    if ps == [] then 0 else |ps[0]| + 2 + EntriesSize(ps[1..])
  }

  /** The batches the format can carry. */
  predicate Carriable(ps: seq<Packet>) {
    1 <= |ps| <= MAX_BATCH_SIZE && Short(ps)
  }

  predicate Short(ps: seq<Packet>) {
    forall p | p in ps :: |p| < 0x1_0000
  }

  lemma {:induction false} EntriesAppend(ps: seq<Packet>, qs: seq<Packet>)
    ensures Entries(ps + qs) == Entries(ps) + Entries(qs)
    ensures EntriesSize(ps + qs) == EntriesSize(ps) + EntriesSize(qs)
  {
    if ps == [] {
      assert ps + qs == qs;
    } else {
      EntriesAppend(ps[1..], qs);
      assert (ps + qs)[1..] == ps[1..] + qs && (ps + qs)[0] == ps[0];
      Regroup(Entry(ps[0]), Entries(ps[1..]), Entries(qs));
    }
  }

  lemma {:induction false} EntriesLength(ps: seq<Packet>)
    ensures |Entries(ps)| == EntriesSize(ps)
  {
    if ps != [] {
      EntriesLength(ps[1..]);
    }
  }

  /** What one more packet adds, and that it still fits the total. */
  lemma SplitAt(ps: seq<Packet>, i: nat)
    requires i < |ps|
    ensures Entries(ps[..i + 1]) == Entries(ps[..i]) + Entry(ps[i])
    ensures EntriesSize(ps[..i + 1]) == EntriesSize(ps[..i]) + 2 + |ps[i]| <= EntriesSize(ps)
  {
    var one := [ps[i]];
    assert Entries(one) == Entry(ps[i]) + Entries(one[1..]);
    assert EntriesSize(one) == |ps[i]| + 2 + EntriesSize(one[1..]);
    EntriesAppend(ps[..i], one);
    assert ps[..i + 1] == ps[..i] + one;
    EntriesAppend(ps[..i + 1], ps[i + 1..]);
    assert ps == ps[..i + 1] + ps[i + 1..];
  }

  // ---------------------------------------------------------------- the encoder

  /** One entry written into the buffer at offset: its length, then a copy of the packet. */
  method PutEntry(buf: array<byte>, offset: nat, pkt: Packet)
    requires offset + 2 + |pkt| <= buf.Length
    modifies buf
    ensures buf[..offset + 2 + |pkt|] == old(buf[..offset]) + Entry(pkt)
  {
    var len := PutU16(|pkt|);
    buf[offset], buf[offset + 1] := len[0], len[1];
    forall k | 0 <= k < |pkt| {
      buf[offset + 2 + k] := pkt[k];
    }
    assert buf[offset + 2..offset + 2 + |pkt|] == pkt;
  }

  predicate ShouldFlush(ps: seq<Packet>) {
    |ps| >= MAX_BATCH_SIZE || EntriesSize(ps) >= MAX_BATCH_BYTES
  }

  class BatchEncoder {
    var packets: seq<Packet>
    var size: nat

    predicate Valid()
      reads this
    {
      size == EntriesSize(packets)
    }

    constructor ()
      ensures Valid() && packets == []
    {
      packets := [];
      size := 0;
    }

    method Add(packet: Packet) returns (flush: bool)
      requires Valid()
      modifies this
      ensures Valid()
      ensures packets == old(packets) + [packet]
      ensures flush <==> ShouldFlush(packets)
    {
      EntriesAppend(packets, [packet]);
      packets := packets + [packet];
      size := size + |packet| + 2;
      flush := |packets| >= MAX_BATCH_SIZE || size >= MAX_BATCH_BYTES;
    }

    method Flush() returns (data: Option<seq<byte>>)
      requires Valid()
      modifies this
      ensures Valid() && packets == []
      ensures data == if old(packets) == [] then None else Some(BatchBytes(old(packets)))
    {
      if |packets| == 0 {
        return None;
      }
      var total := 2 + size;
      var buf := new byte[total];
      var count := PutU16(|packets|);
      buf[0], buf[1] := count[0], count[1];
      assert buf[..2] == count;
      var offset := 2;
      var i := 0;
      while i < |packets|
        invariant 0 <= i <= |packets|
        invariant packets == old(packets) && size == old(size)
        invariant offset == 2 + EntriesSize(packets[..i]) <= buf.Length
        invariant buf[..offset] == count + Entries(packets[..i])
      {
        SplitAt(packets, i);
        PutEntry(buf, offset, packets[i]);
        Regroup(count, Entries(packets[..i]), Entry(packets[i]));
        offset := offset + 2 + |packets[i]|;
        i := i + 1;
      }
      assert packets[..i] == packets;
      data := Some(buf[..offset]);
      packets := [];
      size := 0;
    }

    method Reset()
      modifies this
      ensures Valid() && packets == []
    {
      packets := [];
      size := 0;
    }
  }

  // ---------------------------------------------------------------- the parser

  datatype BatchError = BatchTooShort | InvalidCount(count: nat) | Truncated(packet: nat) | Overflow(packet: nat)

  type Parse = Result<seq<Packet>, BatchError>

  /** The packets numbered i + 1 to count, read from what is left of the payload. */
  function ParsedEntries(data: seq<byte>, i: nat, count: nat): (r: Parse)
    requires i <= count
    ensures r.Ok? ==> |r.value| == count - i
    decreases count - i
  {
    if i == count then Ok([]) else
    if |data| < 2 then Err(Truncated(i + 1)) else
    var pktLen := U16(data[..2]);
    if |data| < 2 + pktLen then Err(Overflow(i + 1)) else
    After([data[2..2 + pktLen]], ParsedEntries(data[2 + pktLen..], i + 1, count))
  }

  function ParsedBatch(data: seq<byte>): Parse {
    if |data| < 2 then Err(BatchTooShort) else
    var count := U16(data[..2]);
    if count == 0 || count > MAX_BATCH_SIZE then Err(InvalidCount(count)) else
    ParsedEntries(data[2..], 0, count)
  }

  /** The outcome of a parse whose first packets are already known. */
  function After(packets: seq<Packet>, rest: Parse): Parse {
    if rest.Err? then rest else Ok(packets + rest.value)
  }

  lemma AfterNone(rest: Parse)
    ensures After([], rest) == rest
  {
    if rest.Ok? {
      assert [] + rest.value == rest.value;
    }
  }

  lemma AfterOne(packets: seq<Packet>, pkt: Packet, rest: Parse)
    ensures After(packets, After([pkt], rest)) == After(packets + [pkt], rest)
  {
    if rest.Ok? {
      assert packets + ([pkt] + rest.value) == packets + [pkt] + rest.value;
    }
  }

  /** One entry at an offset: why the parse ends there, or how it goes on. */
  lemma ParsedAt(data: seq<byte>, offset: nat, i: nat, count: nat, packets: seq<Packet>)
    requires i < count && offset <= |data|
    ensures var all := After(packets, ParsedEntries(data[offset..], i, count));
            if offset + 2 > |data| then all == Err(Truncated(i + 1))
            else
              var end := offset + 2 + U16(data[offset..offset + 2]);
              if end > |data| then all == Err(Overflow(i + 1))
              else all == After(packets + [data[offset + 2..end]], ParsedEntries(data[end..], i + 1, count))
  {
    var rest := data[offset..];
    if offset + 2 <= |data| {
      assert rest[..2] == data[offset..offset + 2];
      var pktLen := U16(data[offset..offset + 2]);
      var end := offset + 2 + pktLen;
      if end <= |data| {
        assert rest[2..2 + pktLen] == data[offset + 2..end] && rest[2 + pktLen..] == data[end..];
        AfterOne(packets, data[offset + 2..end], ParsedEntries(data[end..], i + 1, count));
      }
    }
  }

  lemma ParsedAll(data: seq<byte>, count: nat, packets: seq<Packet>)
    ensures After(packets, ParsedEntries(data, count, count)) == Ok(packets)
  {
    assert packets + [] == packets;
  }

  method DecodeBatch(data: seq<byte>) returns (r: Parse)
    ensures r == ParsedBatch(data)
  {
    hide ParsedEntries, After;
    if |data| < 2 {
      return Err(BatchTooShort);
    }
    var count := U16(data[..2]);
    if count == 0 || count > MAX_BATCH_SIZE {
      return Err(InvalidCount(count));
    }
    var packets: seq<Packet> := [];
    var offset := 2;
    var i := 0;
    AfterNone(ParsedEntries(data[2..], 0, count));
    while i < count
      invariant 0 <= i <= count && 2 <= offset <= |data|
      invariant ParsedBatch(data) == After(packets, ParsedEntries(data[offset..], i, count))
    {
      ParsedAt(data, offset, i, count, packets);
      if offset + 2 > |data| {
        return Err(Truncated(i + 1));
      }
      var pktLen := U16(data[offset..offset + 2]);
      offset := offset + 2;
      if offset + pktLen > |data| {
        return Err(Overflow(i + 1));
      }
      var pkt := data[offset..offset + pktLen];
      packets := packets + [pkt];
      offset := offset + pktLen;
      i := i + 1;
    }
    ParsedAll(data[offset..], count, packets);
    r := Ok(packets);
  }

  lemma EntryFront(data: seq<byte>, p: Packet, rest: seq<byte>)
    requires |p| < 0x1_0000
    ensures data == Entry(p) + rest <==>
              && |data| >= 2 && U16(data[..2]) == |p|
              && |data| >= 2 + |p| && data[2..2 + |p|] == p && data[2 + |p|..] == rest
  {
    if data == Entry(p) + rest {
      assert data[..2] == PutU16(|p|);
    } else if |data| >= 2 + |p| && U16(data[..2]) == |p| {
      U16Injective(data[..2], PutU16(|p|));
      assert data == data[..2] + data[2..2 + |p|] + data[2 + |p|..];
    }
  }

  lemma {:induction false} EntriesParsed(data: seq<byte>, i: nat, count: nat, ps: seq<Packet>)
    requires i <= count && |ps| == count - i && Short(ps) && Entries(ps) <= data
    ensures ParsedEntries(data, i, count) == Ok(ps)
    decreases count - i
  {
    if i == count {
      assert ps == [];
    } else {
      var p, more := ps[0], ps[1..];
      FrontOf(data, Entry(p), Entries(more));
      EntryFront(data, p, data[|Entry(p)|..]);
      EntriesParsed(data[|Entry(p)|..], i + 1, count, more);
      assert ps == [p] + more;
    }
  }

  lemma {:induction false} ParsedEncoded(data: seq<byte>, i: nat, count: nat)
    requires i <= count && ParsedEntries(data, i, count).Ok?
    ensures var ps := ParsedEntries(data, i, count).value;
            Short(ps) && Entries(ps) <= data
    decreases count - i
  {
    if i < count {
      var pktLen := U16(data[..2]);
      var p, rest := data[2..2 + pktLen], data[2 + pktLen..];
      ParsedEncoded(rest, i + 1, count);
      var more := ParsedEntries(rest, i + 1, count).value;
      EntryFront(data, p, rest);
      PrefixUnder(Entry(p), Entries(more), rest);
      assert ([p] + more)[1..] == more;
    }
  }

  lemma FrontOf(data: seq<byte>, a: seq<byte>, b: seq<byte>)
    requires a + b <= data
    ensures data == a + data[|a|..] && b <= data[|a|..]
  {
    assert data[..|a + b|] == a + b;
    assert data[|a|..][..|b|] == b;
  }

  lemma PrefixUnder(a: seq<byte>, b: seq<byte>, c: seq<byte>)
    ensures a + b <= a + c <==> b <= c
  {
    if a + b <= a + c {
      assert (a + c)[|a|..][..|b|] == (a + c)[..|a + b|][|a|..];
    }
  }

  lemma BatchParsed(data: seq<byte>, ps: seq<Packet>)
    requires Carriable(ps) && BatchBytes(ps) <= data
    ensures ParsedBatch(data) == Ok(ps)
  {
    FrontOf(data, PutU16(|ps|), Entries(ps));
    assert data[..2] == PutU16(|ps|);
    EntriesParsed(data[2..], 0, |ps|, ps);
  }

  lemma ParsedIsBatch(data: seq<byte>)
    requires ParsedBatch(data).Ok?
    ensures var ps := ParsedBatch(data).value; Carriable(ps) && BatchBytes(ps) <= data
  {
    var ps := ParsedBatch(data).value;
    ParsedEncoded(data[2..], 0, |ps|);
    U16Injective(data[..2], PutU16(|ps|));
    PrefixUnder(PutU16(|ps|), Entries(ps), data[2..]);
    assert data == data[..2] + data[2..];
  }

  /** DecodeBatch succeeds with ps exactly on the payloads that start with the encoding of a carriable ps. */
  lemma ParseExactly(data: seq<byte>, ps: seq<Packet>)
    ensures ParsedBatch(data) == Ok(ps) <==> Carriable(ps) && BatchBytes(ps) <= data
  {
    if Carriable(ps) && BatchBytes(ps) <= data {
      BatchParsed(data, ps);
    }
    if ParsedBatch(data) == Ok(ps) {
      ParsedIsBatch(data);
    }
  }

  /** Decoding what Flush produced gives the packets back if and only if there are 1 to 64 of them and each
      fits its 16-bit length. */
  lemma BatchRoundTrip(ps: seq<Packet>)
    ensures ParsedBatch(BatchBytes(ps)) == Ok(ps) <==> Carriable(ps)
  {
    ParseExactly(BatchBytes(ps), ps);
  }

  /** A batch cut short anywhere is refused. */
  lemma StrictPrefixRefused(ps: seq<Packet>, data: seq<byte>)
    requires Carriable(ps) && data < BatchBytes(ps)
    ensures ParsedBatch(data).Err?
  {
    if ParsedBatch(data).Ok? {
      var qs := ParsedBatch(data).value;
      ParseExactly(data, qs);
      ParseExactly(BatchBytes(ps), qs);
      BatchRoundTrip(ps);
    }
  }

  /** Re-encoding a successful parse gives back a prefix of the input, and the rest of the input is ignored. */
  lemma ParseReencodes(data: seq<byte>, suffix: seq<byte>)
    requires ParsedBatch(data).Ok?
    ensures BatchBytes(ParsedBatch(data).value) <= data
    ensures ParsedBatch(data + suffix) == ParsedBatch(data)
  {
    var ps := ParsedBatch(data).value;
    ParseExactly(data, ps);
    ParseExactly(data + suffix, ps);
  }

  // ---------------------------------------------------------------- why a payload is refused

  /** After the packets ps the parser finds too few bytes for a length, or for the packet it announces. */
  function CutError(rest: seq<byte>, number: nat): Option<BatchError> {
    if |rest| < 2 then Some(Truncated(number))
    else if |rest| < 2 + U16(rest[..2]) then Some(Overflow(number))
    else None
  }

  lemma {:induction false} EntriesCut(data: seq<byte>, i: nat, count: nat, ps: seq<Packet>)
    requires i + |ps| < count && Short(ps) && Entries(ps) <= data
    ensures var e := CutError(data[|Entries(ps)|..], i + |ps| + 1);
            e.Some? ==> ParsedEntries(data, i, count) == Err(e.value)
    decreases |ps|
  {
    if ps == [] {
      assert data[0..] == data;
    } else {
      var p, more := ps[0], ps[1..];
      FrontOf(data, Entry(p), Entries(more));
      var rest := data[|Entry(p)|..];
      EntryFront(data, p, rest);
      EntriesCut(rest, i + 1, count, more);
      assert data[|Entries(ps)|..] == rest[|Entries(more)|..];
    }
  }

  lemma NoEntries()
    ensures Entries([]) == []
  {
  }

  lemma OneMoreEntry(data: seq<byte>, p: Packet, rest: seq<byte>, more: seq<Packet>)
    requires data == Entry(p) + rest && Entries(more) <= rest
    ensures Entries([p] + more) <= data && data[|Entries([p] + more)|..] == rest[|Entries(more)|..]
  {
    hide Entry;
    assert ([p] + more)[1..] == more;
    PrefixUnder(Entry(p), Entries(more), rest);
  }

  lemma {:induction false} EntriesFailed(data: seq<byte>, i: nat, count: nat) returns (ps: seq<Packet>)
    requires i <= count && ParsedEntries(data, i, count).Err?
    ensures i + |ps| < count && Short(ps) && Entries(ps) <= data
    ensures CutError(data[|Entries(ps)|..], i + |ps| + 1) == Some(ParsedEntries(data, i, count).error)
    decreases count - i
  {
    hide Entries, Entry;
    if CutError(data, i + 1).Some? {
      ps := [];
      NoEntries();
      assert data[0..] == data;
    } else {
      var pktLen := U16(data[..2]);
      var p, rest := data[2..2 + pktLen], data[2 + pktLen..];
      var more := EntriesFailed(rest, i + 1, count);
      ps := [p] + more;
      EntryFront(data, p, rest);
      OneMoreEntry(data, p, rest, more);
    }
  }

  /** The payload announces count packets, holds the encoding of ps, fewer than that, and then breaks off. */
  predicate BreaksOff(data: seq<byte>, count: nat, ps: seq<Packet>, error: BatchError) {
    && |data| >= 2 && 1 <= count <= 64 && U16(data[..2]) == count
    && |ps| < count && Short(ps) && Entries(ps) <= data[2..]
    && CutError(data[2..][|Entries(ps)|..], |ps| + 1) == Some(error)
  }

  /** Every error of DecodeBatch and its condition: no count, a count outside 1 to 64, or a payload that breaks
      off, before a length or within a packet, behind as many packets as the error says. */
  lemma RefusedExactly(data: seq<byte>, error: BatchError)
    ensures ParsedBatch(data) == Err(error) <==>
              || (|data| < 2 && error == BatchTooShort)
              || (|data| >= 2 && error == InvalidCount(U16(data[..2])) && !(1 <= U16(data[..2]) <= 64))
              || exists count, ps :: BreaksOff(data, count, ps, error)
  {
    if count, ps :| BreaksOff(data, count, ps, error) {
      EntriesCut(data[2..], 0, count, ps);
    }
    if |data| >= 2 && 1 <= U16(data[..2]) <= 64 && ParsedBatch(data) == Err(error) {
      var ps := EntriesFailed(data[2..], 0, U16(data[..2]));
      assert BreaksOff(data, U16(data[..2]), ps, error);
    }
  }
}
