/** Bytes and the big-endian integers of the wire formats (Go's encoding/binary). */
module Bytes {

  type byte = n: int | 0 <= n < 0x100

  type uint32 = n: int | 0 <= n < 0x1_0000_0000

  datatype Option<+T> = None | Some(value: T)

  datatype Result<+T, +E> = Ok(value: T) | Err(error: E)

  lemma Regroup<T>(a: seq<T>, b: seq<T>, c: seq<T>)
    ensures a + b + c == a + (b + c)
  {
  }

  // ---------------------------------------------------------------- flag bits
  //
  // The source tests, sets and clears single bits of a flag byte with &, | and &^. These are the same
  // three operations, written with arithmetic on the byte's value.

  predicate HasFlag(flags: byte, bit: byte)
    requires bit > 0
  {
    flags / bit % 2 == 1
  }

  function WithFlag(flags: byte, bit: byte): byte
    requires bit in {0x01, 0x02, 0x04, 0x10}
  {
    if HasFlag(flags, bit) then flags else flags + bit
  }

  function WithoutFlag(flags: byte, bit: byte): byte
    requires bit in {0x01, 0x02, 0x04, 0x10}
  {
    if HasFlag(flags, bit) then flags - bit else flags
  }

  // ---------------------------------------------------------------- big-endian integers

  function U16(b: seq<byte>): (n: nat)
    requires |b| == 2
    ensures n < 0x1_0000
  {
    var hi: int, lo: int := b[0], b[1];
    hi * 256 + lo
  }

  /** PutUint16(uint16(n)): the conversion to uint16 drops all but the low sixteen bits. */
  function PutU16(n: nat): (b: seq<byte>)
    ensures |b| == 2
    ensures U16(b) == n % 0x1_0000
  {
    assert n % 0x1_0000 == n / 256 % 256 * 256 + n % 256;
    [n / 256 % 256, n % 256]
  }

  function U32(b: seq<byte>): (n: uint32)
    requires |b| == 4
  {
    U16(b[..2]) * 0x1_0000 + U16(b[2..])
  }

  function PutU32(n: uint32): (b: seq<byte>)
    ensures |b| == 4
    ensures U32(b) == n
  {
    var b := PutU16(n / 0x1_0000) + PutU16(n % 0x1_0000);
    assert b[..2] == PutU16(n / 0x1_0000) && b[2..] == PutU16(n % 0x1_0000);
    b
  }

  /** 16-bit numbers on the wire are big-endian. */
  lemma U16Bytes(b: seq<byte>)
    requires |b| == 2
    ensures var b0: int, b1: int := b[0], b[1]; U16(b) == 0x100 * b0 + b1
    ensures forall n: nat | n < 0x1_0000 :: PutU16(n) == [n / 0x100, n % 0x100]
  {
  }

  lemma U32Bytes(b: seq<byte>)
    requires |b| == 4
    ensures var b0: int, b1: int, b2: int, b3: int := b[0], b[1], b[2], b[3];
            U32(b) == 0x100_0000 * b0 + 0x1_0000 * b1 + 0x100 * b2 + b3
  {
    assert b[..2][0] == b[0] && b[..2][1] == b[1] && b[2..][0] == b[2] && b[2..][1] == b[3];
  }

  /** The four bytes of a number, most significant first. */
  function BigEndian(n: uint32): (b: seq<byte>)
    ensures |b| == 4
  {
    [n / 0x100_0000, n / 0x1_0000 % 0x100, n / 0x100 % 0x100, n % 0x100]
  }

  lemma FourDigits(n: uint32, b0: byte, b1: byte, b2: byte, b3: byte)
    requires n == 0x100_0000 * b0 + 0x1_0000 * b1 + 0x100 * b2 + b3
    ensures BigEndian(n) == [b0, b1, b2, b3]
  {
    assert n / 0x1_0000 == 0x100 * b0 + b1 && n / 0x100 == 0x1_0000 * b0 + 0x100 * b1 + b2;
  }

  lemma BigEndianIsPutU32(n: uint32)
    ensures PutU32(n) == BigEndian(n)
  {
    hide PutU32, U32, BigEndian;
    var b := PutU32(n);
    U32Bytes(b);
    FourDigits(n, b[0], b[1], b[2], b[3]);
  }

  lemma U16Exact(n: nat)
    requires n < 0x1_0000
    ensures U16(PutU16(n)) == n
  {
  }

  lemma U16Injective(a: seq<byte>, b: seq<byte>)
    requires |a| == |b| == 2 && U16(a) == U16(b)
    ensures a == b
  {
    assert a[0] == b[0];
  }

  lemma U32Injective(a: seq<byte>, b: seq<byte>)
    requires |a| == |b| == 4 && U32(a) == U32(b)
    ensures a == b
  {
    U16Injective(a[..2], b[..2]);
    U16Injective(a[2..], b[2..]);
    assert a == a[..2] + a[2..] && b == b[..2] + b[2..];
  }

  lemma PutOfU16(b: seq<byte>)
    requires |b| == 2
    ensures PutU16(U16(b)) == b
  {
    U16Injective(PutU16(U16(b)), b);
  }

  lemma PutOfU32(b: seq<byte>)
    requires |b| == 4
    ensures PutU32(U32(b)) == b
  {
    U32Injective(PutU32(U32(b)), b);
  }
}
