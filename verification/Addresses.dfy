/** IP addresses as Go's net.IP: byte strings, their text, and the two keys made of them. */
module Addresses {
  import opened Bytes
  import opened Numerals

  type IP = seq<byte>

  predicate IsIPv4(ip: IP) {
    |ip| == 4
  }

  predicate IsMapped(ip: IP) {
    && |ip| == 16
    && (forall i | 0 <= i < 10 :: ip[i] == 0)
    && ip[10] == 0xFF && ip[11] == 0xFF
  }

  /** net.IP.To4: IPv4 addresses and IPv4-mapped IPv6 addresses (section 2.5.5.2 of RFC 4291). */
  function To4(ip: IP): (r: Option<IP>)
    ensures r.Some? ==> IsIPv4(r.value)
  {
    if IsIPv4(ip) then Some(ip) else if IsMapped(ip) then Some(ip[12..]) else None
  }

  /** The addresses that name the IPv4 address a: a itself, and ten zeros, FF FF and a. */
  lemma To4Exactly(ip: IP, a: IP)
    ensures To4(ip) == Some(a) <==>
              |a| == 4 && (ip == a || ip == [0, 0, 0, 0, 0, 0, 0, 0, 0, 0, 0xFF, 0xFF] + a)
  {
    if |ip| == 16 {
      assert ip == ip[..12] + ip[12..];
    }
  }

  /** The NAT table's key. */
  function IPToUint32(ip: IP): uint32 {
    var v4 := To4(ip);
    if v4.None? then 0 else U32(v4.value)
  }

  // ---------------------------------------------------------------- text

  function Decimal(b: byte): string {
    if b < 10 then [Digit(b)]
    else if b < 100 then [Digit(b / 10), Digit(b % 10)]
    else [Digit(b / 100), Digit(b / 10 % 10), Digit(b % 10)]
  }

  /** The octets from the i-th on, separated by dots. */
  function DottedFrom(ip: IP, i: nat): string
    requires IsIPv4(ip) && i < 4
    decreases 4 - i
  {
    if i == 3 then Decimal(ip[3]) else Decimal(ip[i]) + "." + DottedFrom(ip, i + 1)
  }

  function Dotted(ip: IP): string
    requires IsIPv4(ip)
  {
    DottedFrom(ip, 0)
  }

  function Hex(n: nat): string {
    if n < 16 then [Digit(n)] else Hex(n / 16) + [Digit(n % 16)]
  }

  function Group(ip: IP, i: nat): nat
    requires |ip| == 16 && i < 8
  {
    U16(ip[2 * i..2 * i + 2])
  }

  function ZerosFrom(ip: IP, i: nat): (n: nat)
    requires |ip| == 16 && i <= 8
    ensures i + n <= 8
    decreases 8 - i
  {
    if i < 8 && Group(ip, i) == 0 then 1 + ZerosFrom(ip, i + 1) else 0
  }

  /** The first longest run of at least two zero groups, from position i on; (8, 0) if there is none. */
  function LongestZeros(ip: IP, i: nat, best: (nat, nat)): (r: (nat, nat))
    requires |ip| == 16 && i <= 8 && best.0 + best.1 <= 8
    ensures r.0 + r.1 <= 8
    decreases 8 - i
  {
    if i == 8 then best else
    var n := ZerosFrom(ip, i);
    LongestZeros(ip, i + 1, if n >= 2 && n > best.1 then (i, n) else best)
  }

  function Groups(ip: IP, lo: nat, hi: nat): string
    requires |ip| == 16 && lo <= hi <= 8
    decreases hi - lo
  {
    if lo == hi then ""
    else if lo + 1 == hi then Hex(Group(ip, lo))
    else Hex(Group(ip, lo)) + ":" + Groups(ip, lo + 1, hi)
  }

  function Colons(ip: IP): string
    requires |ip| == 16
  {
    var (start, n) := LongestZeros(ip, 0, (8, 0));
    if n == 0 then Hex(Group(ip, 0)) + ":" + Groups(ip, 1, 8)
    else Groups(ip, 0, start) + "::" + Groups(ip, start + n, 8)
  }

  function HexBytes(b: seq<byte>): string {
    if b == [] then "" else [Digit(b[0] / 16), Digit(b[0] % 16)] + HexBytes(b[1..])
  }

  /** net.IP.String: the session manager's key. */
  function Text(ip: IP): string {
    var v4 := To4(ip);
    if v4.Some? then Dotted(v4.value)
    else if |ip| == 16 then Colons(ip)
    else if ip == [] then "<nil>"
    else "?" + HexBytes(ip)
  }

  lemma DecimalIsDigits(b: byte)
    ensures Decimal(b) != "" && forall c | c in Decimal(b) :: IsDigit(c)
  {
  }

  lemma DecimalValue(b: byte)
    ensures Digits(Decimal(b), 0) == Some(b)
  {
    hide Digits, Digit;
    if b < 10 {
      OneDigit(Digit(b), 0);
    } else if b < 100 {
      OneDigit(Digit(b / 10), 0);
      DigitsAppend([Digit(b / 10)], Digit(b % 10), b / 10);
      assert [Digit(b / 10)] + [Digit(b % 10)] == Decimal(b);
    } else {
      OneDigit(Digit(b / 100), 0);
      DigitsAppend([Digit(b / 100)], Digit(b / 10 % 10), b / 100);
      assert [Digit(b / 100)] + [Digit(b / 10 % 10)] == [Digit(b / 100), Digit(b / 10 % 10)];
      DigitsAppend([Digit(b / 100), Digit(b / 10 % 10)], Digit(b % 10), b / 10);
      assert [Digit(b / 100), Digit(b / 10 % 10)] + [Digit(b % 10)] == Decimal(b);
    }
  }

  lemma DecimalText(b: byte)
    ensures Decimal(b) == FormatNat(b)
  {
    if b >= 100 {
      assert FormatNat(b / 10) == FormatNat(b / 100) + [Digit(b / 10 % 10)];
    }
  }

  /** The text of an IPv4 address, plain or mapped: its four octets in decimal, separated by dots. */
  lemma DottedText(ip: IP, a: IP)
    requires To4(ip) == Some(a)
    ensures Text(ip) == FormatNat(a[0]) + "." + (FormatNat(a[1]) + "." + (FormatNat(a[2]) + "." + FormatNat(a[3])))
  {
    hide Decimal, FormatNat;
    DecimalText(a[0]);
    DecimalText(a[1]);
    DecimalText(a[2]);
    DecimalText(a[3]);
    assert DottedFrom(a, 2) == Decimal(a[2]) + "." + DottedFrom(a, 3);
    assert DottedFrom(a, 0) == Decimal(a[0]) + "." + DottedFrom(a, 1);
  }

  lemma DecimalInjective(a: byte, b: byte)
    requires Decimal(a) == Decimal(b)
    ensures a == b
  {
    DecimalValue(a);
    DecimalValue(b);
  }

  lemma DotNotBefore(x: string, u: string, y: string, v: string)
    requires '.' !in y && x + "." + u == y + "." + v
    ensures |x| >= |y|
  {
    var w := x + "." + u;
    assert w[|x|] == '.';
  }

  lemma SplitAtDot(x: string, u: string, y: string, v: string)
    requires '.' !in x && '.' !in y && x + "." + u == y + "." + v
    ensures x == y && u == v
  {
    DotNotBefore(x, u, y, v);
    DotNotBefore(y, v, x, u);
    var w := x + "." + u;
    assert x == w[..|x|] && y == w[..|y|] && u == w[|x| + 1..] && v == w[|y| + 1..];
  }

  lemma SplitOctet(a: byte, u: string, b: byte, v: string)
    requires Decimal(a) + "." + u == Decimal(b) + "." + v
    ensures a == b && u == v
  {
    DecimalIsDigits(a);
    DecimalIsDigits(b);
    SplitAtDot(Decimal(a), u, Decimal(b), v);
    DecimalInjective(a, b);
  }

  lemma {:induction false} DottedFromInjective(a: IP, b: IP, i: nat)
    requires IsIPv4(a) && IsIPv4(b) && i < 4 && DottedFrom(a, i) == DottedFrom(b, i)
    ensures a[i..] == b[i..]
    decreases 4 - i
  {
    if i == 3 {
      DecimalInjective(a[3], b[3]);
    } else {
      SplitOctet(a[i], DottedFrom(a, i + 1), b[i], DottedFrom(b, i + 1));
      DottedFromInjective(a, b, i + 1);
      assert a[i..] == [a[i]] + a[i + 1..] && b[i..] == [b[i]] + b[i + 1..];
    }
  }

  /** Dotted decimal names an IPv4 address. */
  lemma DottedInjective(a: IP, b: IP)
    requires IsIPv4(a) && IsIPv4(b) && Dotted(a) == Dotted(b)
    ensures a == b
  {
    DottedFromInjective(a, b, 0);
    assert a[0..] == a && b[0..] == b;
  }

  lemma {:induction false} DottedFromHasNoColon(ip: IP, i: nat)
    requires IsIPv4(ip) && i < 4
    ensures ':' !in DottedFrom(ip, i)
    decreases 4 - i
  {
    DecimalIsDigits(ip[i]);
    if i < 3 {
      DottedFromHasNoColon(ip, i + 1);
    }
  }

  lemma ColonsHasColon(ip: IP)
    requires |ip| == 16
    ensures ':' in Colons(ip)
  {
    var (start, n) := LongestZeros(ip, 0, (8, 0));
    if n == 0 {
      assert (Hex(Group(ip, 0)) + ":" + Groups(ip, 1, 8))[|Hex(Group(ip, 0))|] == ':';
    } else {
      assert (Groups(ip, 0, start) + "::" + Groups(ip, start + n, 8))[|Groups(ip, 0, start)|] == ':';
    }
  }

  lemma FirstDigit(first: string, rest: string)
    requires first != "" && forall c | c in first :: IsDigit(c)
    ensures IsDigit((first + "." + rest)[0])
  {
    assert first[0] in first;
    assert (first + "." + rest)[0] == first[0];
  }

  lemma DottedStartsWithDigit(ip: IP)
    requires IsIPv4(ip)
    ensures Dotted(ip) != "" && IsDigit(Dotted(ip)[0])
  {
    DecimalIsDigits(ip[0]);
    FirstDigit(Decimal(ip[0]), DottedFrom(ip, 1));
  }

  /** Any address, of whatever length, whose text is that of an IPv4 address a is a itself or its mapped form. */
  lemma TextNamesIPv4(ip: IP, a: IP)
    requires IsIPv4(a)
    ensures Text(ip) == Text(a) <==> To4(ip) == Some(a)
  {
    if To4(ip).Some? {
      if Text(ip) == Text(a) {
        DottedInjective(To4(ip).value, a);
      }
    } else if |ip| == 16 {
      ColonsHasColon(ip);
      DottedFromHasNoColon(a, 0);
    } else {
      DottedStartsWithDigit(a);
      assert Text(ip)[0] == '<' || Text(ip)[0] == '?';
    }
  }

  /** The key of an IPv4 address is its big-endian number, that of any other address 0. */
  lemma KeyBytes(ip: IP, a: IP)
    ensures To4(ip) == Some(a) ==>
              var a0: int, a1: int, a2: int, a3: int := a[0], a[1], a[2], a[3];
              IPToUint32(ip) == 0x100_0000 * a0 + 0x1_0000 * a1 + 0x100 * a2 + a3
    ensures To4(ip) == None ==> IPToUint32(ip) == 0
  {
    if To4(ip) == Some(a) {
      U32Bytes(a);
    }
  }

  /** The 32-bit key names an IPv4 address too, except that every real IPv6 address shares key 0. */
  lemma KeyNamesIPv4(ip: IP, a: IP)
    requires IsIPv4(a) && IPToUint32(a) != 0
    ensures IPToUint32(ip) == IPToUint32(a) <==> To4(ip) == Some(a)
  {
    if To4(ip).Some? && IPToUint32(ip) == IPToUint32(a) {
      U32Injective(To4(ip).value, a);
    }
  }

  // ---------------------------------------------------------------- packets

  /** The destination of an IP packet: bytes 16-19 of an IPv4 header (section 3.1 of RFC 791), bytes 24-39
      of an IPv6 header (section 3 of RFC 8200). */
  function DstIPFromPacket(packet: seq<byte>): (r: Option<IP>)
    ensures r.Some? ==> |r.value| == 4 || |r.value| == 16
  {
    if |packet| < 20 then None
    else if packet[0] / 16 == 4 then Some(packet[16..20])
    else if packet[0] / 16 == 6 && |packet| >= 40 then Some(packet[24..40])
    else None
  }

  /** No destination: a packet under 20 bytes, an IPv6 packet under 40, and any other version. */
  lemma NoDestination(packet: seq<byte>)
    ensures DstIPFromPacket(packet) == None <==>
              || |packet| < 20
              || (packet[0] / 16 == 6 && |packet| < 40)
              || (packet[0] / 16 != 4 && packet[0] / 16 != 6)
  {
  }

  /** An IPv4 packet: twelve header bytes, source, destination, and the rest. */
  lemma IPv4Destination(front: seq<byte>, src: IP, dst: IP, rest: seq<byte>)
    requires |front| == 12 && front[0] / 16 == 4 && |src| == 4 && |dst| == 4
    ensures DstIPFromPacket(front + src + dst + rest) == Some(dst)
  {
    var packet := front + src + dst + rest;
    assert packet[16..20] == dst && packet[0] == front[0];
  }

  /** An IPv6 packet: eight header bytes, source, destination, and the rest. */
  lemma IPv6Destination(front: seq<byte>, src: IP, dst: IP, rest: seq<byte>)
    requires |front| == 8 && front[0] / 16 == 6 && |src| == 16 && |dst| == 16
    ensures DstIPFromPacket(front + src + dst + rest) == Some(dst)
  {
    var packet := front + src + dst + rest;
    assert packet[24..40] == dst && packet[0] == front[0];
  }
}
