/** IPv4 subnets: masks, membership, and the addresses a pool hands out. */
module Subnets {
  import opened Bytes
  import opened Addresses

  // ---------------------------------------------------------------- bits

  /** Go's & on non-negative integers. */
  function And(x: nat, y: nat): nat
    decreases x
  {
    if x == 0 || y == 0 then 0 else 2 * And(x / 2, y / 2) + (if x % 2 == 1 && y % 2 == 1 then 1 else 0)
  }

  function Pow2(n: nat): (p: nat)
    ensures p > 0
  {
    if n == 0 then 1 else 2 * Pow2(n - 1)
  }

  /** x with its low j bits cleared. */
  function Trunc(x: nat, j: nat): nat
    decreases j
  {
    if j == 0 then x else 2 * Trunc(x / 2, j - 1)
  }

  /** k one bits above j zero bits. */
  function Ones(k: nat, j: nat): nat
    decreases k, j
  {
    if j > 0 then 2 * Ones(k, j - 1) else if k > 0 then 2 * Ones(k - 1, 0) + 1 else 0
  }

  lemma AndEven(x: nat, m: nat)
    ensures And(x, 2 * m) == 2 * And(x / 2, m)
  {
    assert 2 * m / 2 == m && 2 * m % 2 == 0;
  }

  lemma AndOdd(x: nat, m: nat)
    ensures And(x, 2 * m + 1) == 2 * And(x / 2, m) + x % 2
  {
    assert (2 * m + 1) / 2 == m && (2 * m + 1) % 2 == 1;
  }

  lemma {:induction false} AndOnes(x: nat, k: nat, j: nat)
    requires x < Pow2(k + j)
    ensures And(x, Ones(k, j)) == Trunc(x, j)
    decreases k, j
  {
    if j > 0 {
      AndOnes(x / 2, k, j - 1);
      AndEven(x, Ones(k, j - 1));
    } else if k > 0 {
      AndOnes(x / 2, k - 1, 0);
      AndOdd(x, Ones(k - 1, 0));
    }
  }

  lemma {:induction false} TruncZero(j: nat)
    ensures Trunc(0, j) == 0
  {
    if j > 0 {
      TruncZero(j - 1);
    }
  }

  lemma {:induction false} TruncTwice(x: nat, j: nat)
    ensures Trunc(Trunc(x, j), j) == Trunc(x, j)
  {
    if j > 0 {
      TruncTwice(x / 2, j - 1);
      assert Trunc(x, j) / 2 == Trunc(x / 2, j - 1);
    }
  }

  /** The numbers that agree with an aligned b above bit j form an interval of 2^j. */
  lemma {:induction false} TruncInterval(x: nat, b: nat, j: nat)
    requires Trunc(b, j) == b
    ensures Trunc(x, j) == b <==> b <= x < b + Pow2(j)
    decreases j
  {
    if j > 0 {
      assert b == 2 * Trunc(b / 2, j - 1);
      TruncInterval(x / 2, b / 2, j - 1);
    }
  }

  // ---------------------------------------------------------------- masks

  /** How many of the prefix's bits fall into octet i. */
  function OctetBits(prefix: nat, i: nat): (k: nat)
    ensures k <= 8
  {
    if prefix >= 8 * i + 8 then 8 else if prefix <= 8 * i then 0 else prefix - 8 * i
  }

  /** net.CIDRMask, one octet: ^byte(0xff >> k). */
  function MaskOctet(k: nat): byte
    requires k <= 8
  {
    var low: int := 0xFF / Pow2(k);
    0xFF - low
  }

  lemma MaskOctetBits(k: nat)
    requires k <= 8
    ensures MaskOctet(k) == Ones(k, 8 - k) && Pow2(8) == 256
  {
    assert Pow2(1) == 2 && Pow2(2) == 4 && Pow2(3) == 8 && Pow2(4) == 16;
    assert Pow2(5) == 32 && Pow2(6) == 64 && Pow2(7) == 128 && Pow2(8) == 256;
    assert Ones(1, 0) == 1 && Ones(2, 0) == 3 && Ones(3, 0) == 7 && Ones(4, 0) == 15;
    assert Ones(5, 0) == 31 && Ones(6, 0) == 63 && Ones(7, 0) == 127 && Ones(8, 0) == 255;
    assert Ones(1, 7) == 128 && Ones(2, 6) == 192 && Ones(3, 5) == 224 && Ones(4, 4) == 240;
    assert Ones(5, 3) == 248 && Ones(6, 2) == 252 && Ones(7, 1) == 254;
  }

  lemma MaskedOctet(x: byte, k: nat)
    requires k <= 8
    ensures And(x, MaskOctet(k)) == Trunc(x, 8 - k) <= x
  {
    MaskOctetBits(k);
    AndOnes(x, k, 8 - k);
    TruncBelow(x, 8 - k);
  }

  lemma {:induction false} TruncBelow(x: nat, j: nat)
    ensures Trunc(x, j) <= x
  {
    if j > 0 {
      TruncBelow(x / 2, j - 1);
    }
  }

  function Masked(x: byte, prefix: nat, i: nat): byte {
    MaskedOctet(x, OctetBits(prefix, i));
    And(x, MaskOctet(OctetBits(prefix, i)))
  }

  // ---------------------------------------------------------------- networks

  datatype Network = Network(base: IP, prefix: nat) {
    /** What net.ParseCIDR returns: the base has no bits below the prefix. */
    predicate Valid() {
      IsIPv4(base) && prefix <= 32 && forall i | 0 <= i < 4 :: Masked(base[i], prefix, i) == base[i]
    }

    /** net.IPNet.Contains. */
    predicate Contains(ip: IP)
      requires Valid() && IsIPv4(ip)
    {
      forall i | 0 <= i < 4 :: Masked(base[i], prefix, i) == Masked(ip[i], prefix, i)
    }

    function WithLast(octet: byte): (ip: IP)
      requires Valid()
      ensures IsIPv4(ip)
    {
      base[..3] + [octet]
    }

    function Gateway(): IP
      requires Valid()
    {
      WithLast(1)
    }

    /** The size of the subnet within the base's /24. */
    function Block(): nat
      requires Valid()
    {
      Pow2(8 - OctetBits(prefix, 3))
    }

    function First(): int
      requires Valid()
    {
      if base[3] > 2 then base[3] else 2
    }

    function Last(): int
      requires Valid()
    {
      if base[3] + Block() - 1 < 254 then base[3] + Block() - 1 else 254
    }
  }

  /** net.ParseCIDR's network for an address and a prefix length. */
  function NetworkOf(ip: IP, prefix: nat): (n: Network)
    requires IsIPv4(ip) && prefix <= 32
    ensures n.Valid()
  {
    assert forall i | 0 <= i < 4 :: Masked(Masked(ip[i], prefix, i), prefix, i) == Masked(ip[i], prefix, i) by {
      forall i | 0 <= i < 4
        ensures Masked(Masked(ip[i], prefix, i), prefix, i) == Masked(ip[i], prefix, i)
      {
        var k := OctetBits(prefix, i);
        MaskedOctet(ip[i], k);
        MaskedOctet(Masked(ip[i], prefix, i), k);
        TruncTwice(ip[i], 8 - k);
      }
    }
    Network([Masked(ip[0], prefix, 0), Masked(ip[1], prefix, 1), Masked(ip[2], prefix, 2), Masked(ip[3], prefix, 3)],
            prefix)
  }

  /** Inside the base's /24, membership is an interval of last octets. */
  lemma ContainsIsInterval(n: Network, octet: byte)
    requires n.Valid()
    ensures n.Contains(n.WithLast(octet)) <==> n.base[3] <= octet < n.base[3] + n.Block()
  {
    var k := OctetBits(n.prefix, 3);
    var ip := n.WithLast(octet);
    MaskedOctet(n.base[3], k);
    MaskedOctet(octet, k);
    TruncInterval(octet, n.base[3], 8 - k);
    assert ip[0] == n.base[0] && ip[1] == n.base[1] && ip[2] == n.base[2] && ip[3] == octet;
  }

  // ---------------------------------------------------------------- the addresses of a pool

  /** The addresses with last octet 2 to i - 1 that the network contains, in ascending order. */
  function Selected(n: Network, i: nat): seq<IP>
    requires n.Valid() && 2 <= i <= 255
  {
    if i == 2 then []
    else Selected(n, i - 1) + (if n.Contains(n.WithLast(i - 1)) then [n.WithLast(i - 1)] else [])
  }

  function Usable(n: Network): seq<IP>
    requires n.Valid()
  {
    Selected(n, 255)
  }

  /** Filtering by membership in an interval of octets gives that interval, as far as i reaches. */
  lemma {:induction false} SelectedInterval(n: Network, i: nat, lo: int, hi: int)
    requires n.Valid() && 2 <= i <= 255 && 2 <= lo && hi <= 254
    requires forall o: byte | 2 <= o <= 254 :: n.Contains(n.WithLast(o)) <==> lo <= o <= hi
    ensures var s, last := Selected(n, i), (if hi < i then hi else i - 1);
            && |s| == (if lo <= last then last - lo + 1 else 0)
            && forall k | 0 <= k < |s| :: s[k] == n.WithLast(lo + k)
  {
    hide And, Trunc, Ones, Pow2, MaskOctet, Masked, OctetBits, Network.Contains, Network.Block;
    if i > 2 {
      SelectedInterval(n, i - 1, lo, hi);
      var before, octet: byte := Selected(n, i - 1), i - 1;
      if lo <= octet <= hi {
        assert Selected(n, i) == before + [n.WithLast(octet)];
      } else {
        assert Selected(n, i) == before;
      }
    }
  }

  lemma SelectedIs(n: Network)
    requires n.Valid()
    ensures |Usable(n)| == (if n.First() <= n.Last() then n.Last() - n.First() + 1 else 0)
    ensures forall k | 0 <= k < |Usable(n)| :: Usable(n)[k] == n.WithLast(n.First() + k)
  {
    hide And, Trunc, Ones, Pow2, MaskOctet, Masked, OctetBits, Network.Contains, Network.Block;
    forall o: byte | 2 <= o <= 254
      ensures n.Contains(n.WithLast(o)) <==> n.First() <= o <= n.Last()
    {
      ContainsIsInterval(n, o);
    }
    SelectedInterval(n, 255, n.First(), n.Last());
  }

  /** The pool of a subnet is the addresses of the base's /24 with last octet 2 to 254 that the subnet
      contains; so never the gateway, nor any address whose 32-bit key is 0. */
  lemma PoolMembers(n: Network, ip: IP)
    requires n.Valid() && IsIPv4(ip)
    ensures ip in Usable(n) <==> ip[..3] == n.base[..3] && 2 <= ip[3] <= 254 && n.Contains(ip)
    ensures ip in Usable(n) ==> ip != n.Gateway() && IPToUint32(ip) != 0
  {
    hide And, Trunc, Ones, Pow2, MaskOctet, Masked, OctetBits, Network.Contains, Network.Block;
    var s := Usable(n);
    SelectedIs(n);
    ContainsIsInterval(n, ip[3]);
    assert ip == ip[..3] + [ip[3]];
    if ip[..3] == n.base[..3] && 2 <= ip[3] <= 254 && n.Contains(ip) {
      assert s[ip[3] - n.First()] == n.WithLast(ip[3]) == ip;
    }
    if ip in s {
      var k :| 0 <= k < |s| && s[k] == ip;
      assert ip == n.WithLast(n.First() + k);
      assert U32(ip) >= 2;
    }
  }

  /** They come in ascending order, each once, and number 253 for a prefix of at most 24; for a longer prefix,
      those of a block of 2^(32-prefix) octets clipped to 2..254. */
  lemma PoolCount(n: Network)
    requires n.Valid()
    ensures |Usable(n)| == (if n.First() <= n.Last() then n.Last() - n.First() + 1 else 0)
    ensures n.prefix <= 24 ==> |Usable(n)| == 253
    ensures n.prefix > 24 ==> n.Block() == Pow2(32 - n.prefix)
    ensures |Usable(n)| <= 253
    ensures forall k | 0 <= k < |Usable(n)| :: Usable(n)[k] == n.WithLast(n.First() + k)
    ensures forall j, k | 0 <= j < k < |Usable(n)| :: Usable(n)[j] != Usable(n)[k]
  {
    hide And, Trunc, Ones, Pow2, MaskOctet, Masked, OctetBits, Network.Contains, Network.Block;
    SelectedIs(n);
    if n.prefix <= 24 {
      WholeOctet(n);
    } else {
      BlockSize(n);
    }
    forall j, k | 0 <= j < k < |Usable(n)|
      ensures Usable(n)[j] != Usable(n)[k]
    {
      assert n.WithLast(n.First() + j)[3] < n.WithLast(n.First() + k)[3];
    }
  }

  lemma BlockSize(n: Network)
    requires n.Valid() && n.prefix > 24
    ensures n.Block() == Pow2(32 - n.prefix)
  {
  }

  lemma WholeOctet(n: Network)
    requires n.Valid() && n.prefix <= 24
    ensures n.base[3] == 0 && n.Block() == 256
  {
    MaskOctetBits(0);
    MaskedOctet(n.base[3], 0);
    TruncInterval(n.base[3], 0, 8);
    TruncZero(8);
  }
}
