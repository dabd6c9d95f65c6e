/** The drift check of a handshake's timestamp, with the source's machine arithmetic. */
module Timestamps {
  import opened Numerals
  import opened NonceCache

  const SECOND := 1_000_000_000

  const MAX_TIMESTAMP_DRIFT := 30 * SECOND

  /** time.Time.Unix: whole seconds, rounded down. */
  function Unix(now: Time): int {
    now / SECOND
  }

  /** int64 arithmetic keeps the low 64 bits. */
  function Wrap64(n: int): int {
    (n + 0x8000_0000_0000_0000) % 0x1_0000_0000_0000_0000 - 0x8000_0000_0000_0000
  }

  /** The distance between neighbouring float64 values around n, from u on. */
  function Spacing(n: nat, u: nat): (spacing: nat)
    requires u > 0
    ensures spacing >= u && n < 0x20_0000_0000_0000 * spacing
    decreases n - u
  {
    if n < 0x20_0000_0000_0000 * u then u else Spacing(n, 2 * u)
  }

  /** float64(n): the nearest float64 value, ties to the even one; exact below 2^53. */
  function Float64(n: nat): (f: nat)
    ensures n < 0x20_0000_0000_0000 ==> f == n
  {
    var u := Spacing(n, 1);
    var r := n % u;
    if 2 * r > u || (2 * r == u && n / u % 2 == 1) then n + (u - r) else n - r
  }

  /** Spacing is the power of two by which n has 53 bits, or 1. */
  lemma {:induction false} SpacingExactly(n: nat, u: nat)
    requires u > 0 && (u == 1 || n >= 0x10_0000_0000_0000 * u)
    ensures var s := Spacing(n, u);
            n < 0x20_0000_0000_0000 * s && (s == 1 || n >= 0x10_0000_0000_0000 * s)
    decreases n - u
  {
    if n >= 0x20_0000_0000_0000 * u {
      SpacingExactly(n, 2 * u);
    }
  }

  /** f is the k-th multiple of u, no other multiple is nearer to n, and of two as near it is the even one. */
  predicate RoundsTo(n: nat, u: nat, f: nat, k: nat) {
    f == k * u && n - u <= 2 * f - n <= n + u && (2 * f - n == n - u || 2 * f - n == n + u ==> k % 2 == 0)
  }

  lemma Float64Exactly(n: nat)
    ensures exists k :: RoundsTo(n, Spacing(n, 1), Float64(n), k)
  {
    hide Spacing;
    var u := Spacing(n, 1);
    var q := n / u;
    assert n == q * u + n % u;
    assert (q + 1) * u == q * u + u;
    assert RoundsTo(n, u, Float64(n), q) || RoundsTo(n, u, Float64(n), q + 1);
  }

  /** A conversion of float64 to int64. The one value out of range that occurs is 2^63, for which the result
      depends on the processor: it is the smallest int64 or the largest. */
  function ToInt64(f: nat, saturates: bool): int {
    if f < 0x8000_0000_0000_0000 then f
    else if saturates then 0x7FFF_FFFF_FFFF_FFFF else -0x8000_0000_0000_0000
  }

  /** math.Abs(float64(now - ts)). */
  function SecondsApart(now: Time, ts: int): nat {
    Float64(Abs(Wrap64(Unix(now) - ts)))
  }

  /** time.Duration(math.Abs(float64(now - ts))) * time.Second, in int64 nanoseconds. */
  function Drift(now: Time, ts: int, saturates: bool): int {
    Wrap64(ToInt64(SecondsApart(now, ts), saturates) * SECOND)
  }

  predicate DriftPasses(now: Time, ts: int) {
    Drift(now, ts, false) <= MAX_TIMESTAMP_DRIFT
  }

  function Distance(now: Time, ts: int): nat {
    Abs(Unix(now) - ts)
  }

  /** The differences whose product with a second still fits an int64. */
  predicate InExactRange(now: Time, ts: int) {
    Distance(now, ts) <= 9223372036
  }

  // ---------------------------------------------------------------- what the check lets through

  lemma WrapsTo(n: int, k: int)
    requires -0x8000_0000_0000_0000 <= n - k * 0x1_0000_0000_0000_0000 < 0x8000_0000_0000_0000
    ensures Wrap64(n) == n - k * 0x1_0000_0000_0000_0000
  {
  }

  /** Within 30 s above the k-th multiple of 2^64 ns, or half of 2^64 ns below it. */
  predicate NearMultiple(seconds: nat, k: nat) {
    -0x8000_0000_0000_0000 <= seconds * SECOND - k * 0x1_0000_0000_0000_0000 <= MAX_TIMESTAMP_DRIFT
  }

  /** The verdict is the same on processors that saturate the conversion and on those that do not. */
  lemma SameVerdict(now: Time, ts: int, saturates: bool)
    ensures DriftPasses(now, ts) <==> Drift(now, ts, saturates) <= MAX_TIMESTAMP_DRIFT
  {
    if SecondsApart(now, ts) >= 0x8000_0000_0000_0000 {
      WrapsTo(-0x8000_0000_0000_0000 * SECOND, -500_000_000);
      WrapsTo(0x7FFF_FFFF_FFFF_FFFF * SECOND, 500_000_000);
    }
  }

  lemma MultipleOf(n: int) returns (k: int)
    ensures Wrap64(n) == n - k * 0x1_0000_0000_0000_0000
    ensures -0x8000_0000_0000_0000 <= Wrap64(n) < 0x8000_0000_0000_0000
  {
    k := (n + 0x8000_0000_0000_0000) / 0x1_0000_0000_0000_0000;
  }

  lemma InRangePasses(seconds: nat)
    requires seconds < 0x8000_0000_0000_0000
    ensures Wrap64(seconds * SECOND) <= MAX_TIMESTAMP_DRIFT <==> exists k :: NearMultiple(seconds, k)
  {
    var k := MultipleOf(seconds * SECOND);
    if Wrap64(seconds * SECOND) <= MAX_TIMESTAMP_DRIFT {
      assert NearMultiple(seconds, k);
    }
    if m: nat :| NearMultiple(seconds, m) {
      WrapsTo(seconds * SECOND, m);
    }
  }

  lemma {:induction false} SpacingIsPower(n: nat, u: nat)
    requires n < 0x8000_0000_0000_0000 && u in {1, 2, 4, 8, 16, 32, 64, 128, 256, 512, 1024}
    ensures Spacing(n, u) in {1, 2, 4, 8, 16, 32, 64, 128, 256, 512, 1024}
    decreases n - u
  {
    if n >= 0x20_0000_0000_0000 * u {
      SpacingIsPower(n, 2 * u);
    }
  }

  lemma MulMonotone(a: nat, b: nat, u: nat)
    requires a <= b
    ensures a * u <= b * u
  {
  }

  /** The next multiple of u does not jump over one of u * c. */
  lemma NextMultiple(n: nat, u: nat, c: nat)
    requires u > 0 && n < c * u
    ensures n - n % u + u <= c * u
  {
    var q := n / u;
    assert n == q * u + n % u;
    assert q < c by {
      if q >= c {
        MulMonotone(c, q, u);
        assert false;
      }
    }
    MulMonotone(q + 1, c, u);
  }

  lemma SpacingDivides(u: nat)
    requires u in {1, 2, 4, 8, 16, 32, 64, 128, 256, 512, 1024}
    ensures 0x8000_0000_0000_0000 / u * u == 0x8000_0000_0000_0000
  {
  }

  lemma RoundedUp(n: nat, u: nat)
    requires u > 0 && u == Spacing(n, 1)
    ensures Float64(n) <= n - n % u + u
  {
  }

  lemma Float64Bound(n: nat)
    requires n <= 0x8000_0000_0000_0000
    ensures Float64(n) <= 0x8000_0000_0000_0000
  {
    hide Float64, Spacing;
    if n < 0x8000_0000_0000_0000 {
      SpacingIsPower(n, 1);
      var u := Spacing(n, 1);
      SpacingDivides(u);
      NextMultiple(n, u, 0x8000_0000_0000_0000 / u);
      RoundedUp(n, u);
    } else {
      PowerIsExact();
    }
  }

  lemma PowerIsExact()
    ensures Float64(0x8000_0000_0000_0000) == 0x8000_0000_0000_0000
  {
    var n := 0x8000_0000_0000_0000;
    assert Spacing(n, 1024) == Spacing(n, 2048) == 2048;
    assert Spacing(n, 256) == Spacing(n, 512) == Spacing(n, 1024);
    assert Spacing(n, 64) == Spacing(n, 128) == Spacing(n, 256);
    assert Spacing(n, 16) == Spacing(n, 32) == Spacing(n, 64);
    assert Spacing(n, 4) == Spacing(n, 8) == Spacing(n, 16);
    assert Spacing(n, 1) == Spacing(n, 2) == Spacing(n, 4);
  }

  /** The drift check on every clock reading and every timestamp: it passes if and only if the difference,
      rounded to float64, lies in the window of some multiple of 2^64 ns. */
  lemma DriftExactly(now: Time, ts: int)
    ensures DriftPasses(now, ts) <==> exists k :: NearMultiple(SecondsApart(now, ts), k)
  {
    var d := SecondsApart(now, ts);
    if d < 0x8000_0000_0000_0000 {
      InRangePasses(d);
    } else {
      Float64Bound(Abs(Wrap64(Unix(now) - ts)));
      WrapsTo(-0x8000_0000_0000_0000 * SECOND, -500_000_000);
      assert NearMultiple(d, 500_000_000);
    }
  }

  /** The whole second that a clock reading lies in. */
  lemma UnixExactly(now: Time, seconds: int)
    ensures Unix(now) == seconds <==> seconds * 1_000_000_000 <= now < (seconds + 1) * 1_000_000_000
  {
    assert now == Unix(now) * SECOND + now % SECOND;
  }

  lemma ExactlyApart(now: Time, ts: int)
    requires Distance(now, ts) < 0x20_0000_0000_0000
    ensures SecondsApart(now, ts) == Distance(now, ts)
  {
    hide Spacing;
    WrapsTo(Unix(now) - ts, 0);
  }

  /** Up to 584 years apart, the drift check passes for the differences it is meant for, at most 30 s, and
      also for every difference so large that the product wraps to a negative duration. So it means what it
      says exactly within the exact range. */
  lemma DriftCheck(now: Time, ts: int)
    requires Distance(now, ts) <= 18446744073
    ensures DriftPasses(now, ts) <==> Distance(now, ts) <= 30 || !InExactRange(now, ts)
  {
    hide SecondsApart, Wrap64;
    var d := Distance(now, ts);
    ExactlyApart(now, ts);
    WrapsTo(d * SECOND, if d <= 9223372036 then 0 else 1);
  }

  /** The same in nanoseconds, up to 584 years apart: the clock must show a time from 30 s before the timestamp
      to the end of the 30th second after it, or be so far off that the product wraps. */
  lemma DriftInNanoseconds(now: Time, ts: int)
    requires (ts - 18446744073) * 1_000_000_000 <= now < (ts + 18446744074) * 1_000_000_000
    ensures DriftPasses(now, ts) <==>
              || (ts - 30) * 1_000_000_000 <= now < (ts + 31) * 1_000_000_000
              || now < (ts - 9223372036) * 1_000_000_000
              || now >= (ts + 9223372037) * 1_000_000_000
  {
    hide DriftPasses, Unix;
    UnixExactly(now, Unix(now));
    DriftCheck(now, ts);
  }
}
