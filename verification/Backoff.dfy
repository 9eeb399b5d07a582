/**
 The backoff arithmetic of both retry loops, in wrapping 64-bit integers. Random jitter is
 an arbitrary choice in its range, made by the parameter `roll`.
 */
module Backoff {
  import opened Base

  const TWO_31 := 0x8000_0000
  const TWO_32 := 0x1_0000_0000
  const TWO_62 := 0x4000_0000_0000_0000
  const TWO_63 := 0x8000_0000_0000_0000
  const TWO_64 := 0x1_0000_0000_0000_0000

  /** Two's complement reduction to int64. */
  function Wrap(x: int): (r: int)
    ensures -TWO_63 <= r < TWO_63
    ensures -TWO_63 <= x < TWO_63 ==> r == x
  {
    (x + TWO_63) % TWO_64 - TWO_63
  }

  function Pow2(n: nat): (r: int)
    ensures r >= 1
  {
    if n == 0 then 1 else 2 * Pow2(n - 1)
  }

  /** Go's `1 << n` on int64. */
  function Shift(n: nat): int {
    if n >= 64 then 0 else Wrap(Pow2(n))
  }

  function Min(a: int, b: int): int {
    if a <= b then a else b
  }

  // ---------------------------------------------------------------------------
  // Powers of two

  lemma {:induction false} Pow2Sum(m: nat, n: nat)
    ensures Pow2(m + n) == Pow2(m) * Pow2(n)
  {
    if m > 0 {
      Pow2Sum(m - 1, n);
    }
  }

  lemma {:induction false} Pow2Grows(m: nat, n: nat)
    requires m <= n
    ensures Pow2(m) <= Pow2(n)
  {
    if m < n {
      Pow2Grows(m, n - 1);
    }
  }

  lemma Pow2Values()
    ensures Pow2(30) == 0x4000_0000 && Pow2(31) == TWO_31 && Pow2(32) == TWO_32
    ensures Pow2(62) == TWO_62 && Pow2(63) == TWO_63 && Pow2(64) == TWO_64
  {
    assert Pow2(4) == 16;
    assert Pow2(8) == 256 by { Pow2Sum(4, 4); }
    assert Pow2(16) == 0x1_0000 by { Pow2Sum(8, 8); }
    assert Pow2(32) == TWO_32 by { Pow2Sum(16, 16); }
    assert Pow2(64) == TWO_64 by { Pow2Sum(32, 32); }
  }

  lemma WrapSubtracts(x: int) returns (k: int)
    ensures Wrap(x) == x - k * TWO_64
  {
    k := (x + TWO_63) / TWO_64;
  }

  lemma Factor(base: int, k: int, q: int, p: int)
    ensures (base - k * q) * p == base * p - k * (q * p)
  {
    assert (k * q) * p == k * (q * p);
  }

  /** A wrapped multiple of 2^a is a multiple of 2^a, so it is not positive or at least 2^a. */
  lemma WrappedMultiple(base: int, a: nat)
    requires a <= 64
    ensures Wrap(base * Pow2(a)) > 0 ==> Wrap(base * Pow2(a)) >= Pow2(a)
  {
    var k := WrapSubtracts(base * Pow2(a));
    Pow2Sum(64 - a, a);
    Pow2Values();
    Factor(base, k, Pow2(64 - a), Pow2(a));
    var m := base - k * Pow2(64 - a);
    assert Wrap(base * Pow2(a)) == m * Pow2(a);
    if m * Pow2(a) > 0 {
      Positive(m, Pow2(a));
    }
  }

  lemma Positive(m: int, p: int)
    requires m * p > 0 && p > 0
    ensures m * p >= p
  {
    assert m >= 1;
    assert (m - 1) * p >= 0;
  }

  // ---------------------------------------------------------------------------
  // The client's full jitter

  /** The ceiling `d` the client draws its jitter below. */
  function Ceiling(base: int, max: int, attempt: int): int {
    var d := if attempt <= 0 then base else if attempt >= 62 then max else Wrap(base * Shift(attempt));
    if d <= 0 || d > max then max else d
  }

  function ClientBackoff(base: int, max: int, attempt: int, roll: nat): int {
    var d := Ceiling(base, max, attempt);
    if d <= 1 then d else roll % d + 1
  }

  /** For every base and attempt the wait lies in [1, MaxBackoff], and every value up to the ceiling can be drawn. */
  lemma ClientBackoffInRange(base: int, max: int, attempt: int, roll: nat, want: int)
    requires max >= 1
    ensures 1 <= ClientBackoff(base, max, attempt, roll) <= Ceiling(base, max, attempt) <= max
    ensures 1 <= want <= Ceiling(base, max, attempt) ==> ClientBackoff(base, max, attempt, want - 1) == want
  {
    var d := Ceiling(base, max, attempt);
    assert 1 <= d <= max;
    Draw(d, roll);
    if 1 <= want <= d {
      Draw(d, want - 1);
    }
  }

  lemma Draw(d: int, roll: nat)
    requires d >= 1
    ensures 0 <= roll % d < d
    ensures roll < d ==> roll % d == roll
  {
  }

  /** Shifting is exact below 2^63. */
  lemma ShiftExact(a: nat)
    requires a <= 62
    ensures Shift(a) == Pow2(a) <= TWO_62
  {
    Pow2Grows(a, 62);
    Pow2Values();
  }

  /** A product of at most 2^63 is exact, or wraps to the least int64. */
  lemma WrapUpTo63(x: int)
    requires 0 < x <= TWO_63
    ensures Wrap(x) == if x < TWO_63 then x else -TWO_63
  {
  }

  lemma ProductUpTo63(base: int, p: int)
    requires 0 < base <= TWO_32 && 1 <= p <= TWO_31
    ensures base <= base * p <= TWO_63
  {
    Scale(base, TWO_32, p);
    Scale(1, p, base);
  }

  lemma CeilingOfSmallShift(base: int, max: int, attempt: int)
    requires 0 < base <= max <= TWO_32 && 0 <= attempt <= 31
    ensures Ceiling(base, max, attempt) == Min(base * Pow2(attempt), max)
  {
    ShiftExact(attempt);
    Pow2Grows(attempt, 31);
    Pow2Values();
    ProductUpTo63(base, Pow2(attempt));
    WrapUpTo63(base * Pow2(attempt));
  }

  lemma CeilingOfLargeShift(base: int, max: int, attempt: int)
    requires 0 < base <= max <= TWO_32 && attempt >= 32
    ensures Ceiling(base, max, attempt) == max == Min(base * Pow2(attempt), max)
  {
    Pow2Grows(32, attempt);
    Pow2Values();
    assert base * Pow2(attempt) >= Pow2(attempt) by { Scale(1, base, Pow2(attempt)); }
    if attempt < 62 {
      ShiftExact(attempt);
      WrappedMultiple(base, attempt);
    }
  }

  lemma Scale(a: int, b: int, p: int)
    requires a <= b && p >= 0
    ensures a * p <= b * p
  {
  }

  /** The ceiling is min(BaseBackoff * 2^attempt, MaxBackoff), as if computed without overflow, for
      every base up to MaxBackoff and every attempt, if and only if MaxBackoff is at most 2^32 ns. */
  lemma CeilingExactIff(max: int)
    requires 1 <= max < TWO_63
    ensures (forall base, attempt {:trigger Ceiling(base, max, attempt)} ::
               0 < base <= max && 0 <= attempt ==> Ceiling(base, max, attempt) == Min(base * Pow2(attempt), max))
            <==> max <= TWO_32
  {
    if max <= TWO_32 {
      forall base, attempt {:trigger Ceiling(base, max, attempt)} | 0 < base <= max && 0 <= attempt
        ensures Ceiling(base, max, attempt) == Min(base * Pow2(attempt), max)
      {
        if attempt <= 31 {
          CeilingOfSmallShift(base, max, attempt);
        } else {
          CeilingOfLargeShift(base, max, attempt);
        }
      }
    } else {
      CeilingTooLow(max);
    }
  }

  /** Above 2^32 ns, a base of 2^32 + 1 overflows at attempt 32 to a ceiling of 2^32. */
  lemma CeilingTooLow(max: int)
    requires TWO_32 < max < TWO_63
    ensures Ceiling(TWO_32 + 1, max, 32) == TWO_32 < Min((TWO_32 + 1) * Pow2(32), max)
  {
    Pow2Values();
    ShiftExact(32);
    assert (TWO_32 + 1) * TWO_32 == TWO_64 + TWO_32;
  }

  // ---------------------------------------------------------------------------
  // PostgreSQL's quarter jitter

  /** Go's truncating division by a positive number. */
  function Quo(x: int, d: int): int
    requires d > 0
  {
    if x >= 0 then x / d else -(-x / d)
  }

  /** The capped delay before jitter. */
  function Delay(base: int, attempt: nat, cap: int): int {
    var d := Wrap(base * Shift(attempt));
    if d > cap then cap else d
  }

  /** `backoffDuration`; `roll` is None when the random source fails. */
  function PgBackoff(base: int, attempt: nat, cap: int, roll: Option<nat>): int {
    var d := Delay(base, attempt, cap);
    var half := Quo(d, 2);
    if half <= 0 || roll == None then d
    else Wrap(d + (roll.value % half - Quo(d, 4)))
  }

  /** Without overflow, the wait is within a quarter of min(base * 2^attempt, cap). */
  lemma PgBackoffBounds(base: int, attempt: nat, cap: int, roll: Option<nat>)
    requires base > 0 && 0 < cap <= TWO_62 && base * Pow2(attempt) < TWO_63
    ensures Delay(base, attempt, cap) == Min(base * Pow2(attempt), cap)
    ensures var d, w := Delay(base, attempt, cap), PgBackoff(base, attempt, cap, roll);
            d - d / 4 <= w <= d + d / 4 && w > 0
  {
    NoOverflow(base, attempt);
    assert base * Pow2(attempt) >= 1 by { Scale(1, base, Pow2(attempt)); }
    QuarterJitter(Delay(base, attempt, cap), roll);
  }

  lemma NoOverflow(base: int, attempt: nat)
    requires base > 0 && base * Pow2(attempt) < TWO_63
    ensures attempt <= 62 && Shift(attempt) == Pow2(attempt) && Wrap(base * Shift(attempt)) == base * Pow2(attempt)
  {
    Scale(1, base, Pow2(attempt));
    Pow2Values();
    if attempt >= 63 {
      Pow2Grows(63, attempt);
    } else {
      ShiftExact(attempt);
    }
    assert base * Pow2(attempt) > 0 by { Scale(1, base, Pow2(attempt)); }
  }

  lemma QuarterJitter(d: int, roll: Option<nat>)
    requires 0 < d <= TWO_62
    ensures var half := Quo(d, 2);
            var w := if half <= 0 || roll == None then d else Wrap(d + (roll.value % half - Quo(d, 4)));
            d - d / 4 <= w <= d + d / 4 && w > 0
  {
    var half := d / 2;
    if half > 0 && roll.Some? {
      var r := roll.value % half;
      assert 0 <= r < half;
    }
  }

  /** Without overflow, the waits that jitter can draw are exactly the half of d around its lower quarter:
      [d - floor(d/4), d - floor(d/4) + floor(d/2) - 1]; without a random number the wait is d itself. */
  lemma PgJitterIff(base: int, attempt: nat, cap: int, want: int)
    requires base > 0 && 1 < cap <= TWO_62 && 1 < base * Pow2(attempt) < TWO_63
    ensures var d := Min(base * Pow2(attempt), cap);
            && PgBackoff(base, attempt, cap, None) == d
            && ((exists roll: nat :: PgBackoff(base, attempt, cap, Some(roll)) == want) <==>
                d - d / 4 <= want <= d - d / 4 + d / 2 - 1)
  {
    NoOverflow(base, attempt);
    var d := Delay(base, attempt, cap);
    forall roll: nat ensures PgBackoff(base, attempt, cap, Some(roll)) == d - d / 4 + roll % (d / 2) {
      JitterOf(d, roll);
    }
    if d - d / 4 <= want <= d - d / 4 + d / 2 - 1 {
      var roll: nat := want - (d - d / 4);
      Draw(d / 2, roll);
      assert PgBackoff(base, attempt, cap, Some(roll)) == want;
    }
    forall roll: nat | PgBackoff(base, attempt, cap, Some(roll)) == want
      ensures d - d / 4 <= want <= d - d / 4 + d / 2 - 1
    {
      Draw(d / 2, roll);
    }
  }

  lemma JitterOf(d: int, roll: nat)
    requires 1 < d <= TWO_62
    ensures Quo(d, 2) == d / 2 > 0 && Quo(d, 4) == d / 4
    ensures Wrap(d + (roll % (d / 2) - d / 4)) == d - d / 4 + roll % (d / 2)
  {
    Draw(d / 2, roll);
  }

  /** From attempt 64 on the shift is zero: every base waits for nothing. */
  lemma PgBackoffCollapses(base: int, attempt: nat, cap: int, roll: Option<nat>)
    requires attempt >= 64 && cap >= 0
    ensures PgBackoff(base, attempt, cap, roll) == 0
  {
  }

  /** The first product past int64 is below 2^64, so it wraps to a negative number. */
  lemma FirstOverflowIsNegative(base: int, attempt: nat)
    requires attempt > 0 && base > 0
    requires base * Pow2(attempt - 1) < TWO_63 <= base * Pow2(attempt)
    ensures Wrap(base * Shift(attempt)) < 0
  {
    assert base * Pow2(attempt) == 2 * (base * Pow2(attempt - 1));
    NoOverflow(base, attempt - 1);
    Pow2Values();
    if attempt == 63 {
      assert base == 1;
    } else {
      ShiftExact(attempt);
    }
  }

  lemma {:induction false} SomeAttemptOverflows(base: int, n: nat) returns (a: nat)
    requires 0 < base < TWO_63 <= base * Pow2(n)
    ensures a <= n && Wrap(base * Shift(a)) < 0
  {
    if n > 0 && base * Pow2(n - 1) < TWO_63 {
      FirstOverflowIsNegative(base, n);
      a := n;
    } else {
      assert n > 0;
      a := SomeAttemptOverflows(base, n - 1);
    }
  }

  lemma EarlierProductIsSmaller(base: int, a: nat, n: nat)
    requires base > 0 && a <= n
    ensures 0 < base * Pow2(a) <= base * Pow2(n)
  {
    Pow2Grows(a, n);
    Scale(Pow2(a), Pow2(n), base);
    Scale(1, Pow2(a), base);
  }

  /** The delays of attempts 0 to n are min(base * 2^attempt, cap), as documented, if and only if the
      last product fits int64. */
  lemma DelayExactIff(base: int, cap: int, n: nat)
    requires 0 < base < TWO_63 && 0 < cap < TWO_63
    ensures (forall a: nat {:trigger Delay(base, a, cap)} :: a <= n ==> Delay(base, a, cap) == Min(base * Pow2(a), cap))
            <==> base * Pow2(n) < TWO_63
  {
    if base * Pow2(n) < TWO_63 {
      forall a: nat {:trigger Delay(base, a, cap)} | a <= n ensures Delay(base, a, cap) == Min(base * Pow2(a), cap) {
        EarlierProductIsSmaller(base, a, n);
        NoOverflow(base, a);
      }
    } else {
      var a := SomeAttemptOverflows(base, n);
      EarlierProductIsSmaller(base, a, n);
      assert Delay(base, a, cap) != Min(base * Pow2(a), cap);
    }
  }

  const DEFAULT_BASE := 250_000_000

  /** With the default base of 250 ms the last exact attempt is 35, and attempt 36 waits a negative time. */
  lemma DefaultPgBackoffOverflows(n: nat, cap: int, roll: Option<nat>)
    requires cap >= 0
    ensures DEFAULT_BASE * Pow2(n) < TWO_63 <==> n <= 35
    ensures PgBackoff(DEFAULT_BASE, 36, cap, roll) < 0
  {
    Pow2Values();
    assert Pow2(36) == TWO_32 * 16 by { Pow2Sum(32, 4); assert Pow2(4) == 16; }
    assert Pow2(36) == 2 * Pow2(35);
    if n <= 35 {
      EarlierProductIsSmaller(DEFAULT_BASE, n, 35);
    } else {
      EarlierProductIsSmaller(DEFAULT_BASE, 36, n);
    }
    FirstOverflowIsNegative(DEFAULT_BASE, 36);
  }
}
