/** The delay between two attempts of a transaction: doubled each time, capped, and scaled by a random factor. */
module Delay {
  /** Durations are 64-bit nanosecond counts. */
  const BASE_RETRY_DELAY: nat := 10_000_000
  const MAX_RETRY_DELAY: nat := 1_000_000_000

  /** x doubled k times: the shift without a word size. */
  function Doubled(x: nat, k: nat): nat {
    if k == 0 then x else 2 * Doubled(x, k - 1)
  }

  const TWO_63: nat := 0x8000_0000_0000_0000
  const TWO_64: nat := 0x1_0000_0000_0000_0000

  /** x << k on a 64-bit signed integer. */
  function ShiftLeft64(x: nat, k: nat): int {
    var bits := Doubled(x, k) % TWO_64;
    if bits < TWO_63 then bits else bits - TWO_64
  }

  /** The delay before jitter: doubled on each attempt, capped at a second. */
  function CappedDelay(attempt: nat): int {
    var delay := ShiftLeft64(BASE_RETRY_DELAY, attempt);
    if delay > MAX_RETRY_DELAY then MAX_RETRY_DELAY else delay
  }

  /** time.Duration(float64(delay) * jitter). */
  function Scaled(delay: int, jitter: real): int {
    (delay as real * jitter).Floor
  }

  /** backoff, with the random factor 0.5 + rand.Float64() as an input. */
  function Backoff(attempt: nat, jitter: real): int {
    Scaled(CappedDelay(attempt), jitter)
  }

  predicate ValidJitter(jitter: real) {
    0.5 <= jitter < 1.5
  }

  lemma {:induction false} DoubledMonotone(x: nat, a: nat, b: nat)
    requires a <= b
    ensures x <= Doubled(x, a) <= Doubled(x, b)
  {
    if b > 0 {
      if a == b { DoubledMonotone(x, a - 1, b - 1); } else { DoubledMonotone(x, a, b - 1); }
    }
  }

  lemma DoubledAtTheEdge()
    ensures Doubled(BASE_RETRY_DELAY, 39) == 5_497_558_138_880_000_000
    ensures Doubled(BASE_RETRY_DELAY, 40) == 10_995_116_277_760_000_000
  {
    assert Doubled(BASE_RETRY_DELAY, 5) == 320_000_000;
    assert Doubled(BASE_RETRY_DELAY, 10) == 10_240_000_000;
    assert Doubled(BASE_RETRY_DELAY, 15) == 327_680_000_000;
    assert Doubled(BASE_RETRY_DELAY, 20) == 10_485_760_000_000;
    assert Doubled(BASE_RETRY_DELAY, 25) == 335_544_320_000_000;
    assert Doubled(BASE_RETRY_DELAY, 30) == 10_737_418_240_000_000;
    assert Doubled(BASE_RETRY_DELAY, 35) == 343_597_383_680_000_000;
  }

  /** The 64-bit shift is exact for attempts 0 to 39, and for no later attempt. */
  lemma ShiftIsExactUpTo39(attempt: nat)
    ensures ShiftLeft64(BASE_RETRY_DELAY, attempt) == Doubled(BASE_RETRY_DELAY, attempt) <==> attempt <= 39
  {
    DoubledAtTheEdge();
    if attempt <= 39 {
      DoubledMonotone(BASE_RETRY_DELAY, attempt, 39);
    } else {
      DoubledMonotone(BASE_RETRY_DELAY, 40, attempt);
    }
  }

  lemma CappedDelayBounds(attempt: nat)
    requires attempt <= 39
    ensures BASE_RETRY_DELAY <= CappedDelay(attempt) <= MAX_RETRY_DELAY
    ensures CappedDelay(attempt) <= Doubled(BASE_RETRY_DELAY, attempt)
  {
    ShiftIsExactUpTo39(attempt);
    DoubledMonotone(BASE_RETRY_DELAY, 0, attempt);
  }

  lemma ScaleBounds(d: int, jitter: real)
    requires d >= 2 && ValidJitter(jitter)
    ensures 1 <= Scaled(d, jitter) && 2 * Scaled(d, jitter) < 3 * d
  {
    var scaled := d as real * jitter;
    assert d as real * 0.5 <= scaled < d as real * 1.5;
    assert scaled.Floor as real <= scaled < scaled.Floor as real + 1.0;
  }

  /** The delay is positive and at most a second and a half. */
  lemma BackoffBounds(attempt: nat, jitter: real)
    requires attempt <= 39 && ValidJitter(jitter)
    ensures 0 < Backoff(attempt, jitter) <= 1_500_000_000
    ensures 2 * Backoff(attempt, jitter) < 3 * Doubled(BASE_RETRY_DELAY, attempt)
  {
    CappedDelayBounds(attempt);
    ScaleBounds(CappedDelay(attempt), jitter);
  }

  function Min(a: nat, b: nat): nat {
    if a < b then a else b
  }

  lemma DelayIsCapped(attempt: nat)
    requires attempt <= 39
    ensures CappedDelay(attempt) == Min(Doubled(10_000_000, attempt), 1_000_000_000)
  {
    ShiftIsExactUpTo39(attempt);
  }

  lemma ScaledRoundsDown(d: int, jitter: real)
    ensures d as real * jitter - 1.0 < Scaled(d, jitter) as real <= d as real * jitter
  {
  }

  /** The delay doubles from 10 ms with each attempt, up to a second, and is scaled by the jitter, rounded down. */
  lemma BackoffDoubles(attempt: nat, jitter: real)
    requires attempt <= 39
    ensures
      var d := Min(Doubled(10_000_000, attempt), 1_000_000_000);
      d as real * jitter - 1.0 < Backoff(attempt, jitter) as real <= d as real * jitter
  {
    DelayIsCapped(attempt);
    ScaledRoundsDown(CappedDelay(attempt), jitter);
  }
}
