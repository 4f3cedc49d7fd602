/**
  The wait the retry handler inserts after a conflicting attempt:
  `100 * 2^(attempt-1)` milliseconds plus a jitter drawn from `[0, 99]`.

  `Math.pow`, `Math.random` and the sleep itself are replaced by integer
  powers of two and a jitter parameter. `Delay` is the intended value on
  unbounded integers; `DelayAsWritten` follows the Java arithmetic, where the
  power is converted to a 64-bit `long` and the jitter is added with
  wrap-around.
 */
module Backoff {

  /** `(long) (Math.random() * 100)`: the random factor is below 1, so the jitter is 0 to 99. */
  type Jitter = j: int | 0 <= j <= 99

  function Pow2(n: nat): (p: nat)
    ensures p >= 1
  {
    if n == 0 then 1 else 2 * Pow2(n - 1)
  }

  /** The deterministic part of the wait after attempt `attempt` (1-based): 100, 200, 400, ... */
  function BaseDelay(attempt: nat): (d: nat)
    requires attempt >= 1
  {
    100 * Pow2(attempt - 1)
  }

  /** The wait, in milliseconds, after conflicting attempt `attempt`. */
  function Delay(attempt: nat, jitter: Jitter): (d: int)
    requires attempt >= 1
    ensures 100 <= d
    ensures BaseDelay(attempt) <= d <= BaseDelay(attempt) + 99
  {
    BaseDelay(attempt) + jitter
  }

  /** Each wait doubles the base of the previous one. */
  lemma BaseDelayDoubles(attempt: nat)
    requires attempt >= 1
    ensures BaseDelay(attempt + 1) == 2 * BaseDelay(attempt)
  {
  }

  /** Whatever jitter is drawn, a later wait is strictly longer than an earlier one. */
  lemma {:induction false} DelayIncreasing(i: nat, j: nat, ji: Jitter, jj: Jitter)
    requires 1 <= i < j
    ensures Delay(i, ji) < Delay(j, jj)
    decreases j - i
  {
    BaseDelayDoubles(j - 1);
    if i < j - 1 {
      DelayIncreasing(i, j - 1, ji, 0);
    }
  }

  // The 64-bit arithmetic of the source

  const LongMax: int := 0x7FFF_FFFF_FFFF_FFFF
  const LongModulus: int := 0x1_0000_0000_0000_0000

  /** Java's narrowing of a non-negative double to `long`: values above the range saturate. */
  function SaturateToLong(x: nat): (r: int)
    ensures r <= LongMax
    ensures x <= LongMax ==> r == x
  {
    if x > LongMax then LongMax else x
  }

  /** Two's-complement wrap-around of `long` addition. */
  function WrapLong(x: int): (r: int)
    ensures -LongMax - 1 <= r <= LongMax
    ensures -LongMax - 1 <= x <= LongMax ==> r == x
  {
    var m := x % LongModulus;
    if m > LongMax then m - LongModulus else m
  }

  /**
    The delay as the handler computes it: the power of two times 100 is exact
    in a double, is narrowed to `long`, and the jitter is added with `+=`.
   */
  function DelayAsWritten(attempt: nat, jitter: Jitter): (d: int)
    requires attempt >= 1
    ensures -LongMax - 1 <= d <= LongMax
  {
    WrapLong(SaturateToLong(100 * Pow2(attempt - 1)) + jitter)
  }

  lemma {:induction false} Pow2Monotone(m: nat, n: nat)
    requires m <= n
    ensures Pow2(m) <= Pow2(n)
    decreases n - m
  {
    if m < n {
      Pow2Monotone(m, n - 1);
    }
  }

  lemma {:induction false} Pow2Add(a: nat, b: nat)
    ensures Pow2(a + b) == Pow2(a) * Pow2(b)
    decreases a
  {
    if a > 0 {
      Pow2Add(a - 1, b);
    }
  }

  /** The two powers the 64-bit boundary falls between. */
  lemma Pow2Around63()
    ensures Pow2(56) == 0x100_0000_0000_0000
    ensures Pow2(57) == 0x200_0000_0000_0000
  {
    assert Pow2(7) == 128;
    Pow2Add(7, 7);
    assert Pow2(14) == 0x4000;
    Pow2Add(14, 14);
    assert Pow2(28) == 0x1000_0000;
    Pow2Add(28, 28);
  }

  /** Up to attempt 57 the Java arithmetic and the intended delay agree. */
  lemma DelayAsWrittenAgreesBelow58(attempt: nat, jitter: Jitter)
    requires 1 <= attempt <= 57
    ensures DelayAsWritten(attempt, jitter) == Delay(attempt, jitter)
  {
    Pow2Monotone(attempt - 1, 56);
    Pow2Around63();
  }

  /**
    From attempt 58 on the base saturates at `Long.MAX_VALUE`, and any
    non-zero jitter wraps the delay to a negative number, which
    `Thread.sleep` refuses; the intended delay is positive.
   */
  lemma DelayAsWrittenNegativeFrom58(attempt: nat, jitter: Jitter)
    requires attempt >= 58 && jitter >= 1
    ensures DelayAsWritten(attempt, jitter) < 0
    ensures Delay(attempt, jitter) > 0
  {
    Pow2Monotone(57, attempt - 1);
    Pow2Around63();
  }
}
