/** The truncated binary exponential backoff of src/aclk/aclk_util.c, over unbounded integers. */
module Backoff {

  const MSEC_PER_SEC: nat := 1000

  function Pow(base: nat, n: nat): nat {
    if n == 0 then 1 else base * Pow(base, n - 1)
  }

  /** The random part is drawn below this bound. */
  function Jitter(delay: nat): (j: nat)
    ensures j >= 1000
  {
    if delay / 2 > 1000 then delay / 2 else 1000
  }

  /** The delay in milliseconds before it is compared with the limits; `rnd` is what `random()` returned. */
  function RawDelay(base: nat, attempt: nat, rnd: nat): nat
    requires attempt > 0
  {
    var delay := Pow(base, attempt - 1) * MSEC_PER_SEC;
    delay + rnd % Jitter(delay)
  }

  /** What the source returns: the limits are in seconds and are returned as they are. */
  function Limit(raw: nat, min: nat, max: nat): nat {
    if raw <= min * MSEC_PER_SEC then min
    else if raw >= max * MSEC_PER_SEC then max
    else raw
  }

  /** What its comment promises: milliseconds between the two limits. */
  function Clamp(raw: nat, min: nat, max: nat): nat {
    if raw <= min * MSEC_PER_SEC then min * MSEC_PER_SEC
    else if raw >= max * MSEC_PER_SEC then max * MSEC_PER_SEC
    else raw
  }

  lemma {:induction false} PowGrows(base: nat, m: nat, n: nat)
    requires base >= 2 && m <= n
    ensures 1 <= Pow(base, m) <= Pow(base, n)
    ensures m < n ==> 2 * Pow(base, m) <= Pow(base, n)
    decreases n
  {
    if n == 0 {
    } else if m == n {
      PowGrows(base, m - 1, n - 1);
      Doubles(base, Pow(base, m - 1));
    } else {
      PowGrows(base, m, n - 1);
      Doubles(base, Pow(base, n - 1));
    }
  }

  lemma Doubles(base: nat, p: nat)
    requires base >= 2
    ensures base * p >= 2 * p
  {
    assert base * p == 2 * p + (base - 2) * p;
  }

  /** `Pow` is the power: one factor more multiplies, and exponents add up. */
  lemma {:induction false} PowAdds(base: nat, m: nat, n: nat)
    ensures Pow(base, 1) == base && Pow(base, 0) == 1
    ensures Pow(base, m + n) == Pow(base, m) * Pow(base, n)
    decreases m
  {
    if m > 0 {
      PowAdds(base, m - 1, n);
      assert base * (Pow(base, m - 1) * Pow(base, n)) == base * Pow(base, m - 1) * Pow(base, n);
    }
  }

  lemma SmallRemainder(x: nat, y: nat)
    requires x < y
    ensures x % y == x
  {
  }

  /**
   The raw delay is the power of the base in seconds, plus a random number below half of it or one second, whichever is
   more; every such number can occur.
   */
  lemma RawIsPowerPlusRandom(base: nat, attempt: nat, rnd: nat, extra: nat)
    requires attempt > 0
    ensures var low := Pow(base, attempt - 1) * 1000;
      && low <= RawDelay(base, attempt, rnd)
      && (RawDelay(base, attempt, rnd) < low + 1000 || RawDelay(base, attempt, rnd) < low + low / 2)
      && (extra < 1000 || extra < low / 2 ==> RawDelay(base, attempt, extra) == low + extra)
  {
    var low := Pow(base, attempt - 1) * 1000;
    var j := Jitter(low);
    assert RawDelay(base, attempt, rnd) == low + rnd % j && rnd % j < j;
    if extra < 1000 || extra < low / 2 {
      assert extra < j;
      SmallRemainder(extra, j);
      assert RawDelay(base, attempt, extra) == low + extra % j;
    }
  }

  /** The raw delays of an attempt fill a range that starts at a power of the base and stays below its double. */
  lemma RawRange(base: nat, attempt: nat, rnd: nat)
    requires base >= 2 && attempt > 0
    ensures var low := Pow(base, attempt - 1) * MSEC_PER_SEC; low <= RawDelay(base, attempt, rnd) < 2 * low
  {
    PowGrows(base, 0, attempt - 1);
    var low := Pow(base, attempt - 1) * MSEC_PER_SEC;
    assert rnd % Jitter(low) < Jitter(low);
  }

  /** Whatever `random()` returns, a later attempt has a longer raw delay. */
  lemma RawDelaysIncrease(base: nat, a: nat, b: nat, rndA: nat, rndB: nat)
    requires base >= 2 && 0 < a < b
    ensures RawDelay(base, a, rndA) < RawDelay(base, b, rndB)
  {
    RawRange(base, a, rndA);
    RawRange(base, b, rndB);
    PowGrows(base, a - 1, b - 1);
  }

  /**
   The returned value is the promised one exactly when neither limit applies, or the limit is zero; a limit that applies
   is returned a thousand times too small.
   */
  lemma LimitKeepsPromiseExactly(raw: nat, min: nat, max: nat)
    ensures Limit(raw, min, max) == Clamp(raw, min, max) <==>
      || min * MSEC_PER_SEC < raw < max * MSEC_PER_SEC
      || (raw <= min * MSEC_PER_SEC && min == 0)
      || (min * MSEC_PER_SEC < raw && max * MSEC_PER_SEC <= raw && max == 0)
    ensures raw <= min * MSEC_PER_SEC || raw >= max * MSEC_PER_SEC ==>
      Limit(raw, min, max) * MSEC_PER_SEC == Clamp(raw, min, max)
    ensures raw <= min * MSEC_PER_SEC ==> Clamp(raw, min, max) == min * MSEC_PER_SEC
    ensures min <= max ==> min * MSEC_PER_SEC <= Clamp(raw, min, max) <= max * MSEC_PER_SEC
  {
  }

  /** With the default limits the backoff collapses to about a second at the eleventh attempt. */
  lemma DefaultBackoffCollapses(rnd: nat, rnd': nat)
    ensures Limit(RawDelay(2, 10, rnd), 0, 1024) >= 512_000
    ensures Limit(RawDelay(2, 11, rnd'), 0, 1024) == 1024
  {
    RawRange(2, 10, rnd);
    RawRange(2, 11, rnd');
    assert Pow(2, 5) == 32 by {
      assert Pow(2, 3) == 8;
    }
    assert Pow(2, 9) == 512 by {
      assert Pow(2, 7) == 128;
    }
    assert Pow(2, 10) == 1024;
  }

  class Tbeb {
    /** The static counter: attempts since the last reset, -1 before the first. */
    var attempt: int

    constructor ()
      ensures attempt == -1
    {
      attempt := -1;
    }

    method Reset()
      modifies this
      ensures attempt == -1
    {
      attempt := -1;
    }

    /** `aclk_tbeb_delay(0, base, min, max)`: the first attempt is immediate, the others are limited raw delays. */
    method Delay(base: nat, min: nat, max: nat, rnd: nat) returns (delay: nat)
      requires attempt >= -1
      modifies this
      ensures attempt == old(attempt) + 1
      ensures attempt == 0 ==> delay == 0
      ensures attempt > 0 ==> delay == Limit(RawDelay(base, attempt, rnd), min, max)
    {
      attempt := attempt + 1;
      if attempt == 0 {
        return 0;
      }
      delay := Pow(base, attempt - 1) * MSEC_PER_SEC;
      delay := delay + rnd % Jitter(delay);
      if delay <= min * MSEC_PER_SEC {
        return min;
      }
      if delay >= max * MSEC_PER_SEC {
        return max;
      }
    }
  }
}
