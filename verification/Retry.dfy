/** Retrying with capped exponential backoff and jitter. */
module Retry {
  import opened Wrappers

  const U64_MAX: nat := 0xFFFF_FFFF_FFFF_FFFF
  const TWO_63: nat := 0x8000_0000_0000_0000
  const TWO_64: nat := 0x1_0000_0000_0000_0000

  type U64 = n: nat | n <= U64_MAX
  type U32 = n: nat | n <= 0xFFFF_FFFF

  datatype RetryPolicy = RetryPolicy(maxRetries: U32, baseWaitMs: U64, maxWaitMs: U64)

  function Min(a: nat, b: nat): nat {
    if a < b then a else b
  }

  function Pow2(n: nat): (p: nat)
    ensures p >= 1
  {
    if n == 0 then 1 else 2 * Pow2(n - 1)
  }

  // Conversion to a signed 64-bit number keeps the bits.
  function AsI64(n: int): int {
    var m := n % TWO_64;
    if m < TWO_63 then m else m - TWO_64
  }

  // ---------------------------------------------------------------- the wait before a retry

  // Doubling per attempt, at most ten times, saturating at the largest 64-bit value, then capped.
  function CappedBackoff(p: RetryPolicy, attempt: nat): (c: U64)
    ensures c <= p.maxWaitMs
  {
    var base := Min(p.baseWaitMs * Pow2(Min(attempt, 10)), U64_MAX);
    Min(base, p.maxWaitMs)
  }

  // The jitter for a clock reading: a signed number.
  function Jitter(range: U64, seed: U64): int {
    if range > 0 then AsI64(seed % (range * 2)) - AsI64(range) else 0
  }

  // Signed arithmetic wraps, and negative totals become zero.
  function Jittered(capped: U64, seed: U64): nat {
    var total := AsI64(AsI64(capped) + Jitter(capped / 4, seed));
    if total < 0 then 0 else total
  }

  // `seed` is the clock's nanosecond count.
  function BackoffMs(p: RetryPolicy, attempt: nat, seed: U64): nat {
    Jittered(CappedBackoff(p, attempt), seed)
  }

  // Saturation never shows: the cap is itself a 64-bit value.
  lemma CappedIsMin(p: RetryPolicy, attempt: nat)
    ensures CappedBackoff(p, attempt) == Min(p.baseWaitMs * Pow2(Min(attempt, 10)), p.maxWaitMs)
  {
  }

  // Within a quarter of the capped backoff, the upper end excluded unless the quarter is nothing.
  ghost predicate WithinQuarter(wait: nat, capped: nat) {
    var range := capped / 4;
    capped - range <= wait && (wait < capped + range || (range == 0 && wait == capped))
  }

  lemma AsI64Range(n: int)
    requires -(TWO_63 as int) <= n < TWO_64
    ensures AsI64(n) == if n < TWO_63 then n else n - TWO_64
  {
  }

  lemma SmallMod(n: nat, d: nat)
    requires n < d
    ensures n % d == n
  {
  }

  lemma JitterRange(range: U64, seed: U64)
    requires 0 < range <= TWO_63 / 2
    ensures -(range as int) <= Jitter(range, seed) < range
    ensures seed < 2 * range ==> Jitter(range, seed) == seed - range
  {
    var m := seed % (range * 2);
    assert 0 <= m < range * 2;
    AsI64Range(m);
    AsI64Range(range);
    if seed < 2 * range {
      SmallMod(seed, range * 2);
    }
  }

  lemma JitteredInRange(c: U64, seed: U64)
    requires c + c / 4 <= TWO_63
    ensures WithinQuarter(Jittered(c, seed), c)
  {
    var range := c / 4;
    if range > 0 {
      JitterRange(range, seed);
    }
    AsI64Range(c);
    AsI64Range(c + Jitter(range, seed));
  }

  // Beyond that some clock reading overflows and the wait collapses to nothing.
  lemma JitteredOverflows(c: U64) returns (seed: U64)
    requires c + c / 4 > TWO_63
    ensures !WithinQuarter(Jittered(c, seed), c)
  {
    var range := c / 4;
    seed := if c < TWO_63 then 2 * range - 1 else range;
    JitterRange(range, seed);
    AsI64Range(c);
    AsI64Range(if c < TWO_63 then c + (range - 1) else c - TWO_64);
  }

  // Every wait lies within a quarter of the base doubled per attempt and capped, exactly when that backoff plus its
  // quarter fits a signed 64-bit number.
  lemma WaitWithinQuarterIff(p: RetryPolicy, attempt: nat)
    ensures var c := Min(p.baseWaitMs * Pow2(Min(attempt, 10)), p.maxWaitMs);
      (forall seed: U64 :: WithinQuarter(BackoffMs(p, attempt, seed), c)) <==> c + c / 4 <= TWO_63
  {
    CappedIsMin(p, attempt);
    var c := CappedBackoff(p, attempt);
    if c + c / 4 <= TWO_63 {
      forall seed: U64 ensures WithinQuarter(BackoffMs(p, attempt, seed), c) {
        JitteredInRange(c, seed);
      }
    } else {
      var seed := JitteredOverflows(c);
      assert !WithinQuarter(BackoffMs(p, attempt, seed), c);
    }
  }

  // Within that range the wait is the lower end plus the clock's remainder, so that every wait of the window occurs.
  lemma WaitExact(p: RetryPolicy, attempt: nat, seed: U64)
    requires var c := Min(p.baseWaitMs * Pow2(Min(attempt, 10)), p.maxWaitMs); c + c / 4 <= TWO_63
    ensures var c := Min(p.baseWaitMs * Pow2(Min(attempt, 10)), p.maxWaitMs);
      BackoffMs(p, attempt, seed) == c - c / 4 + if c / 4 == 0 then 0 else seed % (2 * (c / 4))
  {
    CappedIsMin(p, attempt);
    JitterExact(CappedBackoff(p, attempt), seed);
  }

  lemma JitterExact(c: U64, seed: U64)
    requires c + c / 4 <= TWO_63
    ensures Jittered(c, seed) == c - c / 4 + if c / 4 == 0 then 0 else seed % (2 * (c / 4))
  {
    var range := c / 4;
    if range > 0 {
      JitterRange(range, seed);
      AsI64Range(seed % (range * 2));
      AsI64Range(range);
      assert range * 2 == 2 * range;
    }
    AsI64Range(c);
    AsI64Range(c + Jitter(range, seed));
  }

  // ---------------------------------------------------------------- the attempt loop

  // What the n-th call of the operation would return, for as many calls as there can be.
  ghost predicate Retried<T, E>(outcomes: seq<Result<T, E>>, retryable: E -> bool, n: nat)
    requires n <= |outcomes|
  {
    forall i :: 0 <= i < n ==> outcomes[i].Err? && retryable(outcomes[i].error)
  }

  // The calls end with this one: all before it are retried, and it is a success, an error that may not be retried, or
  // the last one permitted.
  ghost predicate StopsAt<T, E>(p: RetryPolicy, outcomes: seq<Result<T, E>>, retryable: E -> bool, calls: nat)
    requires |outcomes| == p.maxRetries + 1
  {
    && 1 <= calls <= p.maxRetries + 1
    && Retried(outcomes, retryable, calls - 1)
    && (outcomes[calls - 1].Err? && retryable(outcomes[calls - 1].error) ==> calls == p.maxRetries + 1)
  }

  // There is only one such call.
  lemma StopUnique<T, E>(p: RetryPolicy, outcomes: seq<Result<T, E>>, retryable: E -> bool, a: nat, b: nat)
    requires |outcomes| == p.maxRetries + 1
    requires StopsAt(p, outcomes, retryable, a) && StopsAt(p, outcomes, retryable, b)
    ensures a == b
  {
    assert forall i :: 0 <= i < a - 1 ==> outcomes[i].Err? && retryable(outcomes[i].error);
    assert forall i :: 0 <= i < b - 1 ==> outcomes[i].Err? && retryable(outcomes[i].error);
  }

  lemma OnlyStop<T, E>(p: RetryPolicy, outcomes: seq<Result<T, E>>, retryable: E -> bool, calls: nat)
    requires |outcomes| == p.maxRetries + 1 && StopsAt(p, outcomes, retryable, calls)
    ensures forall k: nat :: StopsAt(p, outcomes, retryable, k) ==> k == calls
  {
    forall k: nat | StopsAt(p, outcomes, retryable, k) ensures k == calls {
      StopUnique(p, outcomes, retryable, k, calls);
    }
  }

  // Returns the outcome of the last call made: the first success, or the first error that may not be retried, or the
  // error of the last permitted call. Between calls it sleeps, and every wait lies within a quarter of its backoff.
  method Execute<T, E>(p: RetryPolicy, outcomes: seq<Result<T, E>>, retryable: E -> bool, seeds: seq<U64>)
    returns (r: Result<T, E>, calls: nat, waits: seq<nat>)
    requires |outcomes| == p.maxRetries + 1 && |seeds| == p.maxRetries
    ensures forall k: nat :: StopsAt(p, outcomes, retryable, k) <==> k == calls
    ensures 1 <= calls <= p.maxRetries + 1 && r == outcomes[calls - 1]
    ensures |waits| == calls - 1
    ensures forall i :: 0 <= i < |waits| ==> waits[i] == BackoffMs(p, i, seeds[i])
  {
    waits := [];
    var lastError: Option<E> := None;
    for attempt := 0 to p.maxRetries + 1
      invariant |waits| == if attempt == 0 then 0 else attempt - 1
      invariant attempt <= p.maxRetries
      invariant Retried(outcomes, retryable, attempt)
      invariant attempt > 0 ==> lastError.Some?
      invariant forall i :: 0 <= i < |waits| ==> waits[i] == BackoffMs(p, i, seeds[i])
    {
      if attempt > 0 {
        waits := waits + [BackoffMs(p, attempt - 1, seeds[attempt - 1])];
      }
      match outcomes[attempt]
      case Ok(_) =>
        OnlyStop(p, outcomes, retryable, attempt + 1);
        return outcomes[attempt], attempt + 1, waits;
      case Err(e) =>
        if retryable(e) && attempt < p.maxRetries {
          lastError := Some(e);
        } else {
          OnlyStop(p, outcomes, retryable, attempt + 1);
          return outcomes[attempt], attempt + 1, waits;
        }
    }
    // The loop always returns: the fall-through with the remembered error is never reached.
    assert false;
  }

  // ---------------------------------------------------------------- total sleep

  function Sum(waits: seq<nat>): nat {
    if waits == [] then 0 else Sum(waits[..|waits| - 1]) + waits[|waits| - 1]
  }

  lemma WaitBounds(p: RetryPolicy, n: nat, seed: U64)
    requires p.maxWaitMs + p.maxWaitMs / 4 <= TWO_63
    ensures BackoffMs(p, n, seed) <= p.maxWaitMs + p.maxWaitMs / 4
    ensures n <= 10 ==> 4 * BackoffMs(p, n, seed) <= 5 * (p.baseWaitMs * Pow2(n))
  {
    var c := CappedBackoff(p, n);
    JitteredInRange(c, seed);
  }

  lemma {:induction false} SumAtMost(waits: seq<nat>, each: nat)
    requires forall i :: 0 <= i < |waits| ==> waits[i] <= each
    ensures Sum(waits) <= |waits| * each
  {
    if waits != [] {
      var n := |waits| - 1;
      SumAtMost(waits[..n], each);
      assert n * each + each == (n + 1) * each;
    }
  }

  lemma {:induction false} SumDoubling(waits: seq<nat>, base: nat)
    requires forall i :: 0 <= i < |waits| ==> 4 * waits[i] <= 5 * (base * Pow2(i))
    ensures 4 * Sum(waits) <= 5 * (base * (Pow2(|waits|) - 1))
  {
    if waits != [] {
      var n := |waits| - 1;
      SumDoubling(waits[..n], base);
      DoublingStep(base, Pow2(n));
    }
  }

  lemma DoublingStep(base: nat, power: nat)
    ensures base * (power - 1) + base * power == base * (2 * power - 1)
  {
  }

  // With a bounded cap, n waits sleep at most n times five quarters of the cap, and while the doubling lasts at most
  // five quarters of base * (2^n - 1).
  lemma TotalSleepBound(p: RetryPolicy, waits: seq<nat>, seeds: seq<U64>)
    requires p.maxWaitMs + p.maxWaitMs / 4 <= TWO_63
    requires |waits| <= |seeds|
    requires forall i :: 0 <= i < |waits| ==> waits[i] == BackoffMs(p, i, seeds[i])
    ensures Sum(waits) <= |waits| * (p.maxWaitMs + p.maxWaitMs / 4)
    ensures |waits| <= 11 ==> 4 * Sum(waits) <= 5 * (p.baseWaitMs * (Pow2(|waits|) - 1))
  {
    forall i | 0 <= i < |waits|
      ensures waits[i] <= p.maxWaitMs + p.maxWaitMs / 4
      ensures i <= 10 ==> 4 * waits[i] <= 5 * (p.baseWaitMs * Pow2(i))
    {
      WaitBounds(p, i, seeds[i]);
    }
    SumAtMost(waits, p.maxWaitMs + p.maxWaitMs / 4);
    if |waits| <= 11 {
      SumDoubling(waits, p.baseWaitMs);
    }
  }
}
