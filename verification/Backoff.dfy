/**
  The reconnect delay (src/client.rs): a Fibonacci sequence of milliseconds with a cap, an
  early exit, and ten percent of jitter either way.
 */
module Backoff {
  const MAX_MS: nat := 900_000
  const MAX_BACKOFF_ATTEMPTS: nat := 64
  const U32_MAX: nat := 0xFFFF_FFFF

  type U32 = n: nat | n <= U32_MAX

  function Min(a: nat, b: nat): nat {
    if a <= b then a else b
  }

  function NonNegative(x: int): nat {
    if x < 0 then 0 else x
  }

  /** Fib(1) = Fib(2) = 1. */
  function Fib(n: nat): nat {
    if n == 0 then 0 else if n == 1 then 1 else Fib(n - 2) + Fib(n - 1)
  }

  /** The delay the schedule names for an attempt, without jitter. */
  function BaseDelay(attempt: nat): nat {
    Min(1000 * Fib(attempt + 1), MAX_MS)
  }

  /** The schedule: one second twice, then each delay is the sum of the two before it, up to 900 seconds. */
  lemma ScheduleIsFibonacci(n: nat)
    ensures BaseDelay(0) == BaseDelay(1) == 1000
    ensures BaseDelay(n + 2) == Min(BaseDelay(n) + BaseDelay(n + 1), 900_000)
  {
  }

  lemma {:induction false} FibMonotone(m: nat, n: nat)
    requires m <= n
    ensures Fib(m) <= Fib(n)
    decreases n
  {
    if m < n {
      FibMonotone(m, n - 1);
      if n == 2 {
        assert Fib(1) <= Fib(2);
      }
    }
  }

  lemma BaseMonotone(m: nat, n: nat)
    requires m <= n
    ensures BaseDelay(m) <= BaseDelay(n)
  {
    FibMonotone(m + 1, n + 1);
  }

  /** The cap is reached at attempt 15, and not before. */
  lemma CapReached(n: nat)
    ensures BaseDelay(n) == MAX_MS <==> n >= 15
  {
    assert Fib(4) == 3 && Fib(5) == 5;
    assert Fib(8) == 21 && Fib(9) == 34;
    assert Fib(12) == 144 && Fib(13) == 233;
    assert Fib(16) == 987 && Fib(15) == 610;
    if n >= 15 {
      FibMonotone(16, n + 1);
    } else {
      FibMonotone(n + 1, 15);
    }
  }

  method FibonacciBackoff(attempt: U32, draw: nat) returns (ms: nat)
    requires draw <= 2 * (BaseDelay(attempt) / 10)
    ensures BaseDelay(attempt) - BaseDelay(attempt) / 10 <= ms <= BaseDelay(attempt) + BaseDelay(attempt) / 10
    ensures ms == BaseDelay(attempt) - BaseDelay(attempt) / 10 + draw
  {
    var a, b := 1000, 1000;
    var i := 0;
    while i < attempt
      invariant i <= attempt
      invariant a == Min(1000 * Fib(i + 1), MAX_MS) && b == Min(1000 * Fib(i + 2), MAX_MS)
    {
      if a >= MAX_MS {
        break;
      }
      var next := Min(a + b, MAX_MS);
      a := b;
      b := next;
      i := i + 1;
    }
    BaseMonotone(i, attempt);
    var base := Min(a, MAX_MS);
    var jitterRange := base / 10;
    var jitter: int := if jitterRange > 0 then draw - jitterRange else 0;
    ms := NonNegative(base + jitter);
  }

  function NextBackoffAttempt(previous: U32): U32 {
    Min(if previous == U32_MAX then U32_MAX else previous + 1, MAX_BACKOFF_ATTEMPTS)
  }

  /** The failure counter after `n` consecutive failures, starting from zero. */
  function CountAfter(n: nat): U32 {
    if n == 0 then 0 else NextBackoffAttempt(CountAfter(n - 1))
  }

  /** Saturating the counter never changes a delay. */
  lemma {:induction false} SaturationInvisible(n: nat)
    ensures CountAfter(n) == Min(n, 64)
    ensures BaseDelay(CountAfter(n)) == BaseDelay(n)
  {
    if n > 0 {
      SaturationInvisible(n - 1);
    }
    if n > MAX_BACKOFF_ATTEMPTS {
      CapReached(n);
      CapReached(MAX_BACKOFF_ATTEMPTS);
    }
  }
}
