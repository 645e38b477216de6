/** Retry with exponential backoff and jitter (backend/reliability/retry.py). */
module Retry {

  /** How an exception is treated: retried, propagated at once, or outside `Exception` altogether. */
  datatype Kind = Transient | NonRetryable | Fatal

  /** What one call of the wrapped function ended with. */
  datatype Outcome<+T, +E> = Returned(value: T) | Raised(kind: Kind, error: E)
  {
    predicate IsTransient() {
      Raised? && kind == Transient
    }
  }

  datatype Policy = Policy(maxAttempts: int, baseDelay: real, maxDelay: real, jitter: bool)
  {
    /** What construction of a policy checks. */
    predicate Valid() {
      maxAttempts >= 1 && baseDelay >= 0.0 && maxDelay >= baseDelay
    }
  }

  /** The result of a retried call. */
  datatype Verdict<+T, +E> = Success(value: T) | Propagated(kind: Kind, error: E) | Exhausted(attempts: int, last: E)

  function Pow2(n: nat): (r: int)
    ensures r >= 1
  {
    if n == 0 then 1 else 2 * Pow2(n - 1)
  }

  /** `x` times two to the power `n`. */
  function Doubled(x: real, n: nat): (r: real)
    ensures x >= 0.0 ==> r >= x
  {
    if n == 0 then x else 2.0 * Doubled(x, n - 1)
  }

  lemma {:induction false} DoubledIsPowerOfTwo(x: real, n: nat)
    ensures Doubled(x, n) == x * Pow2(n) as real
  {
    if n > 0 {
      DoubledIsPowerOfTwo(x, n - 1);
      assert Pow2(n) as real == 2.0 * Pow2(n - 1) as real;
      TwiceProduct(x, Pow2(n - 1) as real);
    }
  }

  lemma TwiceProduct(x: real, y: real)
    ensures 2.0 * (x * y) == x * (2.0 * y)
  {
  }

  /** Delay before `attempt` (counted from 1), without jitter. */
  function DelayForAttempt(p: Policy, attempt: int): (r: real)
    requires p.Valid()
    ensures 0.0 <= r <= p.maxDelay
    ensures attempt <= 1 ==> r == 0.0
    ensures attempt > 1 ==> r <= Doubled(p.baseDelay, attempt - 2)
  {
    if attempt <= 1 then 0.0 else
      var exponential := Doubled(p.baseDelay, attempt - 2);
      if exponential <= p.maxDelay then exponential else p.maxDelay
  }

  /** The delay is the base times a power of two, capped. */
  lemma {:induction false} DelayIsCappedExponential(p: Policy, attempt: int)
    requires p.Valid() && attempt >= 2
    ensures var exponential := p.baseDelay * Pow2(attempt - 2) as real;
            DelayForAttempt(p, attempt) == if exponential <= p.maxDelay then exponential else p.maxDelay
  {
    CappedDelay(p, attempt);
    DoubledIsPowerOfTwo(p.baseDelay, attempt - 2);
  }

  lemma CappedDelay(p: Policy, attempt: int)
    requires p.Valid() && attempt >= 2
    ensures var exponential := Doubled(p.baseDelay, attempt - 2);
            DelayForAttempt(p, attempt) == if exponential <= p.maxDelay then exponential else p.maxDelay
  {
  }

  /** Backoff never shrinks from one attempt to the next. */
  lemma {:induction false} BackoffGrows(p: Policy, attempt: int)
    requires p.Valid() && attempt >= 2
    ensures DelayForAttempt(p, attempt) <= DelayForAttempt(p, attempt + 1)
  {
    assert Doubled(p.baseDelay, attempt - 1) == 2.0 * Doubled(p.baseDelay, attempt - 2);
  }

  /** A delay scaled by the jitter draw, if jitter is on. */
  function Jittered(jitter: bool, delay: real, draw: real): real
  {
    if jitter then delay * draw else delay
  }

  /** The pause actually taken before `attempt`. */
  function Pause(p: Policy, rand: int -> real, attempt: int): real
    requires p.Valid()
  {
    Jittered(p.jitter, DelayForAttempt(p, attempt), rand(attempt))
  }

  /** Pauses before attempts 2 to `n`, leaving out the empty ones. */
  function Pauses(p: Policy, rand: int -> real, n: int): seq<real>
    requires p.Valid()
    decreases n
  {
    if n <= 1 then []
    else if Pause(p, rand, n) > 0.0 then Pauses(p, rand, n - 1) + [Pause(p, rand, n)]
    else Pauses(p, rand, n - 1)
  }

  /** The attempt the loop ends with: the first that is not a transient failure, or the last permitted one. */
  ghost predicate StopsAt<T, E>(p: Policy, script: int -> Outcome<T, E>, n: int)
  {
    && 1 <= n <= p.maxAttempts
    && (forall i :: 1 <= i < n ==> script(i).IsTransient())
    && (n == p.maxAttempts || !script(n).IsTransient())
  }

  function VerdictOf<T, E>(outcome: Outcome<T, E>, attempts: int): Verdict<T, E>
  {
    match outcome
    case Returned(v) => Success(v)
    case Raised(Transient, e) => Exhausted(attempts, e)
    case Raised(kind, e) => Propagated(kind, e)
  }

  /**
   The attempt loop. `script(i)` is how the i-th call of the function ends and `rand(i)` the jitter drawn before it.
   */
  method CallWithRetry<T, E>(p: Policy, script: int -> Outcome<T, E>, rand: int -> real)
    returns (verdict: Verdict<T, E>, calls: int, slept: seq<real>)
    requires p.Valid()
    ensures StopsAt(p, script, calls)
    ensures script(calls).Returned? ==> verdict == Success(script(calls).value)
    ensures script(calls).Raised? ==>
              verdict == if script(calls).kind == Transient then Exhausted(calls, script(calls).error)
                         else Propagated(script(calls).kind, script(calls).error)
    ensures slept == Pauses(p, rand, calls)
  {
    slept := [];
    calls := 0;
    while true
      invariant 0 <= calls < p.maxAttempts
      invariant forall i :: 1 <= i <= calls ==> script(i).IsTransient()
      invariant slept == Pauses(p, rand, calls)
      decreases p.maxAttempts - calls
    {
      var attempt := calls + 1;
      if attempt > 1 {
        var delay := DelayForAttempt(p, attempt);
        if p.jitter {
          delay := delay * rand(attempt);
        }
        assert delay == Pause(p, rand, attempt);
        if delay > 0.0 {
          slept := slept + [delay];
        }
      }
      assert slept == Pauses(p, rand, attempt);
      calls := attempt;
      match script(attempt) {
        case Returned(v) => return Success(v), calls, slept;
        case Raised(Transient, e) =>
          if attempt >= p.maxAttempts {
            return Exhausted(attempt, e), calls, slept;
          }
        case Raised(kind, e) => return Propagated(kind, e), calls, slept;
      }
    }
  }

  /** The stopping attempt is determined by the outcomes alone; jitter cannot change how many calls are made. */
  lemma StoppingAttemptIsUnique<T, E>(p: Policy, script: int -> Outcome<T, E>, m: int, n: int)
    requires StopsAt(p, script, m) && StopsAt(p, script, n)
    ensures m == n
  {
    assert m < n ==> script(m).IsTransient();
    assert n < m ==> script(n).IsTransient();
  }

  function Sum(xs: seq<real>): real
  {
    if xs == [] then 0.0 else Sum(xs[..|xs| - 1]) + xs[|xs| - 1]
  }

  ghost predicate UnitRange(rand: int -> real)
  {
    forall i :: 0.0 <= rand(i) < 1.0
  }

  lemma JitterOnlyShrinks(jitter: bool, delay: real, draw: real)
    requires delay >= 0.0 && 0.0 <= draw < 1.0
    ensures 0.0 <= Jittered(jitter, delay, draw) <= delay
  {
    if jitter {
      Scaled(delay, draw);
    }
  }

  lemma Scaled(x: real, part: real)
    requires x >= 0.0 && 0.0 <= part < 1.0
    ensures 0.0 <= x * part <= x
  {
  }

  lemma PauseIsBounded(p: Policy, rand: int -> real, attempt: int)
    requires p.Valid() && attempt >= 2 && UnitRange(rand)
    ensures 0.0 <= Pause(p, rand, attempt) <= DelayForAttempt(p, attempt)
  {
    var d, r := DelayForAttempt(p, attempt), rand(attempt);
    assert 0.0 <= r < 1.0;
    JitterOnlyShrinks(p.jitter, d, r);
  }

  lemma SumSnoc(xs: seq<real>, x: real)
    ensures Sum(xs + [x]) == Sum(xs) + x
  {
    assert (xs + [x])[..|xs|] == xs;
  }

  /** `x` added up `n` times. */
  function Times(n: nat, x: real): real
  {
    if n == 0 then 0.0 else Times(n - 1, x) + x
  }

  lemma {:induction false} TimesIsProduct(n: nat, x: real)
    ensures Times(n, x) == n as real * x
  {
    if n > 0 {
      TimesIsProduct(n - 1, x);
      NextMultiple(n - 1, x);
    }
  }

  lemma NextMultiple(n: nat, x: real)
    ensures (n + 1) as real * x == n as real * x + x
  {
  }

  /** All pauses before attempts 2 to `n` added up. */
  function TotalPause(p: Policy, rand: int -> real, n: int): real
    requires p.Valid()
    decreases n
  {
    if n <= 1 then 0.0 else TotalPause(p, rand, n - 1) + Pause(p, rand, n)
  }

  /** Leaving out empty sleeps loses nothing: the loop sleeps every pause, once. */
  lemma {:induction false} EveryPauseIsSlept(p: Policy, rand: int -> real, n: int)
    requires p.Valid() && UnitRange(rand)
    ensures Sum(Pauses(p, rand, n)) == TotalPause(p, rand, n)
    decreases n
  {
    if n > 1 {
      EveryPauseIsSlept(p, rand, n - 1);
      PauseIsBounded(p, rand, n);
      SumSnoc(Pauses(p, rand, n - 1), Pause(p, rand, n));
    }
  }

  /**
   Total sleep over `n` attempts, whatever the jitter: at most (n-1) max, and at most base 2^(n-1) - base
   (`TimesIsProduct` and `DoubledIsPowerOfTwo` give the two bounds in closed form).
   */
  lemma {:induction false} TotalSleepIsBounded(p: Policy, rand: int -> real, n: int)
    requires p.Valid() && n >= 1 && UnitRange(rand)
    ensures 0.0 <= Sum(Pauses(p, rand, n)) <= Times(n - 1, p.maxDelay)
    ensures Sum(Pauses(p, rand, n)) <= Doubled(p.baseDelay, n - 1) - p.baseDelay
    decreases n
  {
    if n > 1 {
      TotalSleepIsBounded(p, rand, n - 1);
      PauseIsBounded(p, rand, n);
      var before, pause := Pauses(p, rand, n - 1), Pause(p, rand, n);
      SumSnoc(before, pause);
      assert pause <= p.maxDelay && pause <= Doubled(p.baseDelay, n - 2);
    }
  }

  /** Every pause up to attempt `n` is long enough to be slept. */
  ghost predicate NoneEmpty(p: Policy, rand: int -> real, n: int)
    requires p.Valid()
  {
    forall i :: 2 <= i <= n ==> Pause(p, rand, i) > 0.0
  }

  lemma NextPause(p: Policy, rand: int -> real, n: int)
    requires p.Valid() && n >= 2 && Pause(p, rand, n) > 0.0
    ensures Pauses(p, rand, n) == Pauses(p, rand, n - 1) + [Pause(p, rand, n)]
  {
  }

  lemma {:induction false} SleepAt(p: Policy, rand: int -> real, n: int, k: int)
    requires p.Valid() && n >= 1 && NoneEmpty(p, rand, n)
    ensures |Pauses(p, rand, n)| == n - 1
    ensures 0 <= k < n - 1 ==> Pauses(p, rand, n)[k] == Pause(p, rand, k + 2)
    decreases n
  {
    if n > 1 {
      assert Pause(p, rand, n) > 0.0;
      NextPause(p, rand, n);
      SleepAt(p, rand, n - 1, k);
    }
  }

  lemma ProductIsPositive(x: real, y: real)
    requires x > 0.0 && y > 0.0
    ensures x * y > 0.0
  {
  }

  lemma PausesAreLong(p: Policy, rand: int -> real, n: int)
    requires p.Valid() && p.baseDelay > 0.0 && (p.jitter ==> forall i :: rand(i) > 0.0)
    ensures NoneEmpty(p, rand, n)
  {
    forall i | 2 <= i <= n ensures Pause(p, rand, i) > 0.0 {
      PauseIsLong(p, rand, i);
    }
  }

  lemma PauseIsLong(p: Policy, rand: int -> real, i: int)
    requires p.Valid() && p.baseDelay > 0.0 && i >= 2 && (p.jitter ==> rand(i) > 0.0)
    ensures Pause(p, rand, i) > 0.0
  {
    var delay := DelayForAttempt(p, i);
    assert delay > 0.0;
    if p.jitter {
      ProductIsPositive(delay, rand(i));
    }
  }

  /**
   What the loop sleeps without jitter: the base delay before the second attempt, and before each later one twice what
   it slept before, up to the maximum.
   */
  lemma SleepsDouble(p: Policy, rand: int -> real, n: int, k: int)
    requires p.Valid() && p.baseDelay > 0.0 && !p.jitter && 0 <= k < n - 1
    ensures var slept := Pauses(p, rand, n);
            && |slept| == n - 1
            && slept[k] == if k == 0 then p.baseDelay
                           else if 2.0 * slept[k - 1] <= p.maxDelay then 2.0 * slept[k - 1] else p.maxDelay
  {
    PausesAreLong(p, rand, n);
    SleepAt(p, rand, n, k);
    SleepAt(p, rand, n, k - 1);
    if k > 0 {
      assert Doubled(p.baseDelay, k) == 2.0 * Doubled(p.baseDelay, k - 1);
    }
  }

  /** `x` is `y` times `draw`. */
  predicate IsScaled(x: real, y: real, draw: real)
  {
    x == y * draw
  }

  /** With jitter every sleep is the sleep without it times the number drawn before that attempt. */
  lemma JitterScalesEachSleep(p: Policy, q: Policy, rand: int -> real, n: int, k: int)
    requires p.Valid() && p.baseDelay > 0.0 && p.jitter && 0 <= k < n - 1 && forall i :: rand(i) > 0.0
    requires q == p.(jitter := false)
    ensures var slept, plain := Pauses(p, rand, n), Pauses(q, rand, n);
            |slept| == |plain| == n - 1 && IsScaled(slept[k], plain[k], rand(k + 2))
  {
    PausesAreLong(p, rand, n);
    PausesAreLong(q, rand, n);
    SleepAt(p, rand, n, k);
    SleepAt(q, rand, n, k);
    PauseIsScaled(p, q, rand, k + 2, Pauses(p, rand, n)[k], Pauses(q, rand, n)[k], rand(k + 2));
  }

  lemma PauseIsScaled(p: Policy, q: Policy, rand: int -> real, i: int, slept: real, plain: real, draw: real)
    requires p.Valid() && p.jitter && q == p.(jitter := false)
    requires slept == Pause(p, rand, i) && plain == Pause(q, rand, i) && draw == rand(i)
    ensures IsScaled(slept, plain, draw)
  {
    assert DelayForAttempt(p, i) == DelayForAttempt(q, i);
  }
}
