/**
 What the composed retry loop makes of each way an attempt can end, said in the attempts' own values
 (backend/job_queue/redis_arq.py, `_call_reliably`).
 */
module FailureCounting {
  import opened Text
  import opened Breaker
  import opened ReliableCalls
  import Retry

  /** The breaker is closed, waits for a probe, or has been open for the reset timeout. */
  predicate LetsIn(cfg: Config, b: Fields, at: real)
  {
    || b.state == Closed
    || (b.state == HalfOpen && !b.probeInFlight)
    || (b.state == Open && b.openedAt.Some? && at - b.openedAt.value >= cfg.resetTimeout)
  }

  /** The reply to one request. */
  function ReplyTo<T, E>(cfg: Config, p: Retry.Policy, b: Fields, script: int -> Attempt<T, E>): Reply<T, E>
  {
    var (_, last, stop) := Tried(cfg, p, b, script, 1);
    ReplyOf(Retry.VerdictOf(last, stop))
  }

  /** What the caller is told if the attempt is the last one. */
  function ToldBy<T, E>(cfg: Config, b: Fields, a: Attempt<T, E>): Reply<T, E>
  {
    if !LetsIn(cfg, b, a.enteredAt) then Unavailable else
      match a.outcome
      case Returned(v) => Done(v)
      case Raised(Transient, _) => Unavailable
      case Raised(kind, e) => Escaped(kind, e)
  }

  /** The attempt is let in and fails for a passing reason. */
  predicate IsRetried<T, E>(cfg: Config, b: Fields, a: Attempt<T, E>)
  {
    LetsIn(cfg, b, a.enteredAt) && a.outcome.Raised? && a.outcome.kind == Retry.Transient
  }

  lemma LastAttempt<T, E>(cfg: Config, b: Fields, a: Attempt<T, E>, n: int)
    ensures ReplyOf(Retry.VerdictOf(Seen(cfg, b, a), n)) == ToldBy(cfg, b, a)
    ensures Seen(cfg, b, a).IsTransient() <==> IsRetried(cfg, b, a)
  {
  }

  /** Attempt `i` of a script is let in and fails for a passing reason. */
  predicate RetriedAt<T, E>(cfg: Config, b: Fields, script: int -> Attempt<T, E>, i: int)
  {
    IsRetried(cfg, FieldsAfter(cfg, b, script, i - 1), script(i))
  }

  lemma SeenIsRetried<T, E>(cfg: Config, b: Fields, script: int -> Attempt<T, E>, i: int)
    ensures SeenAt(cfg, b, script, i).IsTransient() <==> RetriedAt(cfg, b, script, i)
  {
    LastAttempt(cfg, FieldsAfter(cfg, b, script, i - 1), script(i), i);
  }

  /** The first attempt that is refused or does not fail for a passing reason, or the last one permitted. */
  ghost predicate EndsWith<T, E>(cfg: Config, p: Retry.Policy, b: Fields, script: int -> Attempt<T, E>, stop: int)
  {
    && 1 <= stop <= p.maxAttempts
    && (forall i :: 1 <= i < stop ==> RetriedAt(cfg, b, script, i))
    && (stop < p.maxAttempts ==> !RetriedAt(cfg, b, script, stop))
  }

  lemma StopIsTheEnd<T, E>(cfg: Config, p: Retry.Policy, b: Fields, script: int -> Attempt<T, E>, stop: int)
    requires 1 <= stop <= p.maxAttempts && forall i :: 1 <= i < stop ==> SeenAt(cfg, b, script, i).IsTransient()
    requires stop < p.maxAttempts ==> !SeenAt(cfg, b, script, stop).IsTransient()
    ensures EndsWith(cfg, p, b, script, stop)
  {
    forall i | 1 <= i <= stop ensures RetriedAt(cfg, b, script, i) <==> SeenAt(cfg, b, script, i).IsTransient() {
      SeenIsRetried(cfg, b, script, i);
    }
  }

  /**
   How a request ends: with the first attempt that is refused or does not fail for a passing reason, or with the last
   one permitted; and the reply is read off that attempt.
   */
  lemma {:induction false} ReplyIsReadOffTheLast<T,
      E>(cfg: Config, p: Retry.Policy, b: Fields, script: int -> Attempt<T, E>, stop: int)
    requires p.Valid() && stop == Tried(cfg, p, b, script, 1).2
    ensures EndsWith(cfg, p, b, script, stop)
    ensures ReplyTo(cfg, p, b, script) == ToldBy(cfg, FieldsAfter(cfg, b, script, stop - 1), script(stop))
  {
    TriedIsRetried(cfg, p, b, script, 1);
    StopIsTheEnd(cfg, p, b, script, stop);
    LastAttempt(cfg, FieldsAfter(cfg, b, script, stop - 1), script(stop), stop);
  }

  /** A failure while closed and still below the threshold. */
  predicate StaysClosed(cfg: Config, b: Fields)
  {
    b.state == Closed && b.consecutiveFailures + 1 < cfg.failureThreshold
  }

  /**
   What each attempt of a script leaves behind. One that is refused changes nothing. A value makes the breaker as new, a
   passing or final error is one failure, which opens it at the threshold or from a probe, and an exception outside
   `Exception` records nothing.
   */
  lemma EveryAttemptIsRecorded<T, E>(cfg: Config, b: Fields, script: int -> Attempt<T, E>, n: int)
    requires n >= 1
    ensures var before, after := FieldsAfter(cfg, b, script, n - 1), FieldsAfter(cfg, b, script, n);
            if !LetsIn(cfg, before, script(n).enteredAt) then after == before else
              match script(n).outcome
              case Returned(_) => after == Fields(Closed, 0, None, false)
              case Raised(Fatal, _) =>
                after == if before.state == Closed then before
                         else Fields(HalfOpen, before.consecutiveFailures, before.openedAt, true)
              case Raised(_, _) =>
                after == if StaysClosed(cfg, before)
                         then Fields(Closed, before.consecutiveFailures + 1, before.openedAt, false)
                         else Fields(Open, before.consecutiveFailures + 1, Some(script(n).endedAt), false)
  {
    OneAttempt(cfg, FieldsAfter(cfg, b, script, n - 1), script(n));
  }

  lemma OneAttempt<T, E>(cfg: Config, b: Fields, a: Attempt<T, E>)
    ensures if !LetsIn(cfg, b, a.enteredAt) then AfterAttempt(cfg, b, a) == b else
              match a.outcome
              case Returned(_) => AfterAttempt(cfg, b, a) == Fields(Closed, 0, None, false)
              case Raised(Fatal, _) =>
                AfterAttempt(cfg, b, a) ==
                  if b.state == Closed then b else Fields(HalfOpen, b.consecutiveFailures, b.openedAt, true)
              case Raised(_, _) =>
                AfterAttempt(cfg, b, a) ==
                  if StaysClosed(cfg, b) then Fields(Closed, b.consecutiveFailures + 1, b.openedAt, false)
                  else Fields(Open, b.consecutiveFailures + 1, Some(a.endedAt), false)
  {
  }

  /**
   One attempt that is let in. A value makes the breaker as new; an error the loop does not retry is one failure; and an
   exception outside `Exception` records nothing, so that a probe it ends stays marked as running.
   */
  lemma OneAttemptIsRecorded<T, E>(cfg: Config, p: Retry.Policy, b: Fields, script: int -> Attempt<T, E>)
    requires p.Valid() && LetsIn(cfg, b, script(1).enteredAt)
    ensures var (after, _, stop) := Tried(cfg, p, b, script, 1);
            var reply := ReplyTo(cfg, p, b, script);
            match script(1).outcome
            case Returned(v) => after == Fields(Closed, 0, None, false) && stop == 1 && reply == Done(v)
            case Raised(NonRetryable, e) =>
              && stop == 1 && reply == Escaped(Retry.NonRetryable, e)
              && after.consecutiveFailures == b.consecutiveFailures + 1 && !after.probeInFlight
              && (StaysClosed(cfg, b) ==> after.state == Closed && after.openedAt == b.openedAt)
              && (!StaysClosed(cfg, b) ==> after.state == Open && after.openedAt == Some(script(1).endedAt))
            case Raised(Fatal, e) =>
              && stop == 1 && reply == Escaped(Retry.Fatal, e)
              && after == if b.state == Closed then b else Fields(HalfOpen, b.consecutiveFailures, b.openedAt, true)
            case Raised(Transient, _) => true
  {
  }

  // -------------------------------------------------- a dependency that is down

  /** Attempts `n` to `last` all fail for a passing reason. */
  ghost predicate AllTransient<T, E>(script: int -> Attempt<T, E>, n: int, last: int)
  {
    forall i :: n <= i <= last ==> script(i).outcome.Raised? && script(i).outcome.kind == Retry.Transient
  }

  /** Attempt `i + 1` comes a whole reset timeout after attempt `i` has ended. */
  predicate Waits<T, E>(cfg: Config, script: int -> Attempt<T, E>, i: int)
  {
    script(i + 1).enteredAt - script(i).endedAt >= cfg.resetTimeout
  }

  /** From attempt `trip` on, at which the breaker opens, `m` is the last one that reaches the dependency. */
  ghost predicate LastToReach<T, E>(cfg: Config, p: Retry.Policy, script: int -> Attempt<T, E>, trip: int, m: int)
  {
    && trip <= m <= p.maxAttempts
    && (forall i :: trip <= i < m ==> Waits(cfg, script, i))
    && (m < p.maxAttempts ==> !Waits(cfg, script, m))
  }

  /** An open breaker, after attempt `n - 1` failed: each attempt comes too early, or is one more failed probe. */
  lemma {:induction false} OpenStaysOpen<T,
      E>(cfg: Config, p: Retry.Policy, b: Fields, script: int -> Attempt<T, E>, n: int) returns (m: int)
    requires cfg.Valid() && 2 <= n <= p.maxAttempts && AllTransient(script, n, p.maxAttempts)
    requires b == Fields(Open, b.consecutiveFailures, Some(script(n - 1).endedAt), false)
    ensures LastToReach(cfg, p, script, n - 1, m)
    ensures var (after, last, stop) := Tried(cfg, p, b, script, n);
            && after == Fields(Open, b.consecutiveFailures + m - n + 1, Some(script(m).endedAt), false)
            && stop == (if m < p.maxAttempts then m + 1 else m)
            && ReplyOf(Retry.VerdictOf(last, stop)) == Unavailable
    decreases p.maxAttempts - n
  {
    if !Waits(cfg, script, n - 1) {
      m := n - 1;
    } else if n < p.maxAttempts {
      m := OpenStaysOpen(cfg, p, AfterAttempt(cfg, b, script(n)), script, n + 1);
    } else {
      m := n;
    }
  }

  /** A closed breaker from attempt `n` on, which would be tripped by attempt `trip`. */
  lemma {:induction false} ClosedCountsUp<T,
      E>(cfg: Config, p: Retry.Policy, b: Fields, script: int -> Attempt<T, E>, n: int) returns (m: int)
    requires cfg.Valid() && 1 <= n <= p.maxAttempts && AllTransient(script, n, p.maxAttempts)
    requires b.state == Closed && b.consecutiveFailures < cfg.failureThreshold
    ensures var trip := n - 1 + cfg.failureThreshold - b.consecutiveFailures;
            var (after, last, stop) := Tried(cfg, p, b, script, n);
            && ReplyOf(Retry.VerdictOf(last, stop)) == Unavailable
            && (p.maxAttempts < trip ==>
                  && stop == p.maxAttempts
                  && after == Fields(Closed, b.consecutiveFailures + p.maxAttempts - n + 1, b.openedAt, false))
            && (p.maxAttempts >= trip ==>
                  && LastToReach(cfg, p, script, trip, m)
                  && stop == (if m < p.maxAttempts then m + 1 else m)
                  && after == Fields(Open, b.consecutiveFailures + m - n + 1, Some(script(m).endedAt), false))
    decreases p.maxAttempts - n
  {
    m := n;
    var next := AfterAttempt(cfg, b, script(n));
    if n < p.maxAttempts {
      if StaysClosed(cfg, b) {
        m := ClosedCountsUp(cfg, p, next, script, n + 1);
      } else {
        m := OpenStaysOpen(cfg, p, next, script, n + 1);
      }
    }
  }

  /**
   A closed breaker with `c` failures behind it meets a dependency that is down. Each attempt is one more failure; if
   they stay below the threshold the breaker stays closed, and otherwise attempt threshold - c opens it, the next one is
   refused unless it comes a reset timeout later, and the breaker is left open since the end of the last attempt that
   reached the dependency. The caller is told `Unavailable` either way.
   */
  lemma TransientFailuresAreCounted<T, E>(cfg: Config, p: Retry.Policy, b: Fields, script: int -> Attempt<T, E>)
      returns (m: int)
    requires cfg.Valid() && p.Valid() && AllTransient(script, 1, p.maxAttempts)
    requires b.state == Closed && b.consecutiveFailures < cfg.failureThreshold
    ensures var c, trip := b.consecutiveFailures, cfg.failureThreshold - b.consecutiveFailures;
            var (after, _, stop) := Tried(cfg, p, b, script, 1);
            && ReplyTo(cfg, p, b, script) == Unavailable
            && (c + p.maxAttempts < cfg.failureThreshold ==>
                  stop == p.maxAttempts && after == Fields(Closed, c + p.maxAttempts, b.openedAt, false))
            && (c + p.maxAttempts >= cfg.failureThreshold ==>
                  && LastToReach(cfg, p, script, trip, m)
                  && stop == (if m < p.maxAttempts then m + 1 else m)
                  && after == Fields(Open, c + m, Some(script(m).endedAt), false))
            && (c + p.maxAttempts > cfg.failureThreshold &&
                script(trip + 1).enteredAt - script(trip).endedAt < cfg.resetTimeout ==>
                  && stop == trip + 1
                  && after == Fields(Open, cfg.failureThreshold, Some(script(trip).endedAt), false))
  {
    m := ClosedCountsUp(cfg, p, b, script, 1);
    var trip := cfg.failureThreshold - b.consecutiveFailures;
    assert script(trip + 1).enteredAt - script(trip).endedAt < cfg.resetTimeout ==> !Waits(cfg, script, trip);
  }
}
