/** Retry around circuit breaker, as the job queue composes them (backend/job_queue/redis_arq.py, `_call_reliably`). */
module ReliableCalls {
  import opened Text
  import Retry
  import opened Breaker
  import H = BreakerHistory

  /** Why an attempt failed: refused by the breaker, or an error of the call itself. */
  datatype Trouble<+E> = CircuitIsOpen | Failure(error: E)

  /** One attempt: when it reaches the breaker, and, if let through, how and when the call ends. */
  datatype Attempt<+T, +E> = Attempt(enteredAt: real, endedAt: real, outcome: Retry.Outcome<T, E>)

  /** What the caller of `_call_reliably` gets. */
  datatype Reply<+T, +E> = Done(value: T) | Unavailable | Escaped(kind: Retry.Kind, error: E)

  function EndingOf<T, E>(outcome: Retry.Outcome<T, E>): Ending
  {
    match outcome
    case Returned(_) => Return
    case Raised(Fatal, _) => Abandoned
    case Raised(_, _) => Raise
  }

  function AfterAttempt<T, E>(cfg: Config, b: Fields, a: Attempt<T, E>): Fields
  {
    AfterCall(cfg, b, a.enteredAt, EndingOf(a.outcome), a.endedAt)
  }

  /** What the retry loop sees of an attempt: a refusal counts as a non-retryable error. */
  function Seen<T, E>(cfg: Config, b: Fields, a: Attempt<T, E>): Retry.Outcome<T, Trouble<E>>
  {
    if !Admits(cfg, b, a.enteredAt) then Retry.Raised(Retry.NonRetryable, CircuitIsOpen) else
      match a.outcome
      case Returned(v) => Retry.Returned(v)
      case Raised(kind, e) => Retry.Raised(kind, Failure(e))
  }

  /** Exhausted retries and an open breaker read the same from outside. */
  function ReplyOf<T, E>(verdict: Retry.Verdict<T, Trouble<E>>): Reply<T, E>
  {
    match verdict
    case Success(v) => Done(v)
    case Propagated(_, CircuitIsOpen) => Unavailable
    case Propagated(kind, Failure(e)) => Escaped(kind, e)
    case Exhausted(_, _) => Unavailable
  }

  /** The breaker after the first `n` attempts of a script. */
  function FieldsAfter<T, E>(cfg: Config, b: Fields, script: int -> Attempt<T, E>, n: int): Fields
    decreases n
  {
    if n <= 0 then b else AfterAttempt(cfg, FieldsAfter(cfg, b, script, n - 1), script(n))
  }

  /** What the retry loop sees of the `n`-th attempt. */
  function SeenAt<T, E>(cfg: Config, b: Fields, script: int -> Attempt<T, E>, n: int): Retry.Outcome<T, Trouble<E>>
  {
    Seen(cfg, FieldsAfter(cfg, b, script, n - 1), script(n))
  }

  /** Attempts `n` and on: the breaker after them, what the last of them looked like, and which it was. */
  function Tried<T, E>(cfg: Config, p: Retry.Policy, b: Fields, script: int -> Attempt<T, E>, n: int)
    : (Fields, Retry.Outcome<T, Trouble<E>>, int)
    decreases p.maxAttempts - n
  {
    var seen, after := Seen(cfg, b, script(n)), AfterAttempt(cfg, b, script(n));
    if seen.IsTransient() && n < p.maxAttempts then Tried(cfg, p, after, script, n + 1) else (after, seen, n)
  }

  /** The attempt loop with the breaker's call inside it. */
  method CallReliably<T, E>(breaker: CircuitBreaker, p: Retry.Policy, script: int -> Attempt<T, E>)
    returns (reply: Reply<T, E>, attempts: int)
    requires p.Valid()
    modifies breaker
    ensures var (after, last, stop) := Tried(breaker.config, p, old(breaker.Now()), script, 1);
            breaker.Now() == after && attempts == stop && reply == ReplyOf(Retry.VerdictOf(last, stop))
  {
    ghost var tried := Tried(breaker.config, p, breaker.Now(), script, 1);
    attempts := 0;
    while true
      invariant 0 <= attempts < p.maxAttempts
      invariant tried == Tried(breaker.config, p, breaker.Now(), script, attempts + 1)
      decreases p.maxAttempts - attempts
    {
      attempts := attempts + 1;
      var a := script(attempts);
      var admitted := breaker.Call(a.enteredAt, EndingOf(a.outcome), a.endedAt);
      if !admitted {
        return Unavailable, attempts;
      }
      match a.outcome {
        case Returned(v) => return Done(v), attempts;
        case Raised(Transient, _) =>
          if attempts >= p.maxAttempts {
            return Unavailable, attempts;
          }
        case Raised(kind, e) => return Escaped(kind, e), attempts;
      }
    }
  }

  lemma LaterStop<T, E>(p: Retry.Policy, outcomes: int -> Retry.Outcome<T, E>, n: int)
    requires 1 <= n <= p.maxAttempts && forall i :: 1 <= i < n ==> outcomes(i).IsTransient()
    ensures n == p.maxAttempts || !outcomes(n).IsTransient() ==> Retry.StopsAt(p, outcomes, n)
    ensures outcomes(n).IsTransient() ==> forall i :: 1 <= i < n + 1 ==> outcomes(i).IsTransient()
  {
  }

  /** That is `call_with_retry` with the breaker's call as its function, seen through `SeenAt`. */
  lemma {:induction false} TriedIsRetried<T,
      E>(cfg: Config, p: Retry.Policy, b: Fields, script: int -> Attempt<T, E>, n: int)
    requires p.Valid() && 1 <= n <= p.maxAttempts
    requires forall i :: 1 <= i < n ==> SeenAt(cfg, b, script, i).IsTransient()
    ensures var (after, last, stop) := Tried(cfg, p, FieldsAfter(cfg, b, script, n - 1), script, n);
            && Retry.StopsAt(p, i => SeenAt(cfg, b, script, i), stop)
            && last == SeenAt(cfg, b, script, stop)
            && after == FieldsAfter(cfg, b, script, stop)
            && n <= stop <= p.maxAttempts && forall i :: 1 <= i < stop ==> SeenAt(cfg, b, script, i).IsTransient()
    decreases p.maxAttempts - n
  {
    LaterStop(p, i => SeenAt(cfg, b, script, i), n);
    if SeenAt(cfg, b, script, n).IsTransient() && n < p.maxAttempts {
      TriedIsRetried(cfg, p, b, script, n + 1);
    }
  }

  /** While the breaker refuses, a caller makes one attempt, never reaches the dependency, and changes nothing. */
  lemma {:induction false} OpenBreakerFailsFast<T,
      E>(cfg: Config, p: Retry.Policy, b: Fields, script: int -> Attempt<T, E>, n: int)
    requires p.Valid() && !Admits(cfg, b, script(1).enteredAt)
    requires Retry.StopsAt(p, i => SeenAt(cfg, b, script, i), n)
    ensures n == 1 && ReplyOf(Retry.VerdictOf(SeenAt(cfg, b, script, n), n)) == Unavailable
    ensures FieldsAfter(cfg, b, script, n) == Entered(cfg, b, script(1).enteredAt) ==
            Expired(cfg, b, script(1).enteredAt)
  {
    var seen := i => SeenAt(cfg, b, script, i);
    assert !seen(1).IsTransient();
    Retry.StoppingAttemptIsUnique(p, seen, 1, n);
    assert FieldsAfter(cfg, b, script, 0) == b;
  }

  // ------------------------------------------------------- load on a failing dependency

  /** What happens to the breaker: somebody's attempt, or somebody reading its state. */
  datatype Move<+T, +E> = Call(attempt: Attempt<T, E>) | Look(at: real)
  {
    function Begin(): real {
      if Call? then attempt.enteredAt else at
    }

    function End(): real {
      if Call? then attempt.endedAt else at
    }
  }

  /** The attempts one script makes, as a list. */
  function Made<T, E>(script: int -> Attempt<T, E>, n: int): seq<Move<T, E>>
    decreases n
  {
    if n <= 0 then [] else Made(script, n - 1) + [Call(script(n))]
  }

  function AfterMove<T, E>(cfg: Config, b: Fields, m: Move<T, E>): Fields
  {
    match m
    case Call(a) => AfterAttempt(cfg, b, a)
    case Look(at) => Expired(cfg, b, at)
  }

  function AfterAll<T, E>(cfg: Config, b: Fields, moves: seq<Move<T, E>>): Fields
    decreases |moves|
  {
    if moves == [] then b else AfterAll(cfg, AfterMove(cfg, b, moves[0]), moves[1..])
  }

  /** The move is an attempt that the breaker lets through. */
  predicate GetsThrough<T, E>(cfg: Config, b: Fields, m: Move<T, E>)
  {
    m.Call? && Admits(cfg, b, m.attempt.enteredAt)
  }

  /** When the attempts that the breaker lets through reach the dependency. */
  function Reached<T, E>(cfg: Config, b: Fields, moves: seq<Move<T, E>>): seq<real>
    decreases |moves|
  {
    if moves == [] then [] else
      (if GetsThrough(cfg, b, moves[0]) then [moves[0].Begin()] else []) +
        Reached(cfg, AfterMove(cfg, b, moves[0]), moves[1..])
  }

  /** Later requests go on from where earlier ones left the breaker, so a run of requests is one run of moves. */
  lemma {:induction false} RequestsFollowOn<T, E>(cfg: Config, b: Fields, first: seq<Move<T, E>>, more: seq<Move<T, E>>)
    ensures AfterAll(cfg, b, first + more) == AfterAll(cfg, AfterAll(cfg, b, first), more)
    ensures Reached(cfg, b, first + more) == Reached(cfg, b, first) + Reached(cfg, AfterAll(cfg, b, first), more)
    decreases |first|
  {
    if first == [] {
      assert first + more == more;
    } else {
      assert (first + more)[1..] == first[1..] + more;
      RequestsFollowOn(cfg, AfterMove(cfg, b, first[0]), first[1..], more);
    }
  }

  /** `CallReliably` leaves the breaker as its list of attempts does. */
  lemma {:induction false} ScriptIsItsAttempts<T, E>(cfg: Config, b: Fields, script: int -> Attempt<T, E>, n: nat)
    ensures FieldsAfter(cfg, b, script, n) == AfterAll(cfg, b, Made(script, n))
  {
    if n > 0 {
      var last := [Call(script(n))];
      ScriptIsItsAttempts(cfg, b, script, n - 1);
      RequestsFollowOn(cfg, b, Made(script, n - 1), last);
      var now := AfterAll(cfg, b, Made(script, n - 1));
      assert last[1..] == [];
      assert AfterAll(cfg, now, last) == AfterAttempt(cfg, now, script(n));
    }
  }

  /**
   From `clock` on: attempts that do not overlap, each ending in an exception the breaker records, and snapshots
   between them.
   */
  ghost predicate FailingOneByOne<T, E>(clock: real, moves: seq<Move<T, E>>)
  {
    && (forall i :: 0 <= i < |moves| ==> clock <= moves[i].Begin() <= moves[i].End())
    && (forall i :: 0 <= i < |moves| && moves[i].Call? ==>
         moves[i].attempt.outcome.Raised? && moves[i].attempt.outcome.kind != Retry.Fatal)
    && (forall i, j :: 0 <= i < j < |moves| ==> moves[i].End() <= moves[j].Begin())
  }

  /** A state no outstanding call is going to change. */
  ghost predicate Quiet(cfg: Config, b: Fields, clock: real)
  {
    && !b.probeInFlight
    && (b.state == Closed ==> 0 <= b.consecutiveFailures < cfg.failureThreshold)
    && (b.state != Closed ==> b.openedAt.Some? && b.consecutiveFailures >= cfg.failureThreshold)
    && (b.state == HalfOpen ==> clock >= b.openedAt.value + cfg.resetTimeout)
  }

  /** How many failures in a row the breaker still allows before the next wait. */
  function Allowance(cfg: Config, b: Fields): int
  {
    if b.state == Closed then cfg.failureThreshold - b.consecutiveFailures else 1
  }

  function Beyond(count: int, allowance: int): nat
  {
    if count > allowance then count - allowance else 0
  }

  lemma {:induction false} TimesGrows(m: nat, n: nat, x: real)
    requires m <= n && x >= 0.0
    ensures 0.0 <= Retry.Times(m, x) <= Retry.Times(n, x)
    decreases n
  {
    if 0 < n {
      TimesGrows(if m < n then m else n - 1, n - 1, x);
    }
  }

  lemma RestOneByOne<T, E>(clock: real, moves: seq<Move<T, E>>)
    requires FailingOneByOne(clock, moves) && moves != []
    ensures clock <= moves[0].Begin() <= moves[0].End() && FailingOneByOne(moves[0].End(), moves[1..])
  {
  }

  /** What one attempt does to a quiet breaker. */
  lemma FirstAttempt<T, E>(cfg: Config, b: Fields, clock: real, a: Attempt<T, E>)
    requires cfg.Valid() && Quiet(cfg, b, clock) && clock <= a.enteredAt <= a.endedAt
    requires a.outcome.Raised? && a.outcome.kind != Retry.Fatal
    ensures var next := AfterAttempt(cfg, b, a);
            && Quiet(cfg, next, a.endedAt)
            && (!Admits(cfg, b, a.enteredAt) ==> next == b)
            && (b.state != Closed && Admits(cfg, b, a.enteredAt) ==> a.enteredAt >= b.openedAt.value + cfg.resetTimeout)
            && (Admits(cfg, b, a.enteredAt) && next.state == Closed ==> Allowance(cfg, next) == Allowance(cfg, b) - 1)
            && (Admits(cfg, b, a.enteredAt) && next.state != Closed ==>
                  next.state == Open && Allowance(cfg, b) == Allowance(cfg, next) == 1 &&
                    next.openedAt == Some(a.endedAt))
  {
  }

  /** What one snapshot does to a quiet breaker. */
  lemma FirstLook(cfg: Config, b: Fields, clock: real, at: real)
    requires cfg.Valid() && Quiet(cfg, b, clock) && clock <= at
    ensures var next := Expired(cfg, b, at);
            && Quiet(cfg, next, at) && Allowance(cfg, next) == Allowance(cfg, b) && next.openedAt == b.openedAt
            && (next.state == Closed <==> b.state == Closed)
  {
  }

  /** The `j`-th call to reach the dependency comes a reset timeout later for each call beyond the allowance. */
  lemma {:induction false} CallsAreSpaced<T, E>(cfg: Config, b: Fields, clock: real, moves: seq<Move<T, E>>, j: int)
    requires cfg.Valid() && Quiet(cfg, b, clock) && FailingOneByOne(clock, moves)
    requires 0 <= j < |Reached(cfg, b, moves)|
    ensures var r := Reached(cfg, b, moves);
            && Retry.Times(Beyond(j + 1, Allowance(cfg, b)), cfg.resetTimeout) <= r[j] - r[0]
            && (b.state != Closed ==> r[0] >= b.openedAt.value + cfg.resetTimeout)
            && r[0] >= clock
    decreases |moves|
  {
    var m := moves[0];
    var next := AfterMove(cfg, b, m);
    RestOneByOne(clock, moves);
    match m {
      case Look(at) =>
        FirstLook(cfg, b, clock, at);
        CallsAreSpaced(cfg, next, at, moves[1..], j);
      case Call(a) =>
        FirstAttempt(cfg, b, clock, a);
        if !Admits(cfg, b, a.enteredAt) {
          CallsAreSpaced(cfg, b, a.endedAt, moves[1..], j);
        } else if j > 0 {
          CallsAreSpaced(cfg, next, a.endedAt, moves[1..], j - 1);
        }
    }
  }

  /** Any stretch of consecutive calls that reach the dependency, wherever it starts. */
  lemma {:induction false} StretchesAreLong<T,
      E>(cfg: Config, b: Fields, clock: real, moves: seq<Move<T, E>>, i: int, j: int)
    requires cfg.Valid() && Quiet(cfg, b, clock) && FailingOneByOne(clock, moves)
    requires 0 <= i <= j < |Reached(cfg, b, moves)|
    ensures var r := Reached(cfg, b, moves);
            Retry.Times(Beyond(j - i + 1, cfg.failureThreshold), cfg.resetTimeout) <= r[j] - r[i]
    decreases |moves|
  {
    var m := moves[0];
    RestOneByOne(clock, moves);
    if m.Look? {
      FirstLook(cfg, b, clock, m.at);
    } else {
      FirstAttempt(cfg, b, clock, m.attempt);
    }
    var shift := if GetsThrough(cfg, b, m) then 1 else 0;
    if i >= shift {
      StretchesAreLong(cfg, AfterMove(cfg, b, m), m.End(), moves[1..], i - shift, j - shift);
    } else {
      CallsAreSpaced(cfg, b, clock, moves, j);
      TimesGrows(Beyond(j + 1, cfg.failureThreshold), Beyond(j + 1, Allowance(cfg, b)), cfg.resetTimeout);
    }
  }

  lemma QuotientBound(x: real, reset: real, window: real)
    requires reset > 0.0 && x * reset <= window
    ensures x <= window / reset
  {
  }

  lemma FloorBounds(k: nat, reset: real, window: real)
    requires reset > 0.0 && Retry.Times(k, reset) <= window
    ensures k <= (window / reset).Floor
  {
    Retry.TimesIsProduct(k, reset);
    QuotientBound(k as real, reset, window);
  }

  /**
   However many callers retry and however often the breaker is read, as long as calls do not overlap and the dependency
   keeps failing, at most threshold + floor(window / reset) calls reach it in any window of that length.
   */
  lemma DependencyIsSheltered<T,
      E>(cfg: Config, b: Fields, clock: real, moves: seq<Move<T, E>>, i: int, j: int, window: real)
    requires cfg.Valid() && Quiet(cfg, b, clock) && FailingOneByOne(clock, moves)
    requires 0 <= i <= j < |Reached(cfg, b, moves)|
    requires Reached(cfg, b, moves)[j] - Reached(cfg, b, moves)[i] <= window
    ensures j - i + 1 <= cfg.failureThreshold + (window / cfg.resetTimeout).Floor
  {
    var k := Beyond(j - i + 1, cfg.failureThreshold);
    StretchesAreLong(cfg, b, clock, moves, i, j);
    FloorBounds(k, cfg.resetTimeout, window);
  }

  // ------------------------------------------- which states the bound covers

  /** The log is in clock order and does not go beyond `clock`. */
  ghost predicate Until(log: seq<H.Event>, clock: real)
  {
    H.Ordered(log) && (log != [] ==> log[|log| - 1].at <= clock)
  }

  lemma UntilNext(log: seq<H.Event>, clock: real, e: H.Event)
    requires Until(log, clock) && clock <= e.at
    ensures Until(log + [e], e.at)
  {
  }

  lemma AfterNext(cfg: Config, log: seq<H.Event>, e: H.Event)
    ensures H.After(cfg, log + [e]) == H.Apply(cfg, H.After(cfg, log), e)
  {
    assert (log + [e])[..|log|] == log;
  }

  lemma PossibleUnfold(cfg: Config, w: H.World, events: seq<H.Event>)
    requires H.AllPossible(cfg, w, events) && events != []
    ensures var next := H.Next(cfg, w, events[0]);
            && events[0].at >= w.clock && next.b == H.Apply(cfg, w.b, events[0]) && next.clock == events[0].at
            && H.AllPossible(cfg, next, events[1..]) && H.RunFrom(cfg, w, events) == H.RunFrom(cfg, next, events[1..])
  {
  }

  /** A run of the world of calls is a log of the breaker, in clock order. */
  lemma {:induction false} RunsAreLogs(cfg: Config, w: H.World, log: seq<H.Event>, events: seq<H.Event>)
    requires w.b == H.After(cfg, log) && Until(log, w.clock) && H.AllPossible(cfg, w, events)
    ensures var v := H.RunFrom(cfg, w, events); v.b == H.After(cfg, log + events) && Until(log + events, v.clock)
    decreases |events|
  {
    if events == [] {
      assert log + events == log;
    } else {
      var e := events[0];
      UntilNext(log, w.clock, e);
      AfterNext(cfg, log, e);
      PossibleUnfold(cfg, w, events);
      RunsAreLogs(cfg, H.Next(cfg, w, e), log + [e], events[1..]);
      TakeOne(log, events);
    }
  }

  lemma TakeOne<A>(a: seq<A>, b: seq<A>)
    requires b != []
    ensures (a + [b[0]]) + b[1..] == a + b
  {
  }

  /** Every state a run can reach with no call outstanding is one the bound covers, if its calls were all recorded. */
  lemma QuietOnceRecorded(cfg: Config, events: seq<H.Event>)
    requires cfg.Valid() && H.AllPossible(cfg, H.FRESH, events) && H.RunFrom(cfg, H.FRESH, events).inFlight == 0
    requires forall k :: 0 <= k < |events| ==> !events[k].Vanish?
    ensures var w := H.RunFrom(cfg, H.FRESH, events); Quiet(cfg, w.b, w.clock)
  {
    assert [] + events == events;
    RunsAreLogs(cfg, H.FRESH, [], events);
    H.RunsStaySound(cfg, H.FRESH, events);
    LogWithoutProbeIsQuiet(cfg, events, H.RunFrom(cfg, H.FRESH, events).clock);
  }

  lemma LogWithoutProbeIsQuiet(cfg: Config, log: seq<H.Event>, clock: real)
    requires cfg.Valid() && Until(log, clock) && !H.After(cfg, log).probeInFlight
    ensures Quiet(cfg, H.After(cfg, log), clock)
  {
    H.BreakerMeansItsLog(cfg, log);
    H.ReadingIsRecent(log, H.LastFailure(log) + cfg.resetTimeout);
  }

  /** The bound is met: a new breaker lets `threshold` failing calls through at one instant. */
  lemma {:induction false} BoundIsReached<T, E>(cfg: Config, b: Fields, a: Attempt<T, E>, n: nat)
    requires cfg.Valid() && a.outcome.Raised? && a.outcome.kind != Retry.Fatal
    requires b.state == Closed && 0 <= b.consecutiveFailures <= cfg.failureThreshold - n && !b.probeInFlight
    ensures |Reached(cfg, b, seq(n, _ => Call(a)))| == n
    decreases n
  {
    var moves := seq(n, _ => Call(a));
    if n > 1 {
      assert moves[1..] == seq(n - 1, _ => Call(a));
      BoundIsReached(cfg, AfterAttempt(cfg, b, a), a, n - 1);
    } else if n == 1 {
      assert moves[1..] == [];
    }
  }
}
