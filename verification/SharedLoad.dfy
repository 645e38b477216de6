/**
 How many calls reach a failing dependency when calls through one breaker overlap
 (backend/reliability/circuit_breaker.py, used from every thread).
 */
module SharedLoad {
  import opened Text
  import opened Breaker
  import opened BreakerHistory
  import Retry
  import R = ReliableCalls

  /** A run in which nothing succeeds, every call is recorded, and at most `most` calls are in flight at once. */
  ghost predicate Failing(cfg: Config, w: World, events: seq<Event>, most: int)
    decreases |events|
  {
    && w.inFlight <= most
    && (events == [] ||
        (Possible(w, events[0]) && !events[0].Succeed? && !events[0].Vanish? &&
         Failing(cfg, Next(cfg, w, events[0]), events[1..], most)))
  }

  predicate GetsIn(cfg: Config, w: World, e: Event)
  {
    e.Arrive? && Admits(cfg, w.b, e.at)
  }

  /** When calls are let through. */
  function Admissions(cfg: Config, w: World, events: seq<Event>): seq<real>
    decreases |events|
  {
    if events == [] then [] else
      var first := if GetsIn(cfg, w, events[0]) then [events[0].at] else [];
      first + Admissions(cfg, Next(cfg, w, events[0]), events[1..])
  }

  /** What is true of every reachable world. */
  ghost predicate Good(cfg: Config, w: World)
  {
    && w.inFlight >= 0
    && (w.b.probeInFlight ==> w.b.state == HalfOpen)
    && (w.b.state == Closed ==> 0 <= w.b.consecutiveFailures < cfg.failureThreshold)
    && (w.b.state != Closed ==>
          w.b.openedAt.Some? && w.b.openedAt.value <= w.clock && w.b.consecutiveFailures >= cfg.failureThreshold)
    && (w.b.state == HalfOpen ==> w.clock >= w.b.openedAt.value + cfg.resetTimeout)
  }

  /** How many more calls can get in before the breaker makes the next one wait. */
  function Allowance(cfg: Config, w: World, most: int): int
  {
    if w.b.state == Closed then (cfg.failureThreshold - 1 - w.b.consecutiveFailures) + (most - w.inFlight) else 1
  }

  function AtLeastOne(n: int): int
  {
    if n >= 1 then n else 1
  }

  /** The earliest moment at which the next call can get in. */
  function Earliest(cfg: Config, w: World, most: int): real
    requires Good(cfg, w)
  {
    match w.b.state
    case Closed => if Allowance(cfg, w, most) == 0 then w.clock + cfg.resetTimeout else w.clock
    case Open => w.b.openedAt.value + cfg.resetTimeout
    case HalfOpen => if w.b.probeInFlight then w.clock + cfg.resetTimeout else w.clock
  }

  lemma OneEvent(cfg: Config, w: World, e: Event, most: int)
    requires cfg.Valid() && Good(cfg, w) && w.inFlight <= most
    requires Possible(w, e) && !e.Succeed? && !e.Vanish? && Next(cfg, w, e).inFlight <= most
    ensures var v := Next(cfg, w, e);
            && Good(cfg, v)
            && (!GetsIn(cfg, w, e) ==>
                  && Earliest(cfg, v, most) >= Earliest(cfg, w, most)
                  && AtLeastOne(Allowance(cfg, v, most)) <= AtLeastOne(Allowance(cfg, w, most)))
            && (GetsIn(cfg, w, e) ==>
                  && e.at >= Earliest(cfg, w, most) && Earliest(cfg, v, most) >= e.at
                  && (Allowance(cfg, w, most) >= 2 ==> Allowance(cfg, v, most) == Allowance(cfg, w, most) - 1)
                  && (Allowance(cfg, w, most) < 2 ==> Earliest(cfg, v, most) >= e.at + cfg.resetTimeout))
  {
  }

  /** The `j`-th call let through comes a reset timeout later for each call beyond the allowance. */
  lemma {:induction false} AdmissionsAreSpaced(cfg: Config, w: World, events: seq<Event>, most: int, j: int)
    requires cfg.Valid() && Good(cfg, w) && Failing(cfg, w, events, most)
    requires 0 <= j < |Admissions(cfg, w, events)|
    ensures var r := Admissions(cfg, w, events);
            && r[0] >= Earliest(cfg, w, most)
            && Retry.Times(R.Beyond(j + 1, AtLeastOne(Allowance(cfg, w, most))), cfg.resetTimeout) <= r[j] - r[0]
    decreases |events|
  {
    var e := events[0];
    var v := Next(cfg, w, e);
    OneEvent(cfg, w, e, most);
    if !GetsIn(cfg, w, e) {
      AdmissionsAreSpaced(cfg, v, events[1..], most, j);
      R.TimesGrows(R.Beyond(j + 1, AtLeastOne(Allowance(cfg, w, most))),
        R.Beyond(j + 1, AtLeastOne(Allowance(cfg, v, most))),
                   cfg.resetTimeout);
    } else if j > 0 {
      AdmissionsAreSpaced(cfg, v, events[1..], most, j - 1);
    }
  }

  lemma {:induction false} StretchesAreLong(cfg: Config, w: World, events: seq<Event>, most: int, i: int, j: int)
    requires cfg.Valid() && most >= 1 && Good(cfg, w) && Failing(cfg, w, events, most)
    requires 0 <= i <= j < |Admissions(cfg, w, events)|
    ensures var r := Admissions(cfg, w, events);
            Retry.Times(R.Beyond(j - i + 1, cfg.failureThreshold - 1 + most), cfg.resetTimeout) <= r[j] - r[i]
    decreases |events|
  {
    var e := events[0];
    OneEvent(cfg, w, e, most);
    var shift := if GetsIn(cfg, w, e) then 1 else 0;
    if i >= shift {
      StretchesAreLong(cfg, Next(cfg, w, e), events[1..], most, i - shift, j - shift);
    } else {
      AdmissionsAreSpaced(cfg, w, events, most, j);
      R.TimesGrows(R.Beyond(j + 1, cfg.failureThreshold - 1 + most),
        R.Beyond(j + 1, AtLeastOne(Allowance(cfg, w, most))),
                   cfg.resetTimeout);
    }
  }

  /**
   With at most `most` calls in flight, in any interleaving, while the dependency keeps failing, at most
   threshold - 1 + most + floor(window / reset) calls reach it in any window of that length.
   */
  lemma SharedDependencyIsSheltered(cfg: Config, w: World, events: seq<Event>, most: int, i: int, j: int, window: real)
    requires cfg.Valid() && most >= 1 && Good(cfg, w) && Failing(cfg, w, events, most)
    requires 0 <= i <= j < |Admissions(cfg, w, events)|
    requires Admissions(cfg, w, events)[j] - Admissions(cfg, w, events)[i] <= window
    ensures j - i + 1 <= cfg.failureThreshold - 1 + most + (window / cfg.resetTimeout).Floor
  {
    StretchesAreLong(cfg, w, events, most, i, j);
    R.FloorBounds(R.Beyond(j - i + 1, cfg.failureThreshold - 1 + most), cfg.resetTimeout, window);
  }

  // ---------------------------------------------- every reachable world

  lemma {:induction false} LastFailureIsPast(log: seq<Event>, clock: real)
    requires R.Until(log, clock) && FailureRun(log) > 0
    ensures LastFailure(log) <= clock
    decreases |log|
  {
    if !log[|log| - 1].Fail? {
      var before := log[..|log| - 1];
      assert before != [] ==> before[|before| - 1].at <= log[|log| - 1].at;
      LastFailureIsPast(before, clock);
    }
  }

  /** The bound covers every world a run can reach, whatever happened before. */
  lemma ReachableIsGood(cfg: Config, events: seq<Event>)
    requires cfg.Valid() && AllPossible(cfg, FRESH, events)
    ensures Good(cfg, RunFrom(cfg, FRESH, events))
  {
    assert [] + events == events;
    R.RunsAreLogs(cfg, FRESH, [], events);
    RunsStaySound(cfg, FRESH, events);
    LogIsGood(cfg, events, RunFrom(cfg, FRESH, events));
  }

  lemma LogIsGood(cfg: Config, log: seq<Event>, w: World)
    requires cfg.Valid() && w.b == After(cfg, log) && R.Until(log, w.clock) && w.inFlight >= 0
    ensures Good(cfg, w)
  {
    BreakerMeansItsLog(cfg, log);
    ReadingIsRecent(log, LastFailure(log) + cfg.resetTimeout);
    if FailureRun(log) >= cfg.failureThreshold {
      LastFailureIsPast(log, w.clock);
    }
  }

  // ------------------------------------------------------ the bound is met

  /** A tripped breaker meets `n` callers, each a reset timeout after the last, and each fails at once. */
  lemma {:induction false} TrippedWorst(cfg: Config, w: World, n: nat, most: int) returns (events: seq<Event>)
    requires cfg.Valid() && Good(cfg, w) && w.b.state == Open && w.b.openedAt == Some(w.clock) && w.inFlight < most
    ensures Failing(cfg, w, events, most) && |Admissions(cfg, w, events)| == n
    ensures forall j :: 0 <= j < n ==> Admissions(cfg, w, events)[j] == w.clock + Retry.Times(j + 1, cfg.resetTimeout)
    decreases n
  {
    if n == 0 {
      events := [];
    } else {
      var t := w.clock + cfg.resetTimeout;
      var v := Next(cfg, w, Arrive(t));
      var u := Next(cfg, v, Fail(t, 0));
      assert Admits(cfg, w.b, t) && u.b.state == Open && u.b.openedAt == Some(t) && u.inFlight == w.inFlight;
      var rest := TrippedWorst(cfg, u, n - 1, most);
      events := TwoMore(cfg, w, Arrive(t), Fail(t, 0), rest, most);
      forall j | 0 <= j < n ensures Admissions(cfg, w, events)[j] == w.clock + Retry.Times(j + 1, cfg.resetTimeout) {
        if j > 0 {
          assert Admissions(cfg, w, events)[j] == Admissions(cfg, u, rest)[j - 1];
          Shifted(j, cfg.resetTimeout);
        }
      }
    }
  }

  lemma Shifted(j: nat, x: real)
    ensures x + Retry.Times(j, x) == Retry.Times(j + 1, x)
  {
  }

  lemma OneMore(cfg: Config, w: World, e: Event, rest: seq<Event>, most: int) returns (events: seq<Event>)
    requires w.inFlight <= most && Possible(w, e) && !e.Succeed? && !e.Vanish? &&
             Failing(cfg, Next(cfg, w, e), rest, most)
    ensures events == [e] + rest && Failing(cfg, w, events, most)
    ensures Admissions(cfg, w, events) == (if GetsIn(cfg, w, e) then [e.at] else []) +
            Admissions(cfg, Next(cfg, w, e), rest)
  {
    events := [e] + rest;
    assert events[1..] == rest;
  }

  /** An arrival that gets in, and an outcome. */
  lemma TwoMore(cfg: Config, w: World, e: Event, f: Event, rest: seq<Event>, most: int) returns (events: seq<Event>)
    requires w.inFlight <= most && Possible(w, e) && GetsIn(cfg, w, e) && Next(cfg, w, e).inFlight <= most
    requires f.Fail? && Possible(Next(cfg, w, e), f) && Failing(cfg, Next(cfg, Next(cfg, w, e), f), rest, most)
    ensures Failing(cfg, w, events, most)
    ensures Admissions(cfg, w, events) == [e.at] + Admissions(cfg, Next(cfg, Next(cfg, w, e), f), rest)
  {
    var after := OneMore(cfg, Next(cfg, w, e), f, rest, most);
    events := OneMore(cfg, w, e, after, most);
  }

  /** When the `j`-th call of the worst run gets in: `first` of them at once, then one after each reset timeout. */
  function WorstTime(clock: real, first: int, reset: real, j: int): real
  {
    if j < first then clock else clock + Retry.Times(j - first + 1, reset)
  }

  ghost predicate IsWorst(r: seq<real>, clock: real, first: int, n: nat, reset: real)
  {
    |r| == first + n && forall j :: 0 <= j < |r| ==> r[j] == WorstTime(clock, first, reset, j)
  }

  lemma OneMoreAtOnce(r: seq<real>, clock: real, first: int, n: nat, reset: real)
    requires first >= 0 && IsWorst(r, clock, first, n, reset)
    ensures IsWorst([clock] + r, clock, first + 1, n, reset)
  {
    var s := [clock] + r;
    forall j | 0 <= j < |s| ensures s[j] == WorstTime(clock, first + 1, reset, j) {
      assert j > 0 ==> s[j] == r[j - 1];
    }
  }

  /**
   A closed breaker: `k` callers that fail at once, then `m` that stay, and when one of them fails the breaker trips.
   */
  lemma {:induction false} ClosedWorst(cfg: Config, w: World, k: nat, m: nat, n: nat, most: int)
      returns (events: seq<Event>)
    requires cfg.Valid() && Good(cfg, w) && w.b.state == Closed &&
             w.b.consecutiveFailures + k == cfg.failureThreshold - 1
    requires most >= 1 && w.inFlight + m == most && (k > 0 ==> m > 0)
    ensures Failing(cfg, w, events, most) && IsWorst(Admissions(cfg, w, events), w.clock, k + m, n, cfg.resetTimeout)
    decreases k, m
  {
    var t := w.clock;
    var v := Next(cfg, w, Arrive(t));
    if k > 0 {
      var u := Next(cfg, v, Fail(t, 0));
      var rest := ClosedWorst(cfg, u, k - 1, m, n, most);
      events := TwoMore(cfg, w, Arrive(t), Fail(t, 0), rest, most);
      OneMoreAtOnce(Admissions(cfg, u, rest), t, k - 1 + m, n, cfg.resetTimeout);
    } else if m > 0 {
      var rest := ClosedWorst(cfg, v, 0, m - 1, n, most);
      events := OneMore(cfg, w, Arrive(t), rest, most);
      OneMoreAtOnce(Admissions(cfg, v, rest), t, m - 1, n, cfg.resetTimeout);
    } else {
      var u := Next(cfg, w, Fail(t, 0));
      var rest := TrippedWorst(cfg, u, n, most);
      events := OneMore(cfg, w, Fail(t, 0), rest, most);
    }
  }

  /** The bound is met for every window of `n` reset timeouts, every threshold and every number of calls in flight. */
  lemma SharedBoundIsReached(cfg: Config, n: nat, most: int) returns (events: seq<Event>)
    requires cfg.Valid() && most >= 1
    ensures Failing(cfg, FRESH, events, most)
    ensures var r := Admissions(cfg, FRESH, events);
            && |r| == cfg.failureThreshold - 1 + most + n
            && r[|r| - 1] - r[0] == Retry.Times(n, cfg.resetTimeout)
  {
    var first := cfg.failureThreshold - 1 + most;
    events := ClosedWorst(cfg, FRESH, cfg.failureThreshold - 1, most, n, most);
    EndsOfWorst(Admissions(cfg, FRESH, events), FRESH.clock, first, n, cfg.resetTimeout);
  }

  lemma EndsOfWorst(r: seq<real>, clock: real, first: int, n: nat, reset: real)
    requires first >= 1 && IsWorst(r, clock, first, n, reset)
    ensures r[|r| - 1] - r[0] == Retry.Times(n, reset)
  {
    assert r[0] == WorstTime(clock, first, reset, 0) == clock;
    assert r[|r| - 1] == WorstTime(clock, first, reset, |r| - 1);
  }
}
