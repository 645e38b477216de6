/**
 The circuit breaker's transitions as functions, and the object that performs them
 (backend/reliability/circuit_breaker.py).
 */
module Breaker {
  import opened Text

  datatype State = Closed | Open | HalfOpen

  datatype Config = Config(failureThreshold: int, resetTimeout: real)
  {
    /** What construction of a configuration checks. */
    predicate Valid() {
      failureThreshold >= 1 && resetTimeout > 0.0
    }
  }

  /** The lock-protected fields. */
  datatype Fields = Fields(state: State, consecutiveFailures: int, openedAt: Option<real>, probeInFlight: bool)

  const INITIAL: Fields := Fields(Closed, 0, None, false)

  /** OPEN becomes HALF_OPEN once the reset window has elapsed. */
  function Expired(cfg: Config, b: Fields, now: real): Fields
  {
    if b.state == Open && b.openedAt.Some? && now - b.openedAt.value >= cfg.resetTimeout
    then b.(state := HalfOpen, probeInFlight := false)
    else b
  }

  /** A call is let through unless the breaker is OPEN, or HALF_OPEN with a probe in flight. */
  predicate Admits(cfg: Config, b: Fields, now: real)
  {
    var e := Expired(cfg, b, now);
    e.state == Closed || (e.state == HalfOpen && !e.probeInFlight)
  }

  function Entered(cfg: Config, b: Fields, now: real): Fields
  {
    var e := Expired(cfg, b, now);
    if e.state == HalfOpen then e.(probeInFlight := true) else e
  }

  function Failed(cfg: Config, b: Fields, now: real): Fields
  {
    var n := b.consecutiveFailures + 1;
    if b.state == HalfOpen || n >= cfg.failureThreshold
    then Fields(Open, n, Some(now), false)
    else b.(consecutiveFailures := n, probeInFlight := false)
  }

  function Succeeded(b: Fields): Fields
  {
    Fields(Closed, 0, None, false)
  }

  /** How one call of the guarded function ended; `Abandoned` is an exception outside `Exception`. */
  datatype Ending = Return | Raise | Abandoned

  function Recorded(cfg: Config, b: Fields, ending: Ending, now: real): Fields
  {
    match ending
    case Return => Succeeded(b)
    case Raise => Failed(cfg, b, now)
    case Abandoned => b
  }

  class CircuitBreaker {
    const config: Config
    var state: State
    var consecutiveFailures: int
    var openedAt: Option<real>
    var probeInFlight: bool

    function Now(): Fields
      reads this
    {
      Fields(state, consecutiveFailures, openedAt, probeInFlight)
    }

    constructor (config: Config)
      requires config.Valid()
      ensures this.config == config && Now() == INITIAL
    {
      this.config := config;
      state, consecutiveFailures, openedAt, probeInFlight := Closed, 0, None, false;
    }

    method MaybeExpireOpen(now: real)
      modifies this
      ensures Now() == Expired(config, old(Now()), now)
    {
      if state == Open && openedAt.Some? && now - openedAt.value >= config.resetTimeout {
        state := HalfOpen;
        probeInFlight := false;
      }
    }

    method Snapshot(now: real) returns (seen: Fields)
      modifies this
      ensures Now() == Expired(config, old(Now()), now)
      ensures seen == Now()
    {
      MaybeExpireOpen(now);
      seen := Now();
    }

    /** The first locked section of a call: decide whether to let it through. */
    method Enter(now: real) returns (admitted: bool)
      modifies this
      ensures admitted == Admits(config, old(Now()), now)
      ensures Now() == Entered(config, old(Now()), now)
    {
      MaybeExpireOpen(now);
      if state == Open {
        return false;
      }
      if state == HalfOpen {
        if probeInFlight {
          return false;
        }
        probeInFlight := true;
      }
      return true;
    }

    method RecordFailure(now: real)
      modifies this
      ensures Now() == Failed(config, old(Now()), now)
    {
      var wasHalfOpen := state == HalfOpen;
      consecutiveFailures := consecutiveFailures + 1;
      if wasHalfOpen || consecutiveFailures >= config.failureThreshold {
        state := Open;
        openedAt := Some(now);
      }
      probeInFlight := false;
    }

    method RecordSuccess()
      modifies this
      ensures Now() == Succeeded(old(Now()))
    {
      state := Closed;
      consecutiveFailures := 0;
      openedAt := None;
      probeInFlight := false;
    }

    /** A whole call that no other call overlaps: enter, run the function, record how it ended. */
    method Call(enteredAt: real, ending: Ending, endedAt: real) returns (admitted: bool)
      modifies this
      ensures admitted == Admits(config, old(Now()), enteredAt)
      ensures Now() == AfterCall(config, old(Now()), enteredAt, ending, endedAt)
    {
      admitted := Enter(enteredAt);
      if admitted {
        match ending {
          case Return => RecordSuccess();
          case Raise => RecordFailure(endedAt);
          case Abandoned =>
        }
      }
    }
  }

  function AfterCall(cfg: Config, b: Fields, enteredAt: real, ending: Ending, endedAt: real): Fields
  {
    var e := Entered(cfg, b, enteredAt);
    if Admits(cfg, b, enteredAt) then Recorded(cfg, e, ending, endedAt) else e
  }
}

/** What the breaker's fields mean, over every interleaving of concurrent calls. */
module BreakerHistory {
  import opened Text
  import opened Breaker

  /**
   One locked section, at the clock reading it happens at: a caller arriving, an outcome being recorded (of a recent
   or of a stale call), a snapshot, or a call ending without any record. `call` is the place in the log where the call
   that ends arrived.
   */
  datatype Event =
    | Arrive(at: real)
    | Look(at: real)
    | Fail(at: real, call: int)
    | Succeed(at: real, call: int)
    | Vanish(at: real, call: int)
  {
    predicate IsOutcome() {
      Fail? || Succeed?
    }

    predicate IsEnding() {
      Fail? || Succeed? || Vanish?
    }

    predicate Ends(i: int) {
      IsEnding() && call == i
    }
  }

  function Apply(cfg: Config, b: Fields, e: Event): Fields
  {
    match e
    case Arrive(at) => Entered(cfg, b, at)
    case Look(at) => Expired(cfg, b, at)
    case Fail(at, _) => Failed(cfg, b, at)
    case Succeed(_, _) => Succeeded(b)
    case Vanish(_, _) => b
  }

  /** The fields after a whole log of events. */
  function After(cfg: Config, log: seq<Event>): Fields
  {
    if log == [] then INITIAL else Apply(cfg, After(cfg, log[..|log| - 1]), log[|log| - 1])
  }

  /** The clock never runs backwards. */
  ghost predicate Ordered(log: seq<Event>)
  {
    forall i, j :: 0 <= i < j < |log| ==> log[i].at <= log[j].at
  }

  // -------------------------------------------- the log read declaratively

  /** Failures recorded since the last success. */
  function FailureRun(log: seq<Event>): nat
  {
    if log == [] then 0 else
      var run := FailureRun(log[..|log| - 1]);
      match log[|log| - 1]
      case Fail(_, _) => run + 1
      case Succeed(_, _) => 0
      case _ => run
  }

  /** When the last failure was recorded. */
  function LastFailure(log: seq<Event>): real
  {
    if log == [] then 0.0
    else if log[|log| - 1].Fail? then log[|log| - 1].at
    else LastFailure(log[..|log| - 1])
  }

  /** Since the last outcome, a caller arrived or a snapshot was taken at `t` or later. */
  predicate ReadSince(log: seq<Event>, t: real)
  {
    log != [] && !log[|log| - 1].IsOutcome() &&
    (((log[|log| - 1].Arrive? || log[|log| - 1].Look?) && log[|log| - 1].at >= t) || ReadSince(log[..|log| - 1], t))
  }

  /** Since the last outcome, a caller arrived at `t` or later. */
  predicate ArrivedSince(log: seq<Event>, t: real)
  {
    log != [] && !log[|log| - 1].IsOutcome() &&
    ((log[|log| - 1].Arrive? && log[|log| - 1].at >= t) || ArrivedSince(log[..|log| - 1], t))
  }

  /** The fields, read off the log without running it. */
  function Meaning(cfg: Config, log: seq<Event>): Fields
  {
    var run := FailureRun(log);
    if run < cfg.failureThreshold then Fields(Closed, run, None, false) else
      var retryAt := LastFailure(log) + cfg.resetTimeout;
      var state := if ReadSince(log, retryAt) then HalfOpen else Open;
      Fields(state, run, Some(LastFailure(log)), ArrivedSince(log, retryAt))
  }

  lemma {:induction false} ReadingIsRecent(log: seq<Event>, t: real)
    requires Ordered(log)
    ensures ReadSince(log, t) ==> log != [] && log[|log| - 1].at >= t
    ensures ArrivedSince(log, t) ==> ReadSince(log, t)
  {
    if log != [] {
      ReadingIsRecent(log[..|log| - 1], t);
    }
  }

  /** Over every interleaving the breaker is exactly this function of the events it has seen. */
  lemma {:induction false} BreakerMeansItsLog(cfg: Config, log: seq<Event>)
    requires cfg.Valid() && Ordered(log)
    ensures After(cfg, log) == Meaning(cfg, log)
    decreases |log|
  {
    if log != [] {
      var before := log[..|log| - 1];
      BreakerMeansItsLog(cfg, before);
      ReadingIsRecent(before, LastFailure(before) + cfg.resetTimeout);
    }
  }

  /** The invariant behind the state diagram; it makes the `was_half_open` test redundant. */
  lemma {:induction false} FieldsAgree(cfg: Config, log: seq<Event>)
    requires cfg.Valid() && Ordered(log)
    ensures var b := After(cfg, log);
            && b.consecutiveFailures == FailureRun(log)
            && (b.state == Closed <==> FailureRun(log) < cfg.failureThreshold)
            && (b.state == Closed <==> b.openedAt == None)
            && (b.probeInFlight ==> b.state == HalfOpen)
            && (b.state == HalfOpen ==> b.consecutiveFailures + 1 >= cfg.failureThreshold)
  {
    BreakerMeansItsLog(cfg, log);
    ReadingIsRecent(log, LastFailure(log) + cfg.resetTimeout);
  }

  /**
   Exactly when a caller is let through: while the failure run is below the threshold, or as the first arrival since
   the last outcome once the reset timeout has passed since the last failure.
   */
  lemma AdmissionRule(cfg: Config, log: seq<Event>, now: real)
    requires cfg.Valid() && Ordered(log + [Arrive(now)])
    ensures Admits(cfg, After(cfg, log), now) <==>
            || FailureRun(log) < cfg.failureThreshold
            || (now >= LastFailure(log) + cfg.resetTimeout && !ArrivedSince(log, LastFailure(log) + cfg.resetTimeout))
  {
    var more := log + [Arrive(now)];
    assert forall i :: 0 <= i < |log| ==> more[i] == log[i];
    assert Ordered(log) by {
      forall i, j | 0 <= i < j < |log| ensures log[i].at <= log[j].at {
        assert more[i].at <= more[j].at;
      }
    }
    if log != [] {
      assert more[|log| - 1].at <= more[|log|].at;
    }
    BreakerMeansItsLog(cfg, log);
    ReadingIsRecent(log, LastFailure(log) + cfg.resetTimeout);
  }

  /** The caller arriving as event `i` is let through. */
  ghost predicate AdmittedAt(cfg: Config, log: seq<Event>, i: int)
  {
    0 <= i < |log| && log[i].Arrive? && Admits(cfg, After(cfg, log[..i]), log[i].at)
  }

  /** The breaker has tripped and has not recorded a success since. */
  ghost predicate Tripped(cfg: Config, log: seq<Event>)
  {
    FailureRun(log) >= cfg.failureThreshold
  }

  lemma PrefixIsOrdered(log: seq<Event>, i: int)
    requires Ordered(log) && 0 <= i <= |log|
    ensures Ordered(log[..i])
  {
  }

  /** No caller gets through a tripped breaker sooner than the reset timeout after the last recorded failure. */
  lemma NoEarlyAdmission(cfg: Config, log: seq<Event>, i: int)
    requires cfg.Valid() && Ordered(log) && AdmittedAt(cfg, log, i) && Tripped(cfg, log[..i])
    ensures log[i].at >= LastFailure(log[..i]) + cfg.resetTimeout
  {
    PrefixIsOrdered(log, i + 1);
    assert log[..i + 1] == log[..i] + [Arrive(log[i].at)];
    AdmissionRule(cfg, log[..i], log[i].at);
  }

  lemma {:induction false} ArrivalIsRemembered(log: seq<Event>, i: int, j: int, t: real)
    requires 0 <= i < j <= |log| && log[i].Arrive? && log[i].at >= t
    requires forall k :: i < k < j ==> !log[k].IsOutcome()
    ensures ArrivedSince(log[..j], t)
    ensures FailureRun(log[..j]) == FailureRun(log[..i]) && LastFailure(log[..j]) == LastFailure(log[..i])
    decreases j
  {
    assert log[..j][..j - 1] == log[..j - 1];
    if i < j - 1 {
      ArrivalIsRemembered(log, i, j - 1, t);
    }
  }

  /** Between two recorded outcomes a tripped breaker lets at most one caller through, however many arrive. */
  lemma OneProbePerEpisode(cfg: Config, log: seq<Event>, i: int, j: int)
    requires cfg.Valid() && Ordered(log) && i < j
    requires AdmittedAt(cfg, log, i) && AdmittedAt(cfg, log, j)
    requires Tripped(cfg, log[..i])
    ensures exists k :: i < k < j && log[k].IsOutcome()
  {
    NoEarlyAdmission(cfg, log, i);
    if forall k :: i < k < j ==> !log[k].IsOutcome() {
      ArrivalIsRemembered(log, i, j, LastFailure(log[..i]) + cfg.resetTimeout);
      PrefixIsOrdered(log, j + 1);
      assert log[..j + 1] == log[..j] + [Arrive(log[j].at)];
      AdmissionRule(cfg, log[..j], log[j].at);
    }
  }

  // ------------------------------------------------------------- recovery

  /** The breaker, the clock, and how many admitted calls have not ended yet. */
  datatype World = World(b: Fields, clock: real, inFlight: int)

  predicate Possible(w: World, e: Event)
  {
    e.at >= w.clock && (e.IsOutcome() || e.Vanish? ==> w.inFlight > 0)
  }

  function Next(cfg: Config, w: World, e: Event): World
  {
    World(
      Apply(cfg, w.b, e),
      e.at,
      if e.Arrive? then (if Admits(cfg, w.b, e.at) then w.inFlight + 1 else w.inFlight)
      else if e.Look? then w.inFlight
      else w.inFlight - 1)
  }

  ghost predicate AllPossible(cfg: Config, w: World, events: seq<Event>)
    decreases |events|
  {
    events == [] || (Possible(w, events[0]) && AllPossible(cfg, Next(cfg, w, events[0]), events[1..]))
  }

  function RunFrom(cfg: Config, w: World, events: seq<Event>): World
    decreases |events|
  {
    if events == [] then w else RunFrom(cfg, Next(cfg, w, events[0]), events[1..])
  }

  lemma RunOfOne(cfg: Config, w: World, e: Event)
    requires Possible(w, e)
    ensures AllPossible(cfg, w, [e]) && RunFrom(cfg, w, [e]) == Next(cfg, w, e)
  {
    var v := Next(cfg, w, e);
    assert [e][1..] == [];
    assert AllPossible(cfg, v, []) && RunFrom(cfg, v, []) == v;
  }

  lemma RunOfTwo(cfg: Config, w: World, e: Event, f: Event)
    requires Possible(w, e) && Possible(Next(cfg, w, e), f)
    ensures AllPossible(cfg, w, [e, f])
    ensures RunFrom(cfg, w, [e, f]) == Next(cfg, Next(cfg, w, e), f)
  {
    assert [e, f][1..] == [f];
    RunOfOne(cfg, Next(cfg, w, e), f);
  }

  ghost predicate Sound(w: World)
  {
    && w.inFlight >= 0
    && (w.b.probeInFlight ==> w.b.state == HalfOpen)
    && (w.b.state != Closed ==> w.b.openedAt.Some?)
  }

  const FRESH: World := World(INITIAL, 0.0, 0)

  lemma {:induction false} RunsStaySound(cfg: Config, w: World, events: seq<Event>)
    requires Sound(w) && AllPossible(cfg, w, events)
    ensures Sound(RunFrom(cfg, w, events))
    ensures (w.b.probeInFlight ==> w.inFlight > 0) && (forall i :: 0 <= i < |events| ==> !events[i].Vanish?) ==>
              (RunFrom(cfg, w, events).b.probeInFlight ==> RunFrom(cfg, w, events).inFlight > 0)
    decreases |events|
  {
    if events != [] {
      RunsStaySound(cfg, Next(cfg, w, events[0]), events[1..]);
    }
  }

  /** Some continuation closes the breaker again. */
  ghost predicate Recoverable(cfg: Config, w: World)
  {
    exists events :: AllPossible(cfg, w, events) && RunFrom(cfg, w, events).b.state == Closed
  }

  /** A probe is marked as running but no admitted call is left to end it. */
  ghost predicate Wedged(w: World)
  {
    w.b.probeInFlight && w.inFlight == 0
  }

  lemma {:induction false} WedgedForever(cfg: Config, w: World, events: seq<Event>)
    requires Sound(w) && Wedged(w) && AllPossible(cfg, w, events)
    ensures Wedged(RunFrom(cfg, w, events)) && RunFrom(cfg, w, events).b.state == HalfOpen
    decreases |events|
  {
    if events != [] {
      WedgedForever(cfg, Next(cfg, w, events[0]), events[1..]);
    }
  }

  /**
   Recovery is possible from exactly the states in which the probe flag is down or some admitted call is still running:
   an exception outside `Exception` skips both record paths, and if it ends the probe the breaker refuses calls for
   ever.
   */
  lemma RecoverableExactlyUnlessWedged(cfg: Config, w: World)
    requires cfg.Valid() && Sound(w)
    ensures Recoverable(cfg, w) <==> !Wedged(w)
  {
    if Wedged(w) {
      forall events | AllPossible(cfg, w, events) ensures RunFrom(cfg, w, events).b.state != Closed {
        WedgedForever(cfg, w, events);
      }
    } else {
      var events: seq<Event>;
      if w.b.state == Closed {
        events := [];
      } else if w.inFlight > 0 {
        events := [Succeed(w.clock, 0)];
        assert events[1..] == [];
        assert RunFrom(cfg, w, events) == Next(cfg, w, Succeed(w.clock, 0));
      } else {
        var retryAt := w.b.openedAt.value + cfg.resetTimeout;
        var t := if retryAt >= w.clock then retryAt else w.clock;
        events := [Arrive(t), Succeed(t, 0)];
        assert Admits(cfg, w.b, t);
        RunOfTwo(cfg, w, Arrive(t), Succeed(t, 0));
      }
      assert AllPossible(cfg, w, events) && RunFrom(cfg, w, events).b.state == Closed;
    }
  }

  /** If every admitted call ends with a return or an `Exception`, every reachable state can recover. */
  lemma RecordedCallsAlwaysRecover(cfg: Config, events: seq<Event>)
    requires cfg.Valid() && AllPossible(cfg, FRESH, events)
    requires forall i :: 0 <= i < |events| ==> !events[i].Vanish?
    ensures Recoverable(cfg, RunFrom(cfg, FRESH, events))
  {
    RunsStaySound(cfg, FRESH, events);
    RecoverableExactlyUnlessWedged(cfg, RunFrom(cfg, FRESH, events));
  }

  /** One abandoned probe is enough to wedge the breaker. */
  lemma AbandonedProbeWedges(cfg: Config, w: World)
    requires cfg.Valid() && Sound(w) && w.inFlight == 0 && w.b.state == HalfOpen && !w.b.probeInFlight
    ensures var events := [Arrive(w.clock), Vanish(w.clock, 0)];
            AllPossible(cfg, w, events) && !Recoverable(cfg, RunFrom(cfg, w, events))
  {
    var events := [Arrive(w.clock), Vanish(w.clock, 0)];
    RunOfTwo(cfg, w, Arrive(w.clock), Vanish(w.clock, 0));
    var stuck := RunFrom(cfg, w, events);
    assert Wedged(stuck) && Sound(stuck);
    RecoverableExactlyUnlessWedged(cfg, stuck);
  }
}
