/** When two probes of one circuit breaker are outstanding at once (backend/reliability/circuit_breaker.py). */
module ProbeOverlap {
  import opened Breaker
  import opened BreakerHistory

  /** The call admitted at `i` has not ended before `n`. */
  ghost predicate Outstanding(cfg: Config, log: seq<Event>, i: int, n: int)
  {
    AdmittedAt(cfg, log, i) && i < n <= |log| && forall m :: i < m < n ==> !log[m].Ends(i)
  }

  /** Every call that ends was admitted before and has not ended yet. */
  ghost predicate Consistent(cfg: Config, log: seq<Event>)
  {
    forall k {:trigger log[k].IsEnding()} ::
      0 <= k < |log| && log[k].IsEnding() ==> Outstanding(cfg, log, log[k].call, k)
  }

  /** Every call ends in a return or an `Exception`. */
  ghost predicate NoneVanish(log: seq<Event>)
  {
    forall k :: 0 <= k < |log| ==> !log[k].Vanish?
  }

  /** The call admitted at `i` is a probe: the breaker had tripped. */
  ghost predicate IsProbe(cfg: Config, log: seq<Event>, i: int)
  {
    AdmittedAt(cfg, log, i) && Tripped(cfg, log[..i])
  }

  ghost predicate OutcomeBetween(log: seq<Event>, i: int, n: int)
  {
    exists k :: 0 <= i < k < n <= |log| && log[k].IsOutcome()
  }

  lemma SamePrefix(cfg: Config, log: seq<Event>, more: seq<Event>, i: int)
    requires 0 <= i < |log|
    ensures AdmittedAt(cfg, log + more, i) <==> AdmittedAt(cfg, log, i)
    ensures IsProbe(cfg, log + more, i) <==> IsProbe(cfg, log, i)
  {
    assert (log + more)[..i] == log[..i];
  }

  /** A probe that is still outstanding when another is admitted has been overtaken by the outcome of another call. */
  lemma OverlapNeedsStaleOutcome(cfg: Config, log: seq<Event>, i: int, j: int)
    requires cfg.Valid() && Ordered(log) && IsProbe(cfg, log, i) && AdmittedAt(cfg, log, j) && i < j &&
             Outstanding(cfg, log, i, j)
    ensures exists k :: i < k < j && log[k].IsOutcome() && log[k].call != i && Outstanding(cfg, log, i, k)
  {
    OneProbePerEpisode(cfg, log, i, j);
    var k :| i < k < j && log[k].IsOutcome();
    assert !log[k].Ends(i);
  }

  // ------------------------------------------------ what can still happen

  /** The continuation ends only calls that arrive in it. */
  ghost predicate OnlyNewCalls(n: int, more: seq<Event>)
  {
    forall k :: 0 <= k < |more| && more[k].IsEnding() ==> more[k].call >= n
  }

  ghost predicate Continues(cfg: Config, log: seq<Event>, more: seq<Event>)
  {
    Ordered(log + more) && Consistent(cfg, log + more) && OnlyNewCalls(|log|, more)
  }

  /** At the end of the log the probe `i` and a later one are both outstanding. */
  ghost predicate Overlapping(cfg: Config, log: seq<Event>, i: int)
  {
    Outstanding(cfg, log, i, |log|) && exists j :: i < j && IsProbe(cfg, log, j) && Outstanding(cfg, log, j, |log|)
  }

  /** Without any further word from the calls already running, another probe may come to run beside `i`. */
  ghost predicate CanOverlap(cfg: Config, log: seq<Event>, i: int)
  {
    exists more :: Continues(cfg, log, more) && Overlapping(cfg, log + more, i)
  }

  lemma OutcomeSource(cfg: Config, log: seq<Event>, more: seq<Event>, i: int, k: int)
    requires Continues(cfg, log, more) && 0 <= i < |log| && i < k < |log + more| && (log + more)[k].IsOutcome()
    ensures OutcomeBetween(log, i, |log|) || exists m :: i < m < k && AdmittedAt(cfg, log + more, m)
  {
    var all := log + more;
    var m := all[k].call;
    if k < |log| {
      assert log[k].IsOutcome();
    } else {
      assert more[k - |log|] == all[k] && all[k].IsEnding();
      assert i < m < k && AdmittedAt(cfg, all, m);
    }
  }

  /** Nobody is admitted after a probe unless some outcome comes first. */
  lemma NothingAdmitted(cfg: Config, log: seq<Event>, more: seq<Event>, i: int, j: int)
    requires cfg.Valid() && Continues(cfg, log, more) && IsProbe(cfg, log, i) && !OutcomeBetween(log, i, |log|)
    requires i < j < |log + more|
    ensures !AdmittedAt(cfg, log + more, j)
    decreases j
  {
    var all := log + more;
    forall m | i < m < j ensures !AdmittedAt(cfg, all, m) {
      NothingAdmitted(cfg, log, more, i, m);
    }
    forall k | i < k < j ensures !all[k].IsOutcome() {
      if all[k].IsOutcome() {
        OutcomeSource(cfg, log, more, i, k);
      }
    }
    SamePrefix(cfg, log, more, i);
    if AdmittedAt(cfg, all, j) {
      OneProbePerEpisode(cfg, all, i, j);
    }
  }

  // ------------------------------------------------- making it happen

  /**
   The breaker has tripped and a call arrived late enough since the last outcome: the first such is an outstanding
   probe.
   */
  lemma {:induction false} FirstArrivalIsProbe(cfg: Config, log: seq<Event>, n: int) returns (m: int)
    requires cfg.Valid() && Ordered(log) && 0 <= n <= |log| && Tripped(cfg, log[..n])
    requires ArrivedSince(log[..n], LastFailure(log[..n]) + cfg.resetTimeout)
    ensures 0 <= m < n && IsProbe(cfg, log, m) && forall k :: m < k < n ==> !log[k].IsOutcome()
    decreases n
  {
    var retryAt := LastFailure(log[..n]) + cfg.resetTimeout;
    assert log[..n][..n - 1] == log[..n - 1];
    if ArrivedSince(log[..n - 1], retryAt) {
      m := FirstArrivalIsProbe(cfg, log, n - 1);
    } else {
      m := n - 1;
      PrefixIsOrdered(log, n);
      assert log[..n] == log[..m] + [Arrive(log[m].at)];
      AdmissionRule(cfg, log[..m], log[m].at);
    }
  }

  lemma StillOutstanding(cfg: Config, log: seq<Event>, m: int)
    requires NoneVanish(log) && AdmittedAt(cfg, log, m) && forall k :: m < k < |log| ==> !log[k].IsOutcome()
    ensures Outstanding(cfg, log, m, |log|)
  {
  }

  /** When the last event happened. */
  function End(log: seq<Event>): real
  {
    if log == [] then 0.0 else log[|log| - 1].at
  }

  /** All these calls are outstanding at the end of the log. */
  ghost predicate Running(cfg: Config, log: seq<Event>, calls: set<int>)
  {
    forall i :: i in calls ==> Outstanding(cfg, log, i, |log|)
  }

  /** `log` goes on from `start` without a word from the calls that were running then. */
  ghost predicate Extends(cfg: Config, start: seq<Event>, log: seq<Event>)
  {
    && start <= log && Ordered(log) && Consistent(cfg, log)
    && forall k :: |start| <= k < |log| && log[k].IsEnding() ==> log[k].call >= |start|
  }

  lemma AppendOrdered(log: seq<Event>, e: Event)
    requires Ordered(log) && (log != [] ==> e.at >= End(log))
    ensures Ordered(log + [e])
  {
  }

  lemma AppendConsistent(cfg: Config, log: seq<Event>, e: Event)
    requires Consistent(cfg, log)
    requires e.IsEnding() ==> Outstanding(cfg, log, e.call, |log|)
    ensures Consistent(cfg, log + [e])
  {
    var all := log + [e];
    forall k | 0 <= k < |all| && all[k].IsEnding() ensures Outstanding(cfg, all, all[k].call, k) {
      var i := all[k].call;
      assert k < |log| ==> log[k].IsEnding();
      assert Outstanding(cfg, log, i, k);
      SamePrefix(cfg, log, [e], i);
    }
  }

  lemma AppendRunning(cfg: Config, log: seq<Event>, e: Event, calls: set<int>)
    requires Running(cfg, log, calls) && (e.IsEnding() ==> e.call !in calls)
    ensures Running(cfg, log + [e], calls)
  {
    forall i | i in calls ensures Outstanding(cfg, log + [e], i, |log| + 1) {
      assert Outstanding(cfg, log, i, |log|);
      SamePrefix(cfg, log, [e], i);
    }
  }

  lemma AppendExtends(cfg: Config, start: seq<Event>, log: seq<Event>, e: Event)
    requires Extends(cfg, start, log) && Ordered(log + [e]) && Consistent(cfg, log + [e]) &&
             (e.IsEnding() ==> e.call >= |start|)
    ensures Extends(cfg, start, log + [e])
  {
    assert start <= log + [e];
    forall k | |start| <= k < |log + [e]| && (log + [e])[k].IsEnding() ensures (log + [e])[k].call >= |start| {
      assert k < |log| ==> log[k].IsEnding();
    }
  }

  lemma RunAfter(log: seq<Event>, e: Event)
    ensures FailureRun(log + [e]) == if e.Fail? then FailureRun(log) + 1 else if e.Succeed? then 0 else FailureRun(log)
    ensures (log + [e])[..|log|] == log
  {
    assert (log + [e])[..|log|] == log;
  }

  /** One more event. */
  lemma GoOn(cfg: Config, start: seq<Event>, log: seq<Event>, e: Event, calls: set<int>)
    requires Extends(cfg, start, log) && Running(cfg, log, calls) && (log != [] ==> e.at >= End(log))
    requires e.IsEnding() ==> e.call !in calls && e.call >= |start| && Outstanding(cfg, log, e.call, |log|)
    ensures Extends(cfg, start, log + [e]) && Running(cfg, log + [e], calls)
    ensures FailureRun(log + [e]) == if e.Fail? then FailureRun(log) + 1 else if e.Succeed? then 0 else FailureRun(log)
    ensures (log + [e])[..|log|] == log
  {
    AppendOrdered(log, e);
    AppendConsistent(cfg, log, e);
    AppendRunning(cfg, log, e, calls);
    AppendExtends(cfg, start, log, e);
    RunAfter(log, e);
  }

  lemma ArrivalRuns(cfg: Config, log: seq<Event>, t: real)
    requires Admits(cfg, After(cfg, log), t)
    ensures Outstanding(cfg, log + [Arrive(t)], |log|, |log| + 1)
  {
    assert (log + [Arrive(t)])[..|log|] == log;
  }

  /** A new call of a closed breaker fails. */
  lemma FailOnce(cfg: Config, start: seq<Event>, log: seq<Event>, calls: set<int>) returns (all: seq<Event>)
    requires cfg.Valid() && Extends(cfg, start, log) && Running(cfg, log, calls) && !Tripped(cfg, log)
    ensures Extends(cfg, start, all) && Running(cfg, all, calls) && |all| > |log|
    ensures FailureRun(all) == FailureRun(log) + 1 && all[|all| - 1].Fail?
  {
    var t, c := End(log), |log|;
    GoOn(cfg, start, log, Arrive(t), calls);
    AdmissionRule(cfg, log, t);
    ArrivalRuns(cfg, log, t);
    assert c !in calls by {
      assert c in calls ==> Outstanding(cfg, log, c, |log|);
    }
    var arrived := log + [Arrive(t)];
    GoOn(cfg, start, arrived, Fail(t, c), calls);
    all := arrived + [Fail(t, c)];
  }

  /** A closed breaker can be tripped by new calls alone. */
  lemma {:induction false} NewCallsCanTrip(cfg: Config, start: seq<Event>, log: seq<Event>, calls: set<int>)
      returns (all: seq<Event>)
    requires cfg.Valid() && Extends(cfg, start, log) && Running(cfg, log, calls) && !Tripped(cfg, log)
    ensures Extends(cfg, start, all) && Running(cfg, all, calls) && |all| > |log|
    ensures Tripped(cfg, all) && all[|all| - 1].Fail?
    decreases cfg.failureThreshold - FailureRun(log)
  {
    all := FailOnce(cfg, start, log, calls);
    if !Tripped(cfg, all) {
      all := NewCallsCanTrip(cfg, start, all, calls);
    }
  }

  /** A tripped breaker admits another probe after the reset timeout, if nobody came in time since the last outcome. */
  lemma NextProbeComes(cfg: Config, start: seq<Event>, log: seq<Event>, calls: set<int>) returns (all: seq<Event>)
    requires cfg.Valid() && Extends(cfg, start, log) && Running(cfg, log, calls) && Tripped(cfg, log)
    requires !ArrivedSince(log, LastFailure(log) + cfg.resetTimeout)
    ensures Extends(cfg, start, all) && Running(cfg, all, calls)
    ensures |all| == |log| + 1 && all[..|log|] == log && all[|log|].Arrive?
    ensures IsProbe(cfg, all, |log|) && Outstanding(cfg, all, |log|, |all|)
  {
    var retryAt := LastFailure(log) + cfg.resetTimeout;
    var t := if log != [] && End(log) > retryAt then End(log) else retryAt;
    GoOn(cfg, start, log, Arrive(t), calls);
    AdmissionRule(cfg, log, t);
    ArrivalRuns(cfg, log, t);
    all := log + [Arrive(t)];
  }

  lemma ExtensionContinues(cfg: Config, start: seq<Event>, log: seq<Event>)
    requires Extends(cfg, start, log)
    ensures start + log[|start|..] == log && Continues(cfg, start, log[|start|..])
  {
    var more := log[|start|..];
    assert start + more == log;
    forall k | 0 <= k < |more| && more[k].IsEnding() ensures more[k].call >= |start| {
      assert more[k] == log[|start| + k];
    }
  }

  lemma OverlapShown(cfg: Config, log: seq<Event>, all: seq<Event>, i: int, j: int)
    requires Extends(cfg, log, all) && Running(cfg, all, {i, j}) && i < j && IsProbe(cfg, all, j)
    ensures CanOverlap(cfg, log, i)
  {
    ExtensionContinues(cfg, log, all);
    assert Overlapping(cfg, log + all[|log|..], i);
  }

  /** A tripped breaker, whether or not a second probe is already running. */
  lemma OverlapComesTripped(cfg: Config, start: seq<Event>, log: seq<Event>, i: int)
    requires cfg.Valid() && Extends(cfg, start, log) && Running(cfg, log, {i}) && Tripped(cfg, log) && NoneVanish(log)
    requires OutcomeBetween(log, i, |log|)
    ensures CanOverlap(cfg, start, i)
  {
    assert log[..|log|] == log;
    if ArrivedSince(log, LastFailure(log) + cfg.resetTimeout) {
      var j := FirstArrivalIsProbe(cfg, log, |log|);
      StillOutstanding(cfg, log, j);
      OverlapShown(cfg, start, log, i, j);
    } else {
      var all := NextProbeComes(cfg, start, log, {i});
      OverlapShown(cfg, start, all, i, |log|);
    }
  }

  lemma OverlapComes(cfg: Config, log: seq<Event>, i: int)
    requires cfg.Valid() && Ordered(log) && Consistent(cfg, log) && NoneVanish(log)
    requires Outstanding(cfg, log, i, |log|) && OutcomeBetween(log, i, |log|)
    ensures CanOverlap(cfg, log, i)
  {
    if Tripped(cfg, log) {
      OverlapComesTripped(cfg, log, log, i);
    } else {
      var tripped := NewCallsCanTrip(cfg, log, log, {i});
      var all := NextProbeComes(cfg, log, tripped, {i});
      OverlapShown(cfg, log, all, i, |tripped|);
    }
  }

  /**
   While a probe runs, another can come to run beside it, with no further word from the calls already running, exactly
   if the outcome of another call was recorded since the probe was admitted.
   */
  lemma CanOverlapExactlyWhen(cfg: Config, log: seq<Event>, i: int)
    requires cfg.Valid() && Ordered(log) && Consistent(cfg, log) && NoneVanish(log)
    requires IsProbe(cfg, log, i) && Outstanding(cfg, log, i, |log|)
    ensures CanOverlap(cfg, log, i) <==> exists k :: i < k < |log| && log[k].IsOutcome() && log[k].call != i
  {
    assert OutcomeBetween(log, i, |log|) <==> exists k :: i < k < |log| && log[k].IsOutcome() && log[k].call != i by {
      forall k | i < k < |log| && log[k].IsOutcome() ensures log[k].call != i {
        assert !log[k].Ends(i);
      }
    }
    if OutcomeBetween(log, i, |log|) {
      OverlapComes(cfg, log, i);
    } else {
      forall more | Continues(cfg, log, more) ensures !Overlapping(cfg, log + more, i) {
        forall j | i < j < |log + more| ensures !AdmittedAt(cfg, log + more, j) {
          NothingAdmitted(cfg, log, more, i, j);
        }
      }
    }
  }

  /** No outcome of another call is ever recorded while a probe runs. */
  ghost predicate Undisturbed(cfg: Config, log: seq<Event>)
  {
    forall i, k :: IsProbe(cfg, log, i) && i < k < |log| && Outstanding(cfg, log, i, k) && log[k].IsOutcome() ==>
      log[k].call == i
  }

  /** In such a run at most one probe is outstanding at any time. */
  lemma UndisturbedProbesRunAlone(cfg: Config, log: seq<Event>, i: int, j: int)
    requires cfg.Valid() && Ordered(log) && Undisturbed(cfg, log)
    requires IsProbe(cfg, log, i) && i < j && Outstanding(cfg, log, i, j)
    ensures !AdmittedAt(cfg, log, j)
  {
    if AdmittedAt(cfg, log, j) {
      OverlapNeedsStaleOutcome(cfg, log, i, j);
    }
  }

  /** And only in such runs is a second probe ruled out at every moment. */
  lemma SingleProbeExactlyWhenUndisturbed(cfg: Config, log: seq<Event>)
    requires cfg.Valid() && Ordered(log) && Consistent(cfg, log) && NoneVanish(log)
    ensures Undisturbed(cfg, log) <==>
            forall i, n :: IsProbe(cfg, log, i) && Outstanding(cfg, log, i, n) ==> !CanOverlap(cfg, log[..n], i)
  {
    if Undisturbed(cfg, log) {
      forall i, n | IsProbe(cfg, log, i) && Outstanding(cfg, log, i, n) ensures !CanOverlap(cfg, log[..n], i) {
        UndisturbedSoFar(cfg, log, i, n);
      }
    } else {
      var i, k :| IsProbe(cfg, log, i) && i < k < |log| && Outstanding(cfg, log, i, k) && log[k].IsOutcome() &&
                  log[k].call != i;
      DisturbedCanOverlap(cfg, log, i, k);
      assert Outstanding(cfg, log, i, k + 1);
    }
  }

  lemma DisturbedCanOverlap(cfg: Config, log: seq<Event>, i: int, k: int)
    requires cfg.Valid() && Ordered(log) && Consistent(cfg, log) && NoneVanish(log)
    requires IsProbe(cfg, log, i) && i < k < |log| && Outstanding(cfg, log, i, k) && log[k].IsOutcome() &&
             log[k].call != i
    ensures Outstanding(cfg, log, i, k + 1) && CanOverlap(cfg, log[..k + 1], i)
  {
    assert Outstanding(cfg, log, i, k + 1);
    PrefixOfRun(cfg, log, i, k + 1);
    assert log[..k + 1][k] == log[k];
    CanOverlapExactlyWhen(cfg, log[..k + 1], i);
  }

  lemma UndisturbedSoFar(cfg: Config, log: seq<Event>, i: int, n: int)
    requires cfg.Valid() && Ordered(log) && Consistent(cfg, log) && NoneVanish(log) && Undisturbed(cfg, log)
    requires IsProbe(cfg, log, i) && Outstanding(cfg, log, i, n)
    ensures !CanOverlap(cfg, log[..n], i)
  {
    var p := log[..n];
    PrefixOfRun(cfg, log, i, n);
    CanOverlapExactlyWhen(cfg, p, i);
    forall k | i < k < n && p[k].IsOutcome() ensures p[k].call == i {
      assert p[k] == log[k] && Outstanding(cfg, log, i, k);
    }
  }

  lemma PrefixOfRun(cfg: Config, log: seq<Event>, i: int, n: int)
    requires Ordered(log) && Consistent(cfg, log) && NoneVanish(log) && IsProbe(cfg, log, i) &&
             Outstanding(cfg, log, i, n)
    ensures var p := log[..n];
            Ordered(p) && Consistent(cfg, p) && NoneVanish(p) && IsProbe(cfg, p, i) && Outstanding(cfg, p, i, |p|)
  {
    var p := log[..n];
    assert p + log[n..] == log;
    SamePrefix(cfg, p, log[n..], i);
    forall k | 0 <= k < |p| && p[k].IsEnding() ensures Outstanding(cfg, p, p[k].call, k) {
      assert Outstanding(cfg, log, log[k].call, k);
      SamePrefix(cfg, p, log[n..], p[k].call);
    }
  }
}
