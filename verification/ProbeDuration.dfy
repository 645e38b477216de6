/** How long calls may last for the breaker to have one probe at a time (backend/reliability/circuit_breaker.py). */
module ProbeDuration {
  import opened Breaker
  import opened BreakerHistory
  import opened ProbeOverlap

  /** Every call that ends does so less than `d` after it arrived. */
  ghost predicate Brief(cfg: Config, log: seq<Event>, d: real)
  {
    forall i, k :: Outstanding(cfg, log, i, k) && k < |log| && log[k].Ends(i) ==> log[k].at - log[i].at < d
  }

  /** At every moment, every running call has lasted at most `d`. */
  ghost predicate Lasting(cfg: Config, log: seq<Event>, d: real)
  {
    forall i, n :: Outstanding(cfg, log, i, n) && n < |log| ==> log[n].at - log[i].at <= d
  }

  /** At no moment are two probes outstanding. */
  ghost predicate OneProbe(cfg: Config, log: seq<Event>)
  {
    forall i, j, n :: i < j && IsProbe(cfg, log, i) && IsProbe(cfg, log, j) && Outstanding(cfg, log, i, n) ==>
      !Outstanding(cfg, log, j, n)
  }

  // ------------------------------------------------- short calls are harmless

  lemma {:induction false} LastFailureIsRecent(log: seq<Event>, n: int, m: int)
    requires Ordered(log) && 0 <= m < n <= |log| && log[m].IsOutcome() && FailureRun(log[..n]) > 0
    ensures LastFailure(log[..n]) >= log[m].at
    decreases n
  {
    assert log[..n][..n - 1] == log[..n - 1];
    if !log[n - 1].IsOutcome() {
      LastFailureIsRecent(log, n - 1, m);
    }
  }

  lemma {:induction false} RunStays(log: seq<Event>, i: int, j: int)
    requires 0 <= i <= j <= |log| && forall k :: i <= k < j ==> !log[k].IsOutcome()
    ensures FailureRun(log[..j]) == FailureRun(log[..i])
    decreases j
  {
    if i < j {
      assert log[..j][..j - 1] == log[..j - 1];
      RunStays(log, i, j - 1);
    }
  }

  /** Between an admission and a later probe the breaker recorded a failure. */
  lemma FailureSince(cfg: Config, log: seq<Event>, c: int, i: int)
    requires cfg.Valid() && Ordered(log) && AdmittedAt(cfg, log, c) && IsProbe(cfg, log, i) && c < i
    ensures LastFailure(log[..i]) >= log[c].at
  {
    if forall k :: c < k < i ==> !log[k].IsOutcome() {
      RunStays(log, c, i);
      OneProbePerEpisode(cfg, log, c, i);
    }
    var m :| c < m < i && log[m].IsOutcome();
    LastFailureIsRecent(log, i, m);
  }

  /** The outcome at `m` is that of a call from before the probe `i`, which lasted a whole reset timeout. */
  ghost predicate IsLongStale(cfg: Config, log: seq<Event>, i: int, m: int)
  {
    && 0 <= i < m < |log| && log[m].IsOutcome()
    && 0 <= log[m].call < i && log[m].at - log[log[m].call].at >= cfg.resetTimeout
  }

  /** If any outcome of another call disturbs a probe, one of a call that lasted a whole reset timeout did. */
  lemma {:induction false} DisturbanceIsLong(cfg: Config, log: seq<Event>, i: int, k: int) returns (m: int)
    requires cfg.Valid() && Ordered(log) && Consistent(cfg, log) && IsProbe(cfg, log, i)
    requires i < k < |log| && Outstanding(cfg, log, i, k) && log[k].IsOutcome() && log[k].call != i
    ensures m <= k && IsLongStale(cfg, log, i, m)
    decreases k
  {
    var c := log[k].call;
    assert log[k].IsEnding() && Outstanding(cfg, log, c, k);
    if c < i {
      m := k;
      FailureSince(cfg, log, c, i);
      NoEarlyAdmission(cfg, log, i);
    } else {
      OverlapNeedsStaleOutcome(cfg, log, i, c);
      var k' :| i < k' < c && log[k'].IsOutcome() && log[k'].call != i && Outstanding(cfg, log, i, k');
      m := DisturbanceIsLong(cfg, log, i, k');
    }
  }

  lemma LongIsNotBrief(cfg: Config, log: seq<Event>, i: int, m: int)
    requires Consistent(cfg, log) && IsLongStale(cfg, log, i, m)
    ensures !Brief(cfg, log, cfg.resetTimeout)
  {
    assert log[m].IsEnding() && Outstanding(cfg, log, log[m].call, m);
  }

  /** Calls shorter than the reset timeout never disturb a probe. */
  lemma BriefCallsDoNotDisturb(cfg: Config, log: seq<Event>)
    requires cfg.Valid() && Ordered(log) && Consistent(cfg, log) && Brief(cfg, log, cfg.resetTimeout)
    ensures Undisturbed(cfg, log)
  {
    forall i, k | IsProbe(cfg, log, i) && i < k < |log| && Outstanding(cfg, log, i, k) && log[k].IsOutcome()
      ensures log[k].call == i
    {
      if log[k].call != i {
        var m := DisturbanceIsLong(cfg, log, i, k);
        LongIsNotBrief(cfg, log, i, m);
      }
    }
  }

  lemma UndisturbedMeansOneProbe(cfg: Config, log: seq<Event>)
    requires cfg.Valid() && Ordered(log) && Undisturbed(cfg, log)
    ensures OneProbe(cfg, log)
  {
    forall i, j, n | i < j && IsProbe(cfg, log, i) && IsProbe(cfg, log, j) && Outstanding(cfg, log, i, n)
      ensures !Outstanding(cfg, log, j, n)
    {
      if Outstanding(cfg, log, j, n) {
        UndisturbedProbesRunAlone(cfg, log, i, j);
      }
    }
  }

  /**
   At a later admission a probe is still outstanding exactly if a call from before it, which lasted a whole reset
   timeout, had its outcome recorded in between and the probe itself did not.
   */
  lemma ProbeIsOvertakenExactlyWhen(cfg: Config, log: seq<Event>, i: int, j: int)
    requires cfg.Valid() && Ordered(log) && Consistent(cfg, log) && NoneVanish(log)
    requires IsProbe(cfg, log, i) && AdmittedAt(cfg, log, j) && i < j
    ensures Outstanding(cfg, log, i, j) <==>
            (exists m :: m < j && IsLongStale(cfg, log, i, m)) && forall k :: i < k < j && log[k].IsOutcome() ==>
              log[k].call != i
  {
    if Outstanding(cfg, log, i, j) {
      OverlapNeedsStaleOutcome(cfg, log, i, j);
      var k :| i < k < j && log[k].IsOutcome() && log[k].call != i && Outstanding(cfg, log, i, k);
      var m := DisturbanceIsLong(cfg, log, i, k);
      assert m < j && IsLongStale(cfg, log, i, m);
      forall k | i < k < j && log[k].IsOutcome() ensures log[k].call != i {
        assert !log[k].Ends(i);
      }
    }
  }

  // ----------------------------------------------- long calls are not

  /** Exactly the calls in `calls` are running, and no call has ever been seen running for more than `d`. */
  ghost predicate Busy(cfg: Config, log: seq<Event>, calls: set<int>, d: real)
  {
    && Ordered(log) && Consistent(cfg, log) && Lasting(cfg, log, d)
    && (forall i :: i in calls <==> Outstanding(cfg, log, i, |log|))
  }

  function CallsAfter(cfg: Config, log: seq<Event>, calls: set<int>, e: Event): set<int>
  {
    if e.IsEnding() then calls - {e.call}
    else if e.Arrive? && Admits(cfg, After(cfg, log), e.at) then calls + {|log|}
    else calls
  }

  lemma EarlierOutstanding(cfg: Config, log: seq<Event>, e: Event, i: int, n: int)
    requires n <= |log|
    ensures Outstanding(cfg, log + [e], i, n) <==> Outstanding(cfg, log, i, n)
  {
    if 0 <= i < |log| {
      SamePrefix(cfg, log, [e], i);
    }
    assert forall m :: 0 <= m < |log| ==> (log + [e])[m] == log[m];
  }

  lemma NowOutstanding(cfg: Config, log: seq<Event>, e: Event, i: int)
    ensures Outstanding(cfg, log + [e], i, |log| + 1) <==>
            (Outstanding(cfg, log, i, |log|) && !e.Ends(i)) ||
            (i == |log| && e.Arrive? && Admits(cfg, After(cfg, log), e.at))
  {
    assert (log + [e])[..|log|] == log;
    if 0 <= i < |log| {
      SamePrefix(cfg, log, [e], i);
    }
    assert forall m :: 0 <= m < |log| ==> (log + [e])[m] == log[m];
    assert (log + [e])[|log|] == e;
  }

  lemma BusyNext(cfg: Config, log: seq<Event>, calls: set<int>, e: Event, d: real)
    requires Busy(cfg, log, calls, d) && (log != [] ==> e.at >= End(log))
    requires e.IsEnding() ==> e.call in calls
    requires forall i :: i in calls ==> e.at - log[i].at <= d
    ensures Busy(cfg, log + [e], CallsAfter(cfg, log, calls, e), d)
  {
    var all := log + [e];
    AppendOrdered(log, e);
    AppendConsistent(cfg, log, e);
    forall i, n | Outstanding(cfg, all, i, n) && n < |all| ensures all[n].at - all[i].at <= d {
      EarlierOutstanding(cfg, log, e, i, n);
    }
    forall i ensures i in CallsAfter(cfg, log, calls, e) <==> Outstanding(cfg, all, i, |all|) {
      NowOutstanding(cfg, log, e, i);
    }
  }

  /** A closed breaker lets a call in, at the time of the last event. */
  lemma ArriveNow(cfg: Config, log: seq<Event>, calls: set<int>, d: real)
    requires cfg.Valid() && d >= 0.0 && log != [] && Busy(cfg, log, calls, d) && !Tripped(cfg, log)
    requires forall i :: i in calls ==> End(log) - log[i].at <= d
    ensures Busy(cfg, log + [Arrive(End(log))], calls + {|log|}, d)
    ensures FailureRun(log + [Arrive(End(log))]) == FailureRun(log)
  {
    var e := Arrive(End(log));
    BusyNext(cfg, log, calls, e, d);
    AppendOrdered(log, e);
    AdmissionRule(cfg, log, End(log));
    RunAfter(log, e);
  }

  lemma FailNow(cfg: Config, log: seq<Event>, calls: set<int>, c: int, d: real)
    requires log != [] && Busy(cfg, log, calls, d) && c in calls && forall i :: i in calls ==> End(log) - log[i].at <= d
    ensures Busy(cfg, log + [Fail(End(log), c)], calls - {c}, d)
    ensures FailureRun(log + [Fail(End(log), c)]) == FailureRun(log) + 1
  {
    BusyNext(cfg, log, calls, Fail(End(log), c), d);
    RunAfter(log, Fail(End(log), c));
  }

  /** Call `c` is running alone, and has lasted no longer than `d` by now. */
  ghost predicate RunsAlone(cfg: Config, log: seq<Event>, c: int, d: real)
  {
    0 <= c < |log| && Busy(cfg, log, {c}, d) && End(log) - log[c].at <= d
  }

  /** A call that ends as it arrives. */
  lemma FailAtOnce(cfg: Config, log: seq<Event>, c: int, d: real) returns (all: seq<Event>)
    requires cfg.Valid() && d >= 0.0 && RunsAlone(cfg, log, c, d) && !Tripped(cfg, log)
    ensures |all| > |log| && all[c] == log[c] && RunsAlone(cfg, all, c, d) && FailureRun(all) == FailureRun(log) + 1
    ensures End(all) == End(log) && all[|all| - 1].Fail?
  {
    var arrived := log + [Arrive(End(log))];
    ArriveNow(cfg, log, {c}, d);
    FailNow(cfg, arrived, {c} + {|log|}, |log|, d);
    assert {c} + {|log|} - {|log|} == {c};
    all := arrived + [Fail(End(log), |log|)];
  }

  /** A closed breaker can be tripped at one instant, by calls that end as they arrive. */
  lemma {:induction false} TripAtOnce(cfg: Config, log: seq<Event>, c: int, d: real, left: nat)
      returns (all: seq<Event>)
    requires cfg.Valid() && d >= 0.0 && RunsAlone(cfg, log, c, d) && FailureRun(log) + left + 1 == cfg.failureThreshold
    ensures |all| > |log| && all[c] == log[c] && RunsAlone(cfg, all, c, d) && FailureRun(all) == cfg.failureThreshold
    ensures End(all) == End(log) && all[|all| - 1].Fail?
    decreases left
  {
    all := FailAtOnce(cfg, log, c, d);
    if left > 0 {
      all := TripAtOnce(cfg, all, c, d, left - 1);
    }
  }

  lemma AdmitsAfterTimeout(cfg: Config, log: seq<Event>)
    requires cfg.Valid() && log != [] && Ordered(log) && Tripped(cfg, log) && log[|log| - 1].Fail?
    ensures Admits(cfg, After(cfg, log), End(log) + cfg.resetTimeout)
  {
    AppendOrdered(log, Arrive(End(log) + cfg.resetTimeout));
    AdmissionRule(cfg, log, End(log) + cfg.resetTimeout);
  }

  /** A tripped breaker, a reset timeout after the last failure, admits a probe. */
  lemma ProbeAfterTimeout(cfg: Config, log: seq<Event>, calls: set<int>, d: real)
    requires cfg.Valid() && log != [] && Busy(cfg, log, calls, d) && Tripped(cfg, log) && log[|log| - 1].Fail?
    requires forall i :: i in calls ==> End(log) + cfg.resetTimeout - log[i].at <= d
    ensures var all := log + [Arrive(End(log) + cfg.resetTimeout)];
            Busy(cfg, all, calls + {|log|}, d) && IsProbe(cfg, all, |log|)
  {
    var e := Arrive(End(log) + cfg.resetTimeout);
    BusyNext(cfg, log, calls, e, d);
    AdmitsAfterTimeout(cfg, log);
    assert (log + [e])[..|log|] == log;
  }

  /**
   A call from before the first probe has ended at the same moment as the probe began: the breaker is tripped again.
   */
  lemma StaleFailure(cfg: Config, log: seq<Event>, calls: set<int>, c: int, d: real)
    requires cfg.Valid() && log != [] && Busy(cfg, log, calls, d) && Tripped(cfg, log) && c in calls
    requires forall i :: i in calls ==> End(log) - log[i].at <= d
    ensures var all := log + [Fail(End(log), c)];
            Busy(cfg, all, calls - {c}, d) && Tripped(cfg, all) && End(all) == End(log)
  {
    FailNow(cfg, log, calls, c, d);
  }

  /** A first call, and enough others that fail at once: the breaker has tripped and the first call still runs. */
  lemma TrippedBesideACall(cfg: Config, d: real) returns (log: seq<Event>)
    requires cfg.Valid() && d >= 0.0
    ensures |log| > 0 && RunsAlone(cfg, log, 0, d) && Tripped(cfg, log) && log[|log| - 1].Fail?
    ensures log[0].at == 0.0 == End(log)
  {
    FirstCallRuns(cfg, d);
    log := TripAtOnce(cfg, [Arrive(0.0)], 0, d, cfg.failureThreshold - 1);
  }

  lemma FirstCallRuns(cfg: Config, d: real)
    requires cfg.Valid() && d >= 0.0
    ensures RunsAlone(cfg, [Arrive(0.0)], 0, d) && FailureRun([Arrive(0.0)]) == 0
  {
    BusyNext(cfg, [], {}, Arrive(0.0), d);
    assert [] + [Arrive(0.0)] == [Arrive(0.0)];
    RunAfter([], Arrive(0.0));
  }

  lemma StaysTripped(cfg: Config, log: seq<Event>, e: Event)
    requires Tripped(cfg, log) && e.Arrive?
    ensures Tripped(cfg, log + [e])
  {
    RunAfter(log, e);
  }

  /** A reset timeout later a probe starts beside the first call. */
  lemma FirstProbeStarts(cfg: Config, log: seq<Event>) returns (all: seq<Event>)
    requires cfg.Valid() && RunsAlone(cfg, log, 0, cfg.resetTimeout) && Tripped(cfg, log) && log[|log| - 1].Fail?
    requires log[0].at == 0.0 == End(log)
    ensures all == log + [Arrive(cfg.resetTimeout)] && Busy(cfg, all, {0} + {|log|}, cfg.resetTimeout)
    ensures IsProbe(cfg, all, |log|) && Tripped(cfg, all) && all[0].at == 0.0
  {
    all := log + [Arrive(cfg.resetTimeout)];
    ProbeAfterTimeout(cfg, log, {0}, cfg.resetTimeout);
    StaysTripped(cfg, log, Arrive(cfg.resetTimeout));
  }

  /** The first call fails beside the probe that has just started. */
  lemma ProbeIsOvertaken(cfg: Config, log: seq<Event>, i: int) returns (all: seq<Event>)
    requires cfg.Valid() && 0 < i == |log| - 1 && Busy(cfg, log, {0} + {i}, cfg.resetTimeout) && Tripped(cfg, log)
    requires IsProbe(cfg, log, i) && log[0].at == 0.0 && log[i].at == cfg.resetTimeout
    ensures i < |all| && RunsAlone(cfg, all, i, cfg.resetTimeout) && Tripped(cfg, all) && all[|all| - 1].Fail?
    ensures IsProbe(cfg, all, i) && End(all) - all[i].at == 0.0
  {
    var e := Fail(cfg.resetTimeout, 0);
    all := log + [e];
    StaleFailure(cfg, log, {0} + {i}, 0, cfg.resetTimeout);
    assert {0} + {i} - {0} == {i};
    SamePrefix(cfg, log, [e], i);
  }

  /** Another reset timeout later the next probe starts, while the first is still out. */
  lemma NextProbeStarts(cfg: Config, log: seq<Event>, i: int) returns (all: seq<Event>)
    requires cfg.Valid() && RunsAlone(cfg, log, i, cfg.resetTimeout) && Tripped(cfg, log) && log[|log| - 1].Fail?
    requires IsProbe(cfg, log, i) && End(log) - log[i].at == 0.0
    ensures Busy(cfg, all, {i} + {|log|}, cfg.resetTimeout) && |all| == |log| + 1
    ensures IsProbe(cfg, all, i) && IsProbe(cfg, all, |log|)
  {
    var e := Arrive(End(log) + cfg.resetTimeout);
    ProbeAfterTimeout(cfg, log, {i}, cfg.resetTimeout);
    all := log + [e];
    SamePrefix(cfg, log, [e], i);
  }

  /**
   Whatever the threshold, two probes can be outstanding at once, and no call need last longer than the reset timeout: a
   call from before the trip that ends a reset timeout later fails beside the first probe and lets the second in.
   */
  lemma TwoProbesCanOverlap(cfg: Config) returns (log: seq<Event>, i: int)
    requires cfg.Valid()
    ensures Ordered(log) && Consistent(cfg, log) && Lasting(cfg, log, cfg.resetTimeout)
    ensures IsProbe(cfg, log, i) && Overlapping(cfg, log, i)
  {
    var tripped := TrippedBesideACall(cfg, cfg.resetTimeout);
    var probing := FirstProbeStarts(cfg, tripped);
    i := |tripped|;
    var overtaken := ProbeIsOvertaken(cfg, probing, i);
    log := NextProbeStarts(cfg, overtaken, i);
    BothRun(cfg, log, i, |overtaken|, cfg.resetTimeout);
  }

  lemma BothRun(cfg: Config, log: seq<Event>, i: int, j: int, d: real)
    requires Busy(cfg, log, {i} + {j}, d) && IsProbe(cfg, log, j) && i < j
    ensures Overlapping(cfg, log, i)
  {
    assert i in {i} + {j} && j in {i} + {j};
  }

  /** In all runs whose calls last at most `d`, at most one probe is outstanding at every moment. */
  ghost predicate AlwaysOneProbe(cfg: Config, d: real)
  {
    forall log :: Ordered(log) && Consistent(cfg, log) && Lasting(cfg, log, d) ==> OneProbe(cfg, log)
  }

  /** "Exactly one probe" holds exactly if calls are bounded by less than the reset timeout. */
  lemma AlwaysOneProbeExactlyWhen(cfg: Config, d: real)
    requires cfg.Valid()
    ensures AlwaysOneProbe(cfg, d) <==> d < cfg.resetTimeout
  {
    if d < cfg.resetTimeout {
      forall log | Ordered(log) && Consistent(cfg, log) && Lasting(cfg, log, d) ensures OneProbe(cfg, log) {
        BriefCallsDoNotDisturb(cfg, log);
        UndisturbedMeansOneProbe(cfg, log);
      }
    } else {
      var log, i := TwoProbesCanOverlap(cfg);
      var j :| i < j && IsProbe(cfg, log, j) && Outstanding(cfg, log, j, |log|);
      assert !OneProbe(cfg, log);
      LastingGrows(cfg, log, cfg.resetTimeout, d);
    }
  }

  lemma LastingGrows(cfg: Config, log: seq<Event>, d: real, e: real)
    requires Lasting(cfg, log, d) && d <= e
    ensures Lasting(cfg, log, e)
  {
  }
}
