/** Without faults the Redis queue is the in-memory queue, each call taking effect at its SET. */
module QueueRefinement {
  import opened InMemoryQueue
  import Redis = RedisQueue

  /** One call: who, what, and the answer. */
  datatype Served = Served(caller: int, event: Event, enqueued: bool)

  /** Calls in the order they take effect. */
  datatype Log = Nothing | Then(before: Log, last: Served)

  /** Every reply arrives and no key expires. */
  ghost predicate FaultFree(steps: seq<Redis.Step>)
  {
    forall i :: 0 <= i < |steps| ==> steps[i].Arrive? || steps[i].SetAcked? || steps[i].PushAcked?
  }

  function ServedNow(w: Redis.World, c: int): Served
    requires 0 <= c < |w.callers|
  {
    Served(c, w.callers[c].event, w.callers[c].event.deliveryId !in w.live)
  }

  /** The calls a run serves, in the order of their SETs. */
  function Serving(maxAttempts: int, steps: seq<Redis.Step>): Log
    requires Redis.After(maxAttempts, Redis.START, steps).Some?
    decreases |steps|
  {
    if steps == [] then Nothing else
      var before, last := steps[..|steps| - 1], steps[|steps| - 1];
      var log := Serving(maxAttempts, before);
      if last.SetAcked? then Then(log, ServedNow(Redis.After(maxAttempts, Redis.START, before).value, last.c)) else log
  }

  function Events(log: Log): seq<Event>
  {
    match log
    case Nothing => []
    case Then(before, last) => Events(before) + [last.event]
  }

  /** The calls answered `enqueued`, in order. */
  function Winners(log: Log): Log
  {
    match log
    case Nothing => Nothing
    case Then(before, last) => if last.enqueued then Then(Winners(before), last) else Winners(before)
  }

  function CallersOf(log: Log): multiset<int>
  {
    match log
    case Nothing => multiset{}
    case Then(before, last) => CallersOf(before) + multiset{last.caller}
  }

  predicate Contains(log: Log, x: Served)
  {
    log.Then? && (log.last == x || Contains(log.before, x))
  }

  /** The in-memory queue after the same calls, in that order. */
  function InMemory(log: Log): Contents
  {
    After(Events(log))
  }

  lemma InMemoryStep(before: Log, x: Served)
    ensures InMemory(Then(before, x)) == Enqueued(InMemory(before), x.event)
  {
    var events := Events(before) + [x.event];
    assert events[..|events| - 1] == Events(before);
  }

  /** Every answer is the one the in-memory queue gives after the calls before it. */
  ghost predicate SameAnswers(log: Log)
  {
    match log
    case Nothing => true
    case Then(before, last) =>
      SameAnswers(before) && (last.enqueued <==> last.event.deliveryId !in InMemory(before).seen)
  }

  lemma {:induction false} JobsAreTheWinners(log: Log)
    requires SameAnswers(log)
    ensures InMemory(log).jobs == Events(Winners(log))
  {
    match log
    case Nothing =>
    case Then(before, last) =>
      JobsAreTheWinners(before);
      InMemoryStep(before, last);
  }

  predicate HasWon(w: Redis.World, c: int)
  {
    Redis.IsCaller(w, c, Redis.Pushing) || Redis.IsCaller(w, c, Redis.Finished(true))
  }

  predicate HasSet(w: Redis.World, c: int)
  {
    0 <= c < |w.callers| && w.callers[c].phase != Redis.Setting
  }

  /** `served` counts the callers past their SET, `won` those that created the key. */
  ghost predicate Counts(w: Redis.World, served: multiset<int>, won: multiset<int>)
  {
    && (forall c :: served[c] == if HasSet(w, c) then 1 else 0)
    && (forall c :: won[c] == if HasWon(w, c) then 1 else 0)
    && (forall c :: w.jobs[c] == if Redis.IsCaller(w, c, Redis.Finished(true)) then 1 else 0)
  }

  /** A served call has its caller's event and the answer that caller gets. */
  ghost predicate Matches(w: Redis.World, x: Served)
  {
    0 <= x.caller < |w.callers| && w.callers[x.caller].event == x.event && (x.enqueued <==> HasWon(w, x.caller))
  }

  /** The Redis world `w` stands for the in-memory queue after the calls in `log`. */
  ghost predicate Refines(w: Redis.World, log: Log)
  {
    && w.live == InMemory(log).seen
    && SameAnswers(log)
    && Counts(w, CallersOf(log), CallersOf(Winners(log)))
    && (forall x :: Contains(log, x) ==> Matches(w, x))
  }

  lemma {:induction false} ServedIsCounted(log: Log, x: Served)
    requires Contains(log, x)
    ensures CallersOf(log)[x.caller] > 0
  {
    if log.last != x {
      ServedIsCounted(log.before, x);
    }
  }

  lemma ServeOneCounts(maxAttempts: int, w: Redis.World, c: int, served: multiset<int>, won: multiset<int>)
    requires Counts(w, served, won) && Redis.IsCaller(w, c, Redis.Setting)
    ensures Counts(Redis.Next(maxAttempts, w, Redis.SetAcked(c)), served + multiset{c},
                   if ServedNow(w, c).enqueued then won + multiset{c} else won)
  {
  }

  lemma OthersStillMatch(maxAttempts: int, w: Redis.World, s: Redis.Step, x: Served)
    requires Redis.Enabled(w, s) && Matches(w, x) && (s.Arrive? || s.PushAcked? || (s.SetAcked? && s.c != x.caller))
    ensures Matches(Redis.Next(maxAttempts, w, s), x)
  {
  }

  lemma ServeOneKeys(maxAttempts: int, w: Redis.World, log: Log, c: int)
    requires w.live == InMemory(log).seen && Redis.IsCaller(w, c, Redis.Setting)
    ensures Redis.Next(maxAttempts, w, Redis.SetAcked(c)).live == InMemory(Then(log, ServedNow(w, c))).seen
    ensures Matches(Redis.Next(maxAttempts, w, Redis.SetAcked(c)), ServedNow(w, c))
  {
    InMemoryStep(log, ServedNow(w, c));
  }

  lemma ServeOne(maxAttempts: int, w: Redis.World, log: Log, c: int)
    requires Refines(w, log) && Redis.IsCaller(w, c, Redis.Setting)
    ensures Refines(Redis.Next(maxAttempts, w, Redis.SetAcked(c)), Then(log, ServedNow(w, c)))
  {
    var x := ServedNow(w, c);
    var v := Redis.Next(maxAttempts, w, Redis.SetAcked(c));
    ServeOneKeys(maxAttempts, w, log, c);
    ServeOneCounts(maxAttempts, w, c, CallersOf(log), CallersOf(Winners(log)));
    forall y | Contains(Then(log, x), y) ensures Matches(v, y) {
      if y != x {
        ServedIsCounted(log, y);
        OthersStillMatch(maxAttempts, w, Redis.SetAcked(c), y);
      }
    }
  }

  lemma StepOneCounts(maxAttempts: int, w: Redis.World, s: Redis.Step, served: multiset<int>, won: multiset<int>)
    requires Counts(w, served, won) && Redis.Enabled(w, s) && (s.Arrive? || s.PushAcked?)
    ensures Counts(Redis.Next(maxAttempts, w, s), served, won)
  {
  }

  lemma StepOne(maxAttempts: int, w: Redis.World, log: Log, s: Redis.Step)
    requires Refines(w, log) && Redis.Enabled(w, s) && (s.Arrive? || s.PushAcked?)
    ensures Refines(Redis.Next(maxAttempts, w, s), log)
  {
    StepOneCounts(maxAttempts, w, s, CallersOf(log), CallersOf(Winners(log)));
    forall x | Contains(log, x) ensures Matches(Redis.Next(maxAttempts, w, s), x) {
      OthersStillMatch(maxAttempts, w, s, x);
    }
  }

  lemma EmptyQueuesMatch()
    ensures Refines(Redis.START, Nothing)
  {
  }

  /**
   In a fault-free run, whatever the interleaving, the calls in the order of their SETs get exactly the answers the
   in-memory queue gives that sequence of events, and the same delivery ids have been seen.
   */
  lemma {:induction false} FaultFreeRunsRefine(maxAttempts: int, steps: seq<Redis.Step>)
    requires Redis.After(maxAttempts, Redis.START, steps).Some? && FaultFree(steps)
    ensures Refines(Redis.After(maxAttempts, Redis.START, steps).value, Serving(maxAttempts, steps))
    decreases |steps|
  {
    if steps == [] {
      EmptyQueuesMatch();
    } else {
      var before, last := steps[..|steps| - 1], steps[|steps| - 1];
      FaultFreeRunsRefine(maxAttempts, before);
      var w := Redis.After(maxAttempts, Redis.START, before).value;
      if last.SetAcked? {
        ServeOne(maxAttempts, w, Serving(maxAttempts, before), last.c);
      } else {
        StepOne(maxAttempts, w, Serving(maxAttempts, before), last);
      }
    }
  }

  /**
   Once every call of a fault-free run has finished, the jobs in ARQ are those of the in-memory queue: one from each
   caller answered `enqueued`, carrying that caller's event.
   */
  lemma FinishedRunsHoldTheSameJobs(maxAttempts: int, steps: seq<Redis.Step>)
    requires Redis.After(maxAttempts, Redis.START, steps).Some? && FaultFree(steps)
    requires var w := Redis.After(maxAttempts, Redis.START, steps).value;
             forall c :: 0 <= c < |w.callers| ==> w.callers[c].phase.Finished?
    ensures var w, log := Redis.After(maxAttempts, Redis.START, steps).value, Serving(maxAttempts, steps);
            && w.jobs == CallersOf(Winners(log))
            && InMemory(log).jobs == Events(Winners(log))
  {
    var w, log := Redis.After(maxAttempts, Redis.START, steps).value, Serving(maxAttempts, steps);
    FaultFreeRunsRefine(maxAttempts, steps);
    JobsAreTheWinners(log);
    SameJobs(w, CallersOf(log), CallersOf(Winners(log)));
  }

  lemma SameJobs(w: Redis.World, served: multiset<int>, won: multiset<int>)
    requires Counts(w, served, won)
    requires forall c :: 0 <= c < |w.callers| ==> w.callers[c].phase.Finished?
    ensures w.jobs == won
  {
    forall c ensures w.jobs[c] == won[c] {
      assert HasWon(w, c) <==> Redis.IsCaller(w, c, Redis.Finished(true));
    }
  }
}
