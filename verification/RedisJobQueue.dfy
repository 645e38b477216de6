/** The Redis queue's own code, as one caller runs it (backend/job_queue/redis_arq.py, `enqueue`). */
module RedisClient {
  import opened Text
  import Retry
  import Breaker
  import opened ReliableCalls
  import InMemoryQueue
  import opened RedisQueue
  import opened WireEffects

  /** What `enqueue` ends with: an answer, or an exception. */
  datatype Answer = Answered(enqueued: bool) | Raised

  lemma OneMore(maxAttempts: int, w: World, steps: seq<Step>, s: Step)
    requires After(maxAttempts, w, steps).Some? && Enabled(After(maxAttempts, w, steps).value, s)
    ensures After(maxAttempts, w, steps + [s]) == Some(Next(maxAttempts, After(maxAttempts, w, steps).value, s))
  {
    assert (steps + [s])[..|steps|] == steps;
  }

  /** Some run of steps leads from `w` to `v`. */
  ghost predicate Reaches(maxAttempts: int, w: World, v: World)
  {
    exists steps :: After(maxAttempts, w, steps) == Some(v)
  }

  lemma ReachesItself(maxAttempts: int, w: World)
    ensures Reaches(maxAttempts, w, w)
  {
    assert After(maxAttempts, w, []) == Some(w);
  }

  lemma ReachesByStep(maxAttempts: int, u: World, w: World, s: Step)
    requires Reaches(maxAttempts, u, w) && Enabled(w, s)
    ensures Reaches(maxAttempts, u, Next(maxAttempts, w, s))
  {
    var steps :| After(maxAttempts, u, steps) == Some(w);
    OneMore(maxAttempts, u, steps, s);
  }

  /** Every step of the protocol keeps the property. */
  ghost predicate KeptBySteps(maxAttempts: int, kept: World -> bool)
  {
    forall w, s :: kept(w) && Enabled(w, s) ==> kept(Next(maxAttempts, w, s))
  }

  lemma ReachesIsKept(maxAttempts: int, u: World)
    ensures KeptBySteps(maxAttempts, v => Reaches(maxAttempts, u, v))
  {
    forall w, s | Reaches(maxAttempts, u, w) && Enabled(w, s) ensures Reaches(maxAttempts, u, Next(maxAttempts, w, s)) {
      ReachesByStep(maxAttempts, u, w, s);
    }
  }

  /**
   Jobs one call leaves for its delivery if nobody else touches the key meanwhile; `free` says the key does not exist.
   */
  function JobsLeft(cfg: Breaker.Config, p: Retry.Policy, b: Breaker.Fields, free: bool, setScript: int -> Wire,
      pushScript: int -> Wire): nat
  {
    var keyed := Performed(cfg, p, b, setScript, 1);
    if free && keyed.fate == Acked && keyed.effects == 1 then Performed(cfg, p, keyed.after, pushScript, 1).effects
      else 0
  }

  /** The SET is acknowledged, and no attempt before that took effect unanswered. */
  ghost predicate KeyIsWon(cfg: Breaker.Config, p: Retry.Policy, b: Breaker.Fields, script: int -> Wire)
  {
    Tried(cfg, p, b, script, 1).1.Returned? && forall i :: !UnansweredEffect(cfg, p, b, script, i)
  }

  lemma WonExactlyWhen(cfg: Breaker.Config, p: Retry.Policy, b: Breaker.Fields, script: int -> Wire)
    requires p.Valid()
    ensures var o := Performed(cfg, p, b, script, 1);
            o.fate == Acked && o.effects == 1 <==> KeyIsWon(cfg, p, b, script)
  {
    PerformedIsCallReliably(cfg, p, b, script, 1);
    TwiceExactlyWhen(cfg, p, b, script);
    OnceExactlyWhen(cfg, p, b, script);
    TriedIsRetried(cfg, p, b, script, 1);
  }

  /**
   How many jobs a call leaves, read off the wire: any at all exactly if the key was free, the SET was acknowledged with
   no unanswered effect before, and some push took effect; two or more exactly if moreover an unanswered effective push
   was followed by another effective one. Exactly-once is the first without the second.
   */
  lemma JobsLeftExactlyWhen(cfg: Breaker.Config, p: Retry.Policy, b: Breaker.Fields, free: bool,
      setScript: int -> Wire, pushScript: int -> Wire)
    requires p.Valid()
    ensures var jobs := JobsLeft(cfg, p, b, free, setScript, pushScript);
            var b1 := Tried(cfg, p, b, setScript, 1).0;
            var stop := StopOf(cfg, p, b1, pushScript);
            var won := free && KeyIsWon(cfg, p, b, setScript);
            var pushed := EffectAt(cfg, b1, pushScript, stop) == Now ||
                          exists i :: UnansweredEffect(cfg, p, b1, pushScript, i);
            var pushedTwice := exists i, j ::
              UnansweredEffect(cfg, p, b1, pushScript, i) && i < j <= stop && EffectAt(cfg, b1, pushScript, j) == Now;
            && (jobs >= 1 <==> won && pushed)
            && (jobs >= 2 <==> won && pushedTwice)
  {
    var b1 := Tried(cfg, p, b, setScript, 1).0;
    WonExactlyWhen(cfg, p, b, setScript);
    PerformedIsCallReliably(cfg, p, b, setScript, 1);
    PerformedIsCallReliably(cfg, p, b1, pushScript, 1);
    OnceExactlyWhen(cfg, p, b1, pushScript);
    TwiceExactlyWhen(cfg, p, b1, pushScript);
  }

  /**
   Either way of failing exactly-once needs one lost reply: of a SET, and the delivery is gone; of a push, and it is
   queued twice.
   */
  lemma OneLostReplyIsEnough(cfg: Breaker.Config, p: Retry.Policy, t: real, pause: real)
    requires cfg.Valid() && p.Valid() && p.maxAttempts >= 2 && (cfg.failureThreshold >= 2 || pause >= cfg.resetTimeout)
    ensures JobsLeft(cfg, p, Breaker.INITIAL, true, AlwaysAcked(t), AlwaysAcked(t)) == 1
    ensures JobsLeft(cfg, p, Breaker.INITIAL, true, LostThenAcked(t, pause), AlwaysAcked(t)) == 0
    ensures JobsLeft(cfg, p, Breaker.INITIAL, true, AlwaysAcked(t), LostThenAcked(t, pause)) == 2
  {
    LostThenAckedHappensTwice(cfg, p, t, pause);
    AlwaysAckedHappensOnce(cfg, p, t);
    PerformedIsCallReliably(cfg, p, Breaker.INITIAL, AlwaysAcked(t), 1);
    PerformedIsCallReliably(cfg, p, Breaker.INITIAL, LostThenAcked(t, pause), 1);
  }

  lemma OneMoreJob(jobs: multiset<int>, c: int, n: nat)
    ensures jobs[c := jobs[c] + n] + multiset{c} == jobs[c := jobs[c] + (n + 1)]
  {
  }

  class RedisJobQueue {
    const policy: Retry.Policy
    const breaker: Breaker.CircuitBreaker
    var world: World

    constructor (policy: Retry.Policy, breaker: Breaker.CircuitBreaker)
      ensures this.policy == policy && this.breaker == breaker && world == START
    {
      this.policy, this.breaker, world := policy, breaker, START;
    }

    /** One step of the protocol. */
    method Take(s: Step)
      requires Enabled(world, s)
      modifies this`world
      ensures world == Next(policy.maxAttempts, old(world), s)
    {
      world := Next(policy.maxAttempts, world, s);
    }

    /** One SET NX of caller `c`, through the breaker; `kept` is anything the protocol's steps keep. */
    method TrySet(c: int, a: Wire, ghost kept: World -> bool) returns (fate: Fate, newlySet: bool)
      requires IsCaller(world, c, Setting) && KeptBySteps(policy.maxAttempts, kept) && kept(world)
      modifies this`world, breaker
      ensures fate == FateOf(breaker.config, old(breaker.Now()), a)
      ensures breaker.Now() == AfterAttempt(breaker.config, old(breaker.Now()), a)
      ensures kept(world) && world.jobs == old(world.jobs)
      ensures var u := old(world.callers[c]);
              && newlySet == (fate == Acked && u.event.deliveryId !in old(world.live))
              && world.live == (if EffectOf(breaker.config, old(breaker.Now()), a) == Effect.Now
                                then old(world.live) + {u.event.deliveryId} else old(world.live))
              && 0 <= c < |world.callers| && world.callers[c].event == u.event
              && (fate == Retried && u.tried + 1 < policy.maxAttempts ==>
                    world.callers[c].phase == Setting && world.callers[c].tried == u.tried + 1)
              && (!(fate == Retried && u.tried + 1 < policy.maxAttempts) ==>
                    world.callers[c].phase == if fate != Acked then Failed else if newlySet then Pushing
                      else Finished(false))
              && (newlySet ==> world.callers[c].tried == 0)
    {
      var u := world.callers[c];
      var admitted := breaker.Call(a.enteredAt, EndingOf(a.outcome), a.endedAt);
      if !admitted {
        Take(GiveUp(c));
        return Ended, false;
      }
      match a.outcome {
        case Returned(_) =>
          newlySet := u.event.deliveryId !in world.live;
          Take(SetAcked(c));
          return Acked, newlySet;
        case Raised(kind, effect) =>
          Take(SetLost(c, effect));
          if kind != Retry.Transient && world.callers[c].phase != Failed {
            Take(GiveUp(c));
          }
          return if kind == Retry.Transient then Retried else Ended, false;
      }
    }

    /** One attempt of caller `c` to hand its job to ARQ, through the breaker. */
    method TryPush(c: int, a: Wire, ghost kept: World -> bool) returns (fate: Fate)
      requires IsCaller(world, c, Pushing) && KeptBySteps(policy.maxAttempts, kept) && kept(world)
      modifies this`world, breaker
      ensures fate == FateOf(breaker.config, old(breaker.Now()), a)
      ensures breaker.Now() == AfterAttempt(breaker.config, old(breaker.Now()), a)
      ensures kept(world) && world.live == old(world.live)
      ensures world.jobs == if EffectOf(breaker.config, old(breaker.Now()), a) == Effect.Now
                            then old(world.jobs) + multiset{c} else old(world.jobs)
      ensures var u := old(world.callers[c]);
              && 0 <= c < |world.callers|
              && (fate == Retried && u.tried + 1 < policy.maxAttempts ==>
                    world.callers[c].phase == Pushing && world.callers[c].tried == u.tried + 1)
              && (!(fate == Retried && u.tried + 1 < policy.maxAttempts) ==>
                    world.callers[c].phase == if fate == Acked then Finished(true) else Failed)
    {
      var admitted := breaker.Call(a.enteredAt, EndingOf(a.outcome), a.endedAt);
      if !admitted {
        Take(GiveUp(c));
        return Ended;
      }
      match a.outcome {
        case Returned(_) =>
          Take(PushAcked(c));
          return Acked;
        case Raised(kind, effect) =>
          Take(PushLost(c, effect));
          if kind != Retry.Transient && world.callers[c].phase != Failed {
            Take(GiveUp(c));
          }
          return if kind == Retry.Transient then Retried else Ended;
      }
    }

    /** Caller `c`'s SET NX, retried: whether it is acknowledged, and whether it created the key. */
    method SetKey(c: int, script: int -> Wire, ghost kept: World -> bool)
        returns (fate: Fate, newlySet: bool, ghost o: Operation)
      requires policy.Valid() && KeptBySteps(policy.maxAttempts, kept) && kept(world)
      requires IsCaller(world, c, Setting) && world.callers[c].tried == 0
      modifies this`world, breaker
      ensures o == Performed(breaker.config, policy, old(breaker.Now()), script, 1)
      ensures breaker.Now() == o.after && fate == o.fate
      ensures kept(world) && world.jobs == old(world.jobs)
      ensures var id := old(world.callers[c]).event.deliveryId;
              && newlySet == (fate == Acked && o.effects == 1 && id !in old(world.live))
              && world.live == if o.effects >= 1 then old(world.live) + {id} else old(world.live)
      ensures IsCaller(world, c, if fate != Acked then Failed else if newlySet then Pushing else Finished(false))
      ensures newlySet ==> world.callers[c].tried == 0
    {
      ghost var live, counted: nat := world.live, 0;
      ghost var id := world.callers[c].event.deliveryId;
      var attempts := 0;
      o := Performed(breaker.config, policy, breaker.Now(), script, 1);
      while true
        invariant 0 <= attempts < policy.maxAttempts
        invariant var rest := Performed(breaker.config, policy, breaker.Now(), script, attempts + 1);
                  o == rest.(effects := counted + rest.effects)
        invariant kept(world) && world.jobs == old(world.jobs)
        invariant world.live == if counted >= 1 then live + {id} else live
        invariant IsCaller(world, c, Setting) && world.callers[c].event.deliveryId == id &&
                  world.callers[c].tried == attempts
        decreases policy.maxAttempts - attempts
      {
        attempts := attempts + 1;
        ghost var before := breaker.Now();
        fate, newlySet := TrySet(c, script(attempts), kept);
        counted := counted + if EffectOf(breaker.config, before, script(attempts)) == Effect.Now then 1 else 0;
        if fate != Retried || attempts >= policy.maxAttempts {
          return;
        }
      }
    }

    /** Caller `c`'s hand-over to ARQ, retried: every attempt that takes effect is a job. */
    method PushJob(c: int, script: int -> Wire, ghost kept: World -> bool) returns (fate: Fate, ghost o: Operation)
      requires policy.Valid() && KeptBySteps(policy.maxAttempts, kept) && kept(world)
      requires IsCaller(world, c, Pushing) && world.callers[c].tried == 0
      modifies this`world, breaker
      ensures o == Performed(breaker.config, policy, old(breaker.Now()), script, 1)
      ensures breaker.Now() == o.after && fate == o.fate
      ensures kept(world) && world.live == old(world.live)
      ensures world.jobs == old(world.jobs)[c := old(world.jobs)[c] + o.effects]
      ensures IsCaller(world, c, if fate == Acked then Finished(true) else Failed)
    {
      ghost var jobs, counted: nat := world.jobs, 0;
      var attempts := 0;
      o := Performed(breaker.config, policy, breaker.Now(), script, 1);
      while true
        invariant 0 <= attempts < policy.maxAttempts
        invariant var rest := Performed(breaker.config, policy, breaker.Now(), script, attempts + 1);
                  o == rest.(effects := counted + rest.effects)
        invariant kept(world) && world.live == old(world.live)
        invariant world.jobs == jobs[c := jobs[c] + counted]
        invariant IsCaller(world, c, Pushing) && world.callers[c].tried == attempts
        decreases policy.maxAttempts - attempts
      {
        attempts := attempts + 1;
        ghost var before := breaker.Now();
        OneMoreJob(jobs, c, counted);
        fate := TryPush(c, script(attempts), kept);
        counted := counted + if EffectOf(breaker.config, before, script(attempts)) == Effect.Now then 1 else 0;
        if fate != Retried || attempts >= policy.maxAttempts {
          return;
        }
      }
    }

    /**
     `enqueue` for one event. Whatever the wire does, the call is a run of the protocol's steps, so all that holds of
     every run holds of the code; its answer is where that run leaves the caller.
     */
    method Enqueue(event: InMemoryQueue.Event, setScript: int -> Wire, pushScript: int -> Wire) returns (answer: Answer)
      requires policy.Valid()
      modifies this`world, breaker
      ensures Reaches(policy.maxAttempts, old(world), world)
      ensures IsCaller(world, |old(world).callers|, if answer.Raised? then Failed else Finished(answer.enqueued))
      ensures var keyed := Performed(breaker.config, policy, old(breaker.Now()), setScript, 1);
              var pushed := Performed(breaker.config, policy, keyed.after, pushScript, 1);
              var wins := keyed.fate == Acked && keyed.effects == 1 && event.deliveryId !in old(world).live;
              var c := |old(world).callers|;
              && answer == (if keyed.fate != Acked || (wins && pushed.fate != Acked) then Raised else Answered(wins))
              && breaker.Now() == (if wins then pushed.after else keyed.after)
              && world.live == (if keyed.effects >= 1 then old(world).live + {event.deliveryId} else old(world).live)
              && world.jobs == old(world).jobs[c := old(world).jobs[c] +
                   JobsLeft(breaker.config, policy, old(breaker.Now()), event.deliveryId !in old(world).live,
                     setScript, pushScript)]
    {
      ghost var w, p := world, policy.maxAttempts;
      ghost var kept := v => Reaches(p, w, v);
      var c := |world.callers|;
      ReachesItself(p, w);
      ReachesIsKept(p, w);
      Take(Arrive(event));
      var fate, newlySet, o := SetKey(c, setScript, kept);
      if fate != Acked {
        return Raised;
      }
      if !newlySet {
        return Answered(false);
      }
      fate, o := PushJob(c, pushScript, kept);
      if fate != Acked {
        return Raised;
      }
      return Answered(true);
    }
  }
}
