/** The in-memory queue: one job per delivery id, the first one (backend/job_queue/in_memory.py). */
module InMemoryQueue {

  /** A webhook event; `body` stands for everything but the delivery id. */
  datatype Event = Event(deliveryId: string, body: string)

  datatype Contents = Contents(seen: set<string>, jobs: seq<Event>)

  const EMPTY: Contents := Contents({}, [])

  function Enqueued(q: Contents, e: Event): Contents
  {
    if e.deliveryId in q.seen then q else Contents(q.seen + {e.deliveryId}, q.jobs + [e])
  }

  class InMemoryJobQueue {
    var seenDeliveryIds: set<string>
    var jobs: seq<Event>

    function Now(): Contents
      reads this
    {
      Contents(seenDeliveryIds, jobs)
    }

    constructor ()
      ensures Now() == EMPTY
    {
      seenDeliveryIds, jobs := {}, [];
    }

    method Enqueue(event: Event) returns (enqueued: bool)
      modifies this
      ensures enqueued == (event.deliveryId !in old(seenDeliveryIds))
      ensures Now() == Enqueued(old(Now()), event)
    {
      if event.deliveryId in seenDeliveryIds {
        return false;
      }
      seenDeliveryIds := seenDeliveryIds + {event.deliveryId};
      jobs := jobs + [event];
      return true;
    }

    method Size() returns (n: int)
      ensures n == |Now().jobs|
    {
      n := |jobs|;
    }
  }

  /** The queue after a list of events, from empty. */
  function After(events: seq<Event>): Contents
  {
    if events == [] then EMPTY else Enqueued(After(events[..|events| - 1]), events[|events| - 1])
  }

  /** Event `k` is the first with its delivery id. */
  ghost predicate IsFirst(events: seq<Event>, k: int)
  {
    0 <= k < |events| && forall j :: 0 <= j < k ==> events[j].deliveryId != events[k].deliveryId
  }

  function Firsts(events: seq<Event>): seq<int>
  {
    if events == [] then [] else
      var n := |events| - 1;
      Firsts(events[..n]) + (if events[n].deliveryId in After(events[..n]).seen then [] else [n])
  }

  /** Event `k` is answered `enqueued` exactly when no earlier event has its id. */
  lemma {:induction false} SeenExactlyEarlierIds(events: seq<Event>, id: string)
    ensures id in After(events).seen <==> exists j :: 0 <= j < |events| && events[j].deliveryId == id
    decreases |events|
  {
    if events != [] {
      var n := |events| - 1;
      SeenExactlyEarlierIds(events[..n], id);
      assert id == events[n].deliveryId || (exists j :: 0 <= j < n && events[j].deliveryId == id)
        ==> exists j :: 0 <= j < |events| && events[j].deliveryId == id;
    }
  }

  lemma {:induction false} FirstsExactly(events: seq<Event>, k: int)
    ensures k in Firsts(events) <==> IsFirst(events, k)
    decreases |events|
  {
    if events != [] {
      var n := |events| - 1;
      FirstsExactly(events[..n], k);
      SeenExactlyEarlierIds(events[..n], events[n].deliveryId);
    }
  }

  lemma {:induction false} FirstsIncrease(events: seq<Event>, i: int, j: int)
    requires 0 <= i < j < |Firsts(events)|
    ensures Firsts(events)[i] < Firsts(events)[j]
    decreases |events|
  {
    var n := |events| - 1;
    var f := Firsts(events[..n]);
    if j < |f| {
      FirstsIncrease(events[..n], i, j);
    } else {
      FirstsExactly(events[..n], f[i]);
    }
  }

  /** The jobs are the first events of each delivery id (all of them, by `FirstsExactly`), in arrival order. */
  lemma {:induction false} JobsAreTheFirstOfEachId(events: seq<Event>, i: int)
    requires 0 <= i < |Firsts(events)|
    ensures |After(events).jobs| == |Firsts(events)|
    ensures IsFirst(events, Firsts(events)[i]) && After(events).jobs[i] == events[Firsts(events)[i]]
    ensures forall h :: 0 <= h < i ==> Firsts(events)[h] < Firsts(events)[i]
    decreases |events|
  {
    var n := |events| - 1;
    forall h | 0 <= h < i ensures Firsts(events)[h] < Firsts(events)[i] {
      FirstsIncrease(events, h, i);
    }
    FirstsExactly(events, Firsts(events)[i]);
    SameCount(events);
    SameCount(events[..n]);
    if i < |Firsts(events[..n])| {
      JobsAreTheFirstOfEachId(events[..n], i);
    }
  }

  lemma {:induction false} SameCount(events: seq<Event>)
    ensures |After(events).jobs| == |Firsts(events)|
    decreases |events|
  {
    if events != [] {
      SameCount(events[..|events| - 1]);
    }
  }
}

/**
 The Redis queue: concurrent callers, each doing SET NX and then handing the job to ARQ, with retries, lost replies and
 operations that land after their caller gave up on them (backend/job_queue/redis_arq.py).
 */
module RedisQueue {
  import opened Text
  import opened InMemoryQueue
  import opened WireEffects

  /** Where a caller is. `Failed` covers the unavailable reply and any exception that escapes. */
  datatype Phase = Setting | Pushing | Finished(enqueued: bool) | Failed

  /**
   One execution of `enqueue`. `tried` counts attempts of the current operation, `pushes` all attempts to hand over the
   job, `life` the key lifetime it won (0: none); `lateSets` and `latePushes` are abandoned operations still running.
   */
  datatype Caller = Caller(event: Event, phase: Phase, tried: int, pushes: int, life: nat, lateSets: int,
      latePushes: int)

  /**
   `live` are the ids whose key exists, `lives` how often each key was created, `orphans` the lifetimes created by a SET
   whose reply nobody got. `jobs` has every job ever handed over, by the caller it came from.
   */
  datatype World = World(live: set<string>, lives: map<string, nat>, orphans: set<(string, int)>,
                         jobs: multiset<int>, callers: seq<Caller>)

  const START: World := World({}, map[], {}, multiset{}, [])

  datatype Step =
    | Arrive(event: Event)
    | SetAcked(c: int)
    | SetLost(c: int, effect: Effect)
    | PushAcked(c: int)
    | PushLost(c: int, effect: Effect)
    | GiveUp(c: int)
    | LandSet(c: int)
    | LandPush(c: int)
    | Expire(id: string)

  function LivesOf(w: World, id: string): nat
  {
    if id in w.lives then w.lives[id] else 0
  }

  function With(w: World, c: int, caller: Caller): World
    requires 0 <= c < |w.callers|
  {
    w.(callers := w.callers[c := caller])
  }

  /** The key is created, which begins its next lifetime. */
  function Created(w: World, id: string): World
  {
    w.(live := w.live + {id}, lives := w.lives[id := LivesOf(w, id) + 1])
  }

  /** A SET NX that nobody hears back from. */
  function SetUnheard(w: World, id: string): World
  {
    if id in w.live then w else Created(w, id).(orphans := w.orphans + {(id, LivesOf(w, id) + 1)})
  }

  predicate IsCaller(w: World, c: int, phase: Phase)
  {
    0 <= c < |w.callers| && w.callers[c].phase == phase
  }

  predicate Enabled(w: World, s: Step)
  {
    match s
    case Arrive(_) => true
    case SetAcked(c) => IsCaller(w, c, Setting)
    case SetLost(c, _) => IsCaller(w, c, Setting)
    case PushAcked(c) => IsCaller(w, c, Pushing)
    case PushLost(c, _) => IsCaller(w, c, Pushing)
    case GiveUp(c) => IsCaller(w, c, Setting) || IsCaller(w, c, Pushing)
    case LandSet(c) => 0 <= c < |w.callers| && w.callers[c].lateSets > 0
    case LandPush(c) => 0 <= c < |w.callers| && w.callers[c].latePushes > 0
    case Expire(id) => id in w.live
  }

  /** One more attempt without a reply; the last permitted one ends the call. */
  function Unanswered(maxAttempts: int, u: Caller): Caller
  {
    u.(tried := u.tried + 1, phase := if u.tried + 1 >= maxAttempts then Failed else u.phase)
  }

  function Next(maxAttempts: int, w: World, s: Step): World
    requires Enabled(w, s)
  {
    match s
    case Arrive(e) => w.(callers := w.callers + [Caller(e, Setting, 0, 0, 0, 0, 0)])
    case SetAcked(c) =>
      var u := w.callers[c];
      var id := u.event.deliveryId;
      if id in w.live then With(w, c, u.(phase := Finished(false)))
      else With(Created(w, id), c, u.(phase := Pushing, tried := 0, life := LivesOf(w, id) + 1))
    case SetLost(c, effect) =>
      var u := Unanswered(maxAttempts, w.callers[c]);
      With(if effect == Now then SetUnheard(w, u.event.deliveryId) else w, c,
           if effect == Later then u.(lateSets := u.lateSets + 1) else u)
    case PushAcked(c) =>
      var u := w.callers[c];
      With(w.(jobs := w.jobs + multiset{c}), c, u.(pushes := u.pushes + 1, phase := Finished(true)))
    case PushLost(c, effect) =>
      var u := Unanswered(maxAttempts, w.callers[c].(pushes := w.callers[c].pushes + 1));
      With(if effect == Now then w.(jobs := w.jobs + multiset{c}) else w, c,
           if effect == Later then u.(latePushes := u.latePushes + 1) else u)
    case GiveUp(c) => With(w, c, w.callers[c].(phase := Failed))
    case LandSet(c) =>
      var u := w.callers[c];
      With(SetUnheard(w, u.event.deliveryId), c, u.(lateSets := u.lateSets - 1))
    case LandPush(c) =>
      var u := w.callers[c];
      With(w.(jobs := w.jobs + multiset{c}), c, u.(latePushes := u.latePushes - 1))
    case Expire(id) => w.(live := w.live - {id})
  }

  // ------------------------------------------------------------------ runs

  /** The world after a run of steps, if each was possible when it happened. */
  function After(maxAttempts: int, w: World, steps: seq<Step>): (v: Option<World>)
    decreases |steps|
  {
    if steps == [] then Some(w) else
      match After(maxAttempts, w, steps[..|steps| - 1])
      case None => None
      case Some(v) =>
        if Enabled(v, steps[|steps| - 1]) then Some(Next(maxAttempts, v, steps[|steps| - 1])) else None
  }

  // ------------------------------------------------------------- invariants

  /** Caller `c` hands over a job only for a lifetime it won, at most once per attempt. */
  ghost predicate CountsSound(maxAttempts: int, w: World, c: int)
    requires 0 <= c < |w.callers|
  {
    var u := w.callers[c];
    && u.latePushes >= 0
    && w.jobs[c] + u.latePushes <= u.pushes <= maxAttempts
    && (u.phase == Setting ==> u.life == 0)
    && (u.phase == Pushing ==> u.life > 0 && u.pushes == u.tried < maxAttempts)
    && (u.phase == Finished(true) ==> u.life > 0 && w.jobs[c] >= 1)
    && (u.phase == Finished(false) ==> u.life == 0)
    && (u.life == 0 ==> u.pushes == 0)
  }

  /** The lifetime caller `c` won has begun, and was not an unheard SET. */
  ghost predicate LifeSound(w: World, c: int)
    requires 0 <= c < |w.callers|
  {
    var u := w.callers[c];
    u.life <= LivesOf(w, u.event.deliveryId) && (u.life > 0 ==> (u.event.deliveryId, u.life) !in w.orphans)
  }

  ghost predicate CallersSound(maxAttempts: int, w: World)
  {
    forall c :: 0 <= c < |w.callers| ==> CountsSound(maxAttempts, w, c) && LifeSound(w, c)
  }

  /** Caller `c` won lifetime `life` of the key for `id`. */
  ghost predicate Won(w: World, c: int, id: string, life: int)
  {
    0 <= c < |w.callers| && w.callers[c].event.deliveryId == id && w.callers[c].life == life > 0
  }

  /** No lifetime is won twice. */
  ghost predicate OneWinner(w: World)
  {
    forall c, d, id, life :: Won(w, c, id, life) && Won(w, d, id, life) ==> c == d
  }

  /** Every lifetime is won by somebody or an orphan. */
  ghost predicate AllAccountedFor(w: World)
  {
    forall id, life :: 1 <= life <= LivesOf(w, id) ==> (id, life) in w.orphans || exists c :: Won(w, c, id, life)
  }

  ghost predicate KeysSound(w: World)
  {
    && (forall id :: id in w.live ==> LivesOf(w, id) >= 1)
    && (forall id, life :: (id, life) in w.orphans ==> 1 <= life <= LivesOf(w, id))
  }

  ghost predicate JobsHaveCallers(w: World)
  {
    forall c :: c in w.jobs ==> 0 <= c < |w.callers|
  }

  /** How a step moves keys: at most one lifetime more for an id, begun by a heard or an unheard SET. */
  ghost predicate KeysMoved(w: World, v: World, s: Step)
  {
    && w.orphans <= v.orphans
    && (forall id :: LivesOf(v, id) == LivesOf(w, id) || LivesOf(v, id) == LivesOf(w, id) + 1)
    && (forall id :: LivesOf(v, id) > LivesOf(w, id) ==>
          (id, LivesOf(v, id)) in v.orphans || (s.SetAcked? && Won(v, s.c, id, LivesOf(v, id))))
    && (forall id, life :: (id, life) in v.orphans - w.orphans ==> life == LivesOf(v, id) == LivesOf(w, id) + 1)
  }

  /** How a step moves callers: they keep their event, and win a lifetime only by their own acknowledged SET. */
  ghost predicate CallersMoved(w: World, v: World, s: Step)
  {
    && |w.callers| <= |v.callers|
    && (forall c :: 0 <= c < |w.callers| ==>
          && w.callers[c].event == v.callers[c].event
          && (w.callers[c].life == v.callers[c].life || (s == SetAcked(c) && w.callers[c].phase == Setting &&
                var id := w.callers[c].event.deliveryId;
                v.callers[c].life == LivesOf(v, id) == LivesOf(w, id) + 1 && v.orphans == w.orphans)))
    && (forall c :: |w.callers| <= c < |v.callers| ==> v.callers[c].life == 0)
  }

  ghost predicate Moved(w: World, v: World, s: Step)
  {
    KeysMoved(w, v, s) && CallersMoved(w, v, s)
  }

  lemma StepMovesKeys(maxAttempts: int, w: World, s: Step)
    requires Enabled(w, s)
    ensures KeysMoved(w, Next(maxAttempts, w, s), s)
  {
  }

  lemma StepMovesCallers(maxAttempts: int, w: World, s: Step)
    requires Enabled(w, s)
    ensures CallersMoved(w, Next(maxAttempts, w, s), s)
  {
  }

  lemma StepMoves(maxAttempts: int, w: World, s: Step)
    requires Enabled(w, s)
    ensures Moved(w, Next(maxAttempts, w, s), s)
  {
    StepMovesKeys(maxAttempts, w, s);
    StepMovesCallers(maxAttempts, w, s);
  }

  lemma StepKeepsKeys(maxAttempts: int, w: World, s: Step)
    requires Enabled(w, s) && KeysSound(w)
    ensures KeysSound(Next(maxAttempts, w, s))
  {
  }

  lemma StepKeepsCounts(maxAttempts: int, w: World, s: Step, c: int)
    requires maxAttempts >= 1 && Enabled(w, s) && JobsHaveCallers(w)
    requires 0 <= c < |Next(maxAttempts, w, s).callers|
    requires c < |w.callers| ==> CountsSound(maxAttempts, w, c)
    ensures CountsSound(maxAttempts, Next(maxAttempts, w, s), c)
  {
  }

  lemma MovesKeepLives(w: World, v: World, s: Step, c: int)
    requires Moved(w, v, s) && KeysSound(w) && 0 <= c < |v.callers|
    requires c < |w.callers| ==> LifeSound(w, c)
    ensures LifeSound(v, c)
  {
  }

  lemma MovesKeepOneWinner(maxAttempts: int, w: World, v: World, s: Step)
    requires Moved(w, v, s) && CallersSound(maxAttempts, w) && OneWinner(w)
    ensures OneWinner(v)
  {
    forall c, d, id, life | Won(v, c, id, life) && Won(v, d, id, life) ensures c == d {
      assert LifeSound(w, c) && (Won(w, c, id, life) || (s == SetAcked(c) && life == LivesOf(w, id) + 1));
      assert LifeSound(w, d) && (Won(w, d, id, life) || (s == SetAcked(d) && life == LivesOf(w, id) + 1));
    }
  }

  lemma MovesKeepAccounts(maxAttempts: int, w: World, v: World, s: Step)
    requires Moved(w, v, s) && CallersSound(maxAttempts, w) && AllAccountedFor(w)
    ensures AllAccountedFor(v)
  {
    forall id, life | 1 <= life <= LivesOf(v, id)
      ensures (id, life) in v.orphans || exists c :: Won(v, c, id, life)
    {
      if life <= LivesOf(w, id) && (id, life) !in w.orphans {
        var c :| Won(w, c, id, life);
        assert LifeSound(w, c) && Won(v, c, id, life);
      }
    }
  }

  /** Everything that is true of every world a run can reach. */
  ghost predicate Sound(maxAttempts: int, w: World)
  {
    KeysSound(w) && JobsHaveCallers(w) && CallersSound(maxAttempts, w) && OneWinner(w) && AllAccountedFor(w)
  }

  lemma StepKeepsSound(maxAttempts: int, w: World, s: Step)
    requires maxAttempts >= 1 && Enabled(w, s) && Sound(maxAttempts, w)
    ensures Sound(maxAttempts, Next(maxAttempts, w, s))
  {
    var v := Next(maxAttempts, w, s);
    StepMoves(maxAttempts, w, s);
    StepKeepsKeys(maxAttempts, w, s);
    MovesKeepOneWinner(maxAttempts, w, v, s);
    MovesKeepAccounts(maxAttempts, w, v, s);
    forall c | 0 <= c < |v.callers| ensures CountsSound(maxAttempts, v, c) && LifeSound(v, c) {
      StepKeepsCounts(maxAttempts, w, s, c);
      MovesKeepLives(w, v, s, c);
    }
  }

  lemma {:induction false} RunsStaySound(maxAttempts: int, w: World, steps: seq<Step>)
    requires maxAttempts >= 1 && Sound(maxAttempts, w) && After(maxAttempts, w, steps).Some?
    ensures Sound(maxAttempts, After(maxAttempts, w, steps).value)
    decreases |steps|
  {
    if steps != [] {
      RunsStaySound(maxAttempts, w, steps[..|steps| - 1]);
      StepKeepsSound(maxAttempts, After(maxAttempts, w, steps[..|steps| - 1]).value, steps[|steps| - 1]);
    }
  }

  // ---------------------------------------------------- what redelivery cannot do

  /** Caller `c` put a job in the queue, and works for lifetime `life` of the key for `id`. */
  ghost predicate HasJob(w: World, c: int, id: string, life: int)
  {
    w.jobs[c] > 0 && 0 <= c < |w.callers| && w.callers[c].event.deliveryId == id && w.callers[c].life == life
  }

  /**
   In every run, under any interleaving, retries, lost replies and late effects: at most one caller wins a lifetime of a
   key; every job belongs to a lifetime somebody won, and all jobs of one lifetime come from its one winner, at most
   one for each of its attempts; and a caller told `enqueued` has a job in the queue.
   */
  lemma AtMostOneWinnerPerLifetime(maxAttempts: int, steps: seq<Step>)
    requires maxAttempts >= 1 && After(maxAttempts, START, steps).Some?
    ensures var w := After(maxAttempts, START, steps).value;
            && (forall c, d, id, life :: Won(w, c, id, life) && Won(w, d, id, life) ==> c == d)
            && (forall c, id, life :: HasJob(w, c, id, life) ==> Won(w, c, id, life))
            && (forall c, d, id, life :: HasJob(w, c, id, life) && HasJob(w, d, id, life) ==> c == d)
            && (forall c :: 0 <= c < |w.callers| ==> w.jobs[c] <= w.callers[c].pushes <= maxAttempts)
            && (forall c :: IsCaller(w, c, Finished(true)) ==> w.jobs[c] >= 1)
  {
    RunsStaySound(maxAttempts, START, steps);
    JobsComeFromWinners(maxAttempts, After(maxAttempts, START, steps).value);
  }

  lemma JobsComeFromWinners(maxAttempts: int, w: World)
    requires Sound(maxAttempts, w)
    ensures forall c, id, life :: HasJob(w, c, id, life) ==> Won(w, c, id, life)
    ensures forall c :: 0 <= c < |w.callers| ==> w.jobs[c] <= w.callers[c].pushes <= maxAttempts
    ensures forall c :: IsCaller(w, c, Finished(true)) ==> w.jobs[c] >= 1
  {
    forall c | 0 <= c < |w.callers|
      ensures w.jobs[c] <= w.callers[c].pushes <= maxAttempts
      ensures w.jobs[c] > 0 ==> w.callers[c].life > 0
      ensures w.callers[c].phase == Finished(true) ==> w.jobs[c] >= 1
    {
      assert CountsSound(maxAttempts, w, c);
    }
  }

  // ----------------------------------- how many jobs a lifetime gets, by the steps of the run

  /** The step puts a job of caller `c` in the queue. */
  predicate HandsOver(s: Step, c: int)
  {
    s == PushAcked(c) || s == PushLost(c, Now) || s == LandPush(c)
  }

  function HandOvers(steps: seq<Step>, c: int): nat
  {
    if steps == [] then 0 else HandOvers(steps[..|steps| - 1], c) + if HandsOver(steps[|steps| - 1], c) then 1 else 0
  }

  lemma {:induction false} NoneHandedOver(steps: seq<Step>, c: int)
    ensures HandOvers(steps, c) == 0 <==> forall m :: 0 <= m < |steps| ==> !HandsOver(steps[m], c)
    decreases |steps|
  {
    if steps != [] {
      NoneHandedOver(steps[..|steps| - 1], c);
    }
  }

  lemma {:induction false} JobsAreHandOvers(maxAttempts: int, steps: seq<Step>, c: int)
    requires After(maxAttempts, START, steps).Some?
    ensures After(maxAttempts, START, steps).value.jobs[c] == HandOvers(steps, c)
    decreases |steps|
  {
    if steps != [] {
      JobsAreHandOvers(maxAttempts, steps[..|steps| - 1], c);
    }
  }

  /** Step `k` creates the key for `id` and so begins lifetime `life`. */
  ghost predicate Creates(maxAttempts: int, steps: seq<Step>, k: int, id: string, life: int)
  {
    && 0 <= k < |steps|
    && After(maxAttempts, START, steps[..k]).Some? && After(maxAttempts, START, steps[..k + 1]).Some?
    && LivesOf(After(maxAttempts, START, steps[..k]).value, id) + 1 == life ==
         LivesOf(After(maxAttempts, START, steps[..k + 1]).value, id)
  }

  lemma PrefixOfPrefix<T>(s: seq<T>, n: int, k: int)
    requires 0 <= k <= n <= |s|
    ensures s[..n][..k] == s[..k]
  {
  }

  lemma {:induction false} EveryLifetimeIsCreated(maxAttempts: int, steps: seq<Step>, id: string, life: int)
      returns (k: int)
    requires After(maxAttempts, START, steps).Some? && 1 <= life <= LivesOf(After(maxAttempts, START, steps).value, id)
    ensures Creates(maxAttempts, steps, k, id, life)
    decreases |steps|
  {
    var n := |steps| - 1;
    var before := steps[..n];
    assert steps[..n + 1] == steps;
    if life <= LivesOf(After(maxAttempts, START, before).value, id) {
      k := EveryLifetimeIsCreated(maxAttempts, before, id, life);
      PrefixOfPrefix(steps, n, k);
      PrefixOfPrefix(steps, n, k + 1);
    } else {
      StepMoves(maxAttempts, After(maxAttempts, START, before).value, steps[n]);
      k := n;
    }
  }

  /** An acknowledged SET makes its caller the winner of the lifetime it creates; any other makes it an orphan. */
  lemma {:induction false} CreationDecides(maxAttempts: int, steps: seq<Step>, k: int, id: string, life: int)
    requires maxAttempts >= 1 && After(maxAttempts, START, steps).Some? && Creates(maxAttempts, steps, k, id, life)
    ensures var w := After(maxAttempts, START, steps).value;
            if steps[k].SetAcked? then Won(w, steps[k].c, id, life) else (id, life) in w.orphans
    decreases |steps|
  {
    var n := |steps| - 1;
    var before := steps[..n];
    var w := After(maxAttempts, START, before).value;
    if k < n {
      RunsStaySound(maxAttempts, START, before);
      PrefixOfPrefix(steps, n, k);
      PrefixOfPrefix(steps, n, k + 1);
      CreationDecides(maxAttempts, before, k, id, life);
      if steps[k].SetAcked? {
        WinnersAndOrphansStay(maxAttempts, w, steps[n], steps[k].c, id, life);
      } else {
        WinnersAndOrphansStay(maxAttempts, w, steps[n], 0, id, life);
      }
    } else {
      assert steps[..n + 1] == steps;
      NotHeardMakesOrphans(maxAttempts, w, steps[n], id);
    }
  }

  lemma WinnersAndOrphansStay(maxAttempts: int, w: World, s: Step, c: int, id: string, life: int)
    requires Enabled(w, s) && Sound(maxAttempts, w)
    ensures Won(w, c, id, life) ==> Won(Next(maxAttempts, w, s), c, id, life)
    ensures (id, life) in w.orphans ==> (id, life) in Next(maxAttempts, w, s).orphans
  {
    StepMoves(maxAttempts, w, s);
    assert Won(w, c, id, life) ==> CountsSound(maxAttempts, w, c);
  }

  lemma NotHeardMakesOrphans(maxAttempts: int, w: World, s: Step, id: string)
    requires Enabled(w, s) && LivesOf(Next(maxAttempts, w, s), id) == LivesOf(w, id) + 1
    ensures !s.SetAcked? ==> (id, LivesOf(w, id) + 1) in Next(maxAttempts, w, s).orphans
    ensures s.SetAcked? ==> Won(Next(maxAttempts, w, s), s.c, id, LivesOf(w, id) + 1)
  {
  }

  /**
   The jobs of a lifetime, by the steps of the run: none if an unheard SET began it; otherwise all from the caller whose
   acknowledged SET began it, one for each step that puts a job of that caller in the queue.
   */
  lemma JobsOfALifetime(maxAttempts: int, steps: seq<Step>, k: int, id: string, life: int)
    requires maxAttempts >= 1 && After(maxAttempts, START, steps).Some? && Creates(maxAttempts, steps, k, id, life)
    ensures var w := After(maxAttempts, START, steps).value;
            && (!steps[k].SetAcked? ==> forall c :: !HasJob(w, c, id, life))
            && (steps[k].SetAcked? ==> w.jobs[steps[k].c] == HandOvers(steps, steps[k].c))
            && (steps[k].SetAcked? ==> forall c :: HasJob(w, c, id, life) <==>
                 c == steps[k].c && HandOvers(steps, c) > 0)
  {
    var w := After(maxAttempts, START, steps).value;
    RunsStaySound(maxAttempts, START, steps);
    JobsComeFromWinners(maxAttempts, w);
    CreationDecides(maxAttempts, steps, k, id, life);
    if steps[k].SetAcked? {
      JobsAreHandOvers(maxAttempts, steps, steps[k].c);
    } else {
      forall c ensures !HasJob(w, c, id, life) {
        if 0 <= c < |w.callers| {
          assert LifeSound(w, c);
        }
      }
    }
  }

  /**
   Which lifetimes have no job, by the steps of the run: exactly those begun by a SET nobody heard of, and those whose
   caller's pushes have all come to nothing so far: no acknowledged one, no lost one with effect, no late landing.
   */
  lemma DeliveryIsLostExactlyWhen(maxAttempts: int, steps: seq<Step>, id: string, life: int)
    requires maxAttempts >= 1 && After(maxAttempts, START, steps).Some?
    requires 1 <= life <= LivesOf(After(maxAttempts, START, steps).value, id)
    ensures (forall c :: !HasJob(After(maxAttempts, START, steps).value, c, id, life)) <==>
            exists k :: Creates(maxAttempts, steps, k, id, life) &&
                        (steps[k].SetAcked? ==> forall m :: 0 <= m < |steps| ==> !HandsOver(steps[m], steps[k].c))
  {
    var w := After(maxAttempts, START, steps).value;
    if k :| Creates(maxAttempts, steps, k, id, life) &&
            (steps[k].SetAcked? ==> forall m :: 0 <= m < |steps| ==> !HandsOver(steps[m], steps[k].c)) {
      JobsOfALifetime(maxAttempts, steps, k, id, life);
      if steps[k].SetAcked? {
        NoneHandedOver(steps, steps[k].c);
      }
    }
    var k := EveryLifetimeIsCreated(maxAttempts, steps, id, life);
    JobsOfALifetime(maxAttempts, steps, k, id, life);
    if steps[k].SetAcked? {
      NoneHandedOver(steps, steps[k].c);
    }
  }

  lemma StepAt(maxAttempts: int, u: World, steps: seq<Step>, k: nat, w: World) returns (v: World)
    requires k < |steps| && After(maxAttempts, u, steps[..k]) == Some(w) && Enabled(w, steps[k])
    ensures v == Next(maxAttempts, w, steps[k]) && After(maxAttempts, u, steps[..k + 1]) == Some(v)
  {
    v := Next(maxAttempts, w, steps[k]);
    assert steps[..k + 1][..k] == steps[..k];
  }

  /** One push whose reply is lost and its retry, and the delivery is queued twice. */
  lemma LostReplyQueuesTwice(maxAttempts: int, e: Event)
    requires maxAttempts >= 2
    ensures var run := After(maxAttempts, START, [Arrive(e), SetAcked(0), PushLost(0, Now), PushAcked(0)]);
            run.Some? && run.value.jobs == multiset{0, 0} && IsCaller(run.value, 0, Finished(true))
  {
    var steps := [Arrive(e), SetAcked(0), PushLost(0, Now), PushAcked(0)];
    var w := StepAt(maxAttempts, START, steps, 0, START);
    w := StepAt(maxAttempts, START, steps, 1, w);
    w := StepAt(maxAttempts, START, steps, 2, w);
    w := StepAt(maxAttempts, START, steps, 3, w);
    assert steps[..4] == steps;
  }

  /** No caller ever queues its job twice. */
  ghost predicate NeverQueuesTwice(maxAttempts: int)
  {
    forall steps: seq<Step>, c: int :: After(maxAttempts, START, steps).Some? ==>
      After(maxAttempts, START, steps).value.jobs[c] <= 1
  }

  /** A lifetime is sure to get at most one job exactly if pushes are never retried. */
  lemma NeverQueuesTwiceExactlyWhen(maxAttempts: int)
    requires maxAttempts >= 1
    ensures NeverQueuesTwice(maxAttempts) <==> maxAttempts == 1
  {
    if maxAttempts == 1 {
      forall steps: seq<Step>, c: int | After(maxAttempts, START, steps).Some?
        ensures After(maxAttempts, START, steps).value.jobs[c] <= 1
      {
        RunsStaySound(maxAttempts, START, steps);
        var w := After(maxAttempts, START, steps).value;
        if c in w.jobs {
          assert CountsSound(maxAttempts, w, c);
        }
      }
    } else {
      var e := Event("", "");
      LostReplyQueuesTwice(maxAttempts, e);
      var steps := [Arrive(e), SetAcked(0), PushLost(0, Now), PushAcked(0)];
      assert After(maxAttempts, START, steps).value.jobs[0] == 2;
    }
  }

  /**
   Exactly-once fails under every retry policy: one SET whose reply is lost, and the redelivery is told `duplicate`
   while no job exists.
   */
  lemma LostReplyLosesTheDelivery(maxAttempts: int, e: Event)
    requires maxAttempts >= 1
    ensures var run := After(maxAttempts, START, [Arrive(e), SetLost(0, Now), Arrive(e), SetAcked(1)]);
            run.Some? && run.value.jobs == multiset{} && IsCaller(run.value, 1, Finished(false))
  {
    var steps := [Arrive(e), SetLost(0, Now), Arrive(e), SetAcked(1)];
    var w := StepAt(maxAttempts, START, steps, 0, START);
    w := StepAt(maxAttempts, START, steps, 1, w);
    w := StepAt(maxAttempts, START, steps, 2, w);
    w := StepAt(maxAttempts, START, steps, 3, w);
    assert steps[..4] == steps;
  }

  /** With a retry permitted the caller finds its own key: it and every redelivery are told `duplicate`. */
  lemma RetryFindsItsOwnKey(maxAttempts: int, e: Event)
    requires maxAttempts >= 2
    ensures var run := After(maxAttempts, START, [Arrive(e), SetLost(0, Now), SetAcked(0), Arrive(e), SetAcked(1)]);
            && run.Some? && run.value.jobs == multiset{}
            && IsCaller(run.value, 0, Finished(false)) && IsCaller(run.value, 1, Finished(false))
  {
    var steps := [Arrive(e), SetLost(0, Now), SetAcked(0), Arrive(e), SetAcked(1)];
    var w := StepAt(maxAttempts, START, steps, 0, START);
    w := StepAt(maxAttempts, START, steps, 1, w);
    w := StepAt(maxAttempts, START, steps, 2, w);
    w := StepAt(maxAttempts, START, steps, 3, w);
    w := StepAt(maxAttempts, START, steps, 4, w);
    assert steps[..5] == steps;
  }

  /**
   Whatever happened before, once its key has expired a delivery is new again: it is answered `enqueued`, and queued
   however many jobs it has.
   */
  lemma ExpiredKeyQueuesAgain(maxAttempts: int, w: World, e: Event)
    requires e.deliveryId in w.live
    ensures var c := |w.callers|;
            var run := After(maxAttempts, w, [Expire(e.deliveryId), Arrive(e), SetAcked(c), PushAcked(c)]);
            run.Some? && run.value.jobs == w.jobs + multiset{c} && IsCaller(run.value, c, Finished(true))
  {
    var c := |w.callers|;
    var steps := [Expire(e.deliveryId), Arrive(e), SetAcked(c), PushAcked(c)];
    var v := StepAt(maxAttempts, w, steps, 0, w);
    v := StepAt(maxAttempts, w, steps, 1, v);
    v := StepAt(maxAttempts, w, steps, 2, v);
    v := StepAt(maxAttempts, w, steps, 3, v);
    assert steps[..4] == steps;
  }

  /**
   Whatever happened before, a SET that lands after it was given up takes a free key all the same: the next delivery of
   its id is told `duplicate`, and nothing is queued.
   */
  lemma LateSetTakesTheKey(maxAttempts: int, w: World, c: int, e: Event)
    requires Enabled(w, LandSet(c)) && w.callers[c].event.deliveryId == e.deliveryId && e.deliveryId !in w.live
    ensures var d := |w.callers|;
            var run := After(maxAttempts, w, [LandSet(c), Arrive(e), SetAcked(d)]);
            run.Some? && run.value.jobs == w.jobs && IsCaller(run.value, d, Finished(false))
  {
    var steps := [LandSet(c), Arrive(e), SetAcked(|w.callers|)];
    var v := StepAt(maxAttempts, w, steps, 0, w);
    v := StepAt(maxAttempts, w, steps, 1, v);
    v := StepAt(maxAttempts, w, steps, 2, v);
    assert steps[..3] == steps;
  }

  /** Whatever happened before, a hand-over that lands after it was given up is a job beside that of its retry. */
  lemma LatePushQueuesTwice(maxAttempts: int, w: World, c: int)
    requires IsCaller(w, c, Pushing) && w.callers[c].tried + 1 < maxAttempts && w.callers[c].latePushes >= 0
    ensures var run := After(maxAttempts, w, [PushLost(c, Later), PushAcked(c), LandPush(c)]);
            run.Some? && run.value.jobs == w.jobs + multiset{c, c} && IsCaller(run.value, c, Finished(true))
  {
    var steps := [PushLost(c, Later), PushAcked(c), LandPush(c)];
    var v := StepAt(maxAttempts, w, steps, 0, w);
    v := StepAt(maxAttempts, w, steps, 1, v);
    v := StepAt(maxAttempts, w, steps, 2, v);
    assert steps[..3] == steps;
  }
}
