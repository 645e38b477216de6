/** The daily cap under concurrent calls: what check-then-record can and cannot promise. */
module BudgetRuns {
  import opened Text
  import opened EventStore
  import opened Budget

  /** A slot for one call in flight: the clock read, the call let through, its cost stamped but not stored yet. */
  datatype Slot = Idle | Reading(day: int) | Calling(day: int) | Stamped(ts: int, cost: int)

  /** The slots are as many as calls can be in flight at once; any number of calls may use them in turn. */
  datatype World = World(events: seq<Event>, clock: int, slots: seq<Slot>)

  datatype Step =
    | Tick(to: int)
    | Begin(c: int)
    | Decide(c: int)
    | Reply(c: int, cost: int)
    | Store(c: int)
    | Abandon(c: int)
    | Unrelated(ts: int, cost: int)

  predicate IsSlot(w: World, c: int)
  {
    0 <= c < |w.slots|
  }

  predicate Enabled(maxCost: int, w: World, s: Step)
  {
    match s
    case Tick(to) => to >= w.clock
    case Begin(c) => IsSlot(w, c) && w.slots[c].Idle?
    case Decide(c) => IsSlot(w, c) && w.slots[c].Reading?
    case Reply(c, cost) => IsSlot(w, c) && w.slots[c].Calling? && 0 <= cost <= maxCost
    case Store(c) => IsSlot(w, c) && w.slots[c].Stamped?
    case Abandon(c) => IsSlot(w, c)
    case Unrelated(_, _) => true
  }

  function With(w: World, c: int, u: Slot): World
    requires IsSlot(w, c)
  {
    w.(slots := w.slots[c := u])
  }

  function Next(cap: int, maxCost: int, w: World, s: Step): World
    requires Enabled(maxCost, w, s)
  {
    match s
    case Tick(to) => w.(clock := to)
    case Begin(c) => With(w, c, Reading(DayOf(w.clock)))
    case Decide(c) => With(w, c, if Blocks(cap, w.events, w.slots[c].day) then Idle else Calling(w.slots[c].day))
    case Reply(c, cost) => With(w, c, Stamped(w.clock, cost))
    case Store(c) => With(w.(events := w.events + [Event(w.slots[c].ts, true, w.slots[c].cost)]), c, Idle)
    case Abandon(c) => With(w, c, Idle)
    case Unrelated(ts, cost) => w.(events := w.events + [Event(ts, false, cost)])
  }

  /** The world after a run of steps, if each was possible when it happened. */
  function After(cap: int, maxCost: int, w: World, steps: seq<Step>): Option<World>
    decreases |steps|
  {
    if steps == [] then Some(w) else
      match After(cap, maxCost, w, steps[..|steps| - 1])
      case None => None
      case Some(v) =>
        if Enabled(maxCost, v, steps[|steps| - 1]) then Some(Next(cap, maxCost, v, steps[|steps| - 1])) else None
  }

  // -------------------------------------------------------------- invariants

  /** The slot may still add to the spend of `day` although that day's cap has been reached. */
  predicate Threatens(u: Slot, day: int)
  {
    match u
    case Idle => false
    case Reading(d) => d < day
    case Calling(d) => d <= day
    case Stamped(ts, _) => DayOf(ts) == day
  }

  function Threats(slots: seq<Slot>, day: int): (n: nat)
    ensures n <= |slots|
  {
    if slots == [] then 0 else Threats(slots[..|slots| - 1], day) + if Threatens(slots[|slots| - 1], day) then 1 else 0
  }

  lemma {:induction false} ThreatsAfterChange(slots: seq<Slot>, c: int, u: Slot, day: int)
    requires 0 <= c < |slots|
    ensures Threats(slots[c := u], day) ==
            Threats(slots, day) - (if Threatens(slots[c], day) then 1 else 0) + (if Threatens(u, day) then 1 else 0)
    decreases |slots|
  {
    var n := |slots| - 1;
    if c < n {
      assert slots[c := u][..n] == slots[..n][c := u];
      ThreatsAfterChange(slots[..n], c, u, day);
    } else {
      assert slots[c := u][..n] == slots[..n];
    }
  }

  ghost predicate SlotSound(maxCost: int, clock: int, u: Slot)
  {
    match u
    case Idle => true
    case Reading(day) => day <= DayOf(clock)
    case Calling(day) => day <= DayOf(clock)
    case Stamped(ts, cost) => ts <= clock && 0 <= cost <= maxCost
  }

  /** Nothing is dated ahead of the clock. */
  ghost predicate Dated(maxCost: int, w: World)
  {
    && (forall i :: 0 <= i < |w.events| && w.events[i].isLlmCall ==> w.events[i].ts <= w.clock && w.events[i].cost >= 0)
    && (forall c :: 0 <= c < |w.slots| ==> SlotSound(maxCost, w.clock, w.slots[c]))
  }

  /** Past the cap, what was spent and what the threatening slots may add stays below the bound. */
  ghost predicate Bounded(cap: int, maxCost: int, w: World, day: int)
  {
    DaySum(w.events, day) >= cap ==>
      DaySum(w.events, day) + Threats(w.slots, day) * maxCost < cap + |w.slots| * maxCost
  }

  lemma DaysGrow(s: int, t: int)
    requires s <= t
    ensures DayOf(s) <= DayOf(t)
  {
  }

  lemma StepKeepsDated(cap: int, maxCost: int, w: World, s: Step)
    requires Enabled(maxCost, w, s) && Dated(maxCost, w)
    ensures Dated(maxCost, Next(cap, maxCost, w, s))
  {
    if s.Tick? {
      DaysGrow(w.clock, s.to);
    }
  }

  lemma {:induction false} FutureIsUnspent(events: seq<Event>, clock: int, day: int)
    requires forall i :: 0 <= i < |events| && events[i].isLlmCall ==> events[i].ts <= clock
    requires DayOf(clock) < day
    ensures DaySum(events, day) == 0
    decreases |events|
  {
    if events != [] {
      var n := |events| - 1;
      FutureIsUnspent(events[..n], clock, day);
      assert events[..n] + [events[n]] == events;
      RowOfDay(events[..n], events[n], day);
      if events[n].isLlmCall {
        DaysGrow(events[n].ts, clock);
      }
    }
  }

  lemma Multiples(k: int, x: int)
    ensures (k + 1) * x == k * x + x
  {
  }

  lemma Larger(a: int, b: int, x: int)
    requires a <= b && x >= 0
    ensures a * x <= b * x
  {
  }

  /** A step that stores nothing adds no threat to a day whose cap has been reached. */
  lemma NoNewThreat(cap: int, maxCost: int, w: World, s: Step, day: int)
    requires cap > 0 && Enabled(maxCost, w, s) && Dated(maxCost, w) && !s.Store? && DaySum(w.events, day) >= cap
    ensures Threats(Next(cap, maxCost, w, s).slots, day) <= Threats(w.slots, day)
  {
    if DayOf(w.clock) < day {
      FutureIsUnspent(w.events, w.clock, day);
    }
    if s.Begin? || s.Decide? || s.Reply? || s.Abandon? {
      ThreatsAfterChange(w.slots, s.c, Next(cap, maxCost, w, s).slots[s.c], day);
    }
  }

  lemma StepKeepsBounded(cap: int, maxCost: int, w: World, s: Step, day: int)
    requires cap > 0 && maxCost >= 0 && Enabled(maxCost, w, s) && Dated(maxCost, w) && Bounded(cap, maxCost, w, day)
    ensures Bounded(cap, maxCost, Next(cap, maxCost, w, s), day)
    ensures DaySum(Next(cap, maxCost, w, s).events, day) >= DaySum(w.events, day)
  {
    var v := Next(cap, maxCost, w, s);
    if s.Store? {
      var u := w.slots[s.c];
      RowOfDay(w.events, Event(u.ts, true, u.cost), day);
      ThreatsAfterChange(w.slots, s.c, Idle, day);
      assert SlotSound(maxCost, w.clock, u);
      if DayOf(u.ts) == day {
        Multiples(Threats(v.slots, day), maxCost);
        Larger(Threats(w.slots, day), |w.slots|, maxCost);
      }
    } else {
      if s.Unrelated? {
        RowOfDay(w.events, Event(s.ts, false, s.cost), day);
      }
      if DaySum(w.events, day) >= cap {
        NoNewThreat(cap, maxCost, w, s, day);
        Larger(Threats(v.slots, day), Threats(w.slots, day), maxCost);
      }
    }
  }

  /** Where a run may start: no call in flight, no day's cap reached. */
  ghost predicate IsStart(cap: int, w: World)
  {
    && (forall c :: 0 <= c < |w.slots| ==> w.slots[c] == Idle)
    && (forall i :: 0 <= i < |w.events| && w.events[i].isLlmCall ==> w.events[i].ts <= w.clock && w.events[i].cost >= 0)
    && (forall day :: DaySum(w.events, day) < cap)
  }

  lemma {:induction false} RunsStayBounded(cap: int, maxCost: int, w: World, steps: seq<Step>, day: int)
    requires cap > 0 && maxCost >= 0 && IsStart(cap, w) && After(cap, maxCost, w, steps).Some?
    ensures var v := After(cap, maxCost, w, steps).value;
            Dated(maxCost, v) && Bounded(cap, maxCost, v, day) && |v.slots| == |w.slots|
    decreases |steps|
  {
    if steps != [] {
      var before := steps[..|steps| - 1];
      RunsStayBounded(cap, maxCost, w, before, day);
      var u := After(cap, maxCost, w, before).value;
      StepKeepsDated(cap, maxCost, u, steps[|steps| - 1]);
      StepKeepsBounded(cap, maxCost, u, steps[|steps| - 1], day);
    }
  }

  /**
   With at most C calls in flight, each costing at most `maxCost`, no day's recorded spend ever reaches
   cap + C * maxCost, in any interleaving, across midnight too.
   */
  lemma OvershootIsBounded(cap: int, maxCost: int, w: World, steps: seq<Step>, day: int)
    requires cap > 0 && maxCost >= 0 && IsStart(cap, w) && After(cap, maxCost, w, steps).Some?
    ensures DaySum(After(cap, maxCost, w, steps).value.events, day) < cap + |w.slots| * maxCost
  {
    RunsStayBounded(cap, maxCost, w, steps, day);
    var v := After(cap, maxCost, w, steps).value;
    Larger(0, Threats(v.slots, day), maxCost);
    Larger(0, |w.slots|, maxCost);
  }

  lemma {:induction false} SpendNeverFalls(cap: int, maxCost: int, w: World, steps: seq<Step>, day: int)
    requires cap > 0 && maxCost >= 0 && Dated(maxCost, w) && After(cap, maxCost, w, steps).Some?
    ensures var v := After(cap, maxCost, w, steps).value;
            Dated(maxCost, v) && DaySum(v.events, day) >= DaySum(w.events, day)
    decreases |steps|
  {
    if steps != [] {
      var last := steps[|steps| - 1];
      SpendNeverFalls(cap, maxCost, w, steps[..|steps| - 1], day);
      var u := After(cap, maxCost, w, steps[..|steps| - 1]).value;
      StepKeepsDated(cap, maxCost, u, last);
      SpendMoves(cap, maxCost, u, last, day);
    }
  }

  lemma SpendMoves(cap: int, maxCost: int, w: World, s: Step, day: int)
    requires Enabled(maxCost, w, s) && Dated(maxCost, w)
    ensures DaySum(Next(cap, maxCost, w, s).events, day) >= DaySum(w.events, day)
  {
    if s.Store? {
      assert SlotSound(maxCost, w.clock, w.slots[s.c]);
      RowOfDay(w.events, Event(w.slots[s.c].ts, true, w.slots[s.c].cost), day);
    } else if s.Unrelated? {
      RowOfDay(w.events, Event(s.ts, false, s.cost), day);
    }
  }

  /** Once a day's spend has reached the cap, every later check for that day blocks, however the run goes on. */
  lemma SpentDayAdmitsNobody(cap: int, maxCost: int, w: World, steps: seq<Step>, c: int)
    requires cap > 0 && maxCost >= 0 && Dated(maxCost, w) && After(cap, maxCost, w, steps).Some?
    requires var v := After(cap, maxCost, w, steps).value;
             IsSlot(v, c) && v.slots[c].Reading? && DaySum(w.events, v.slots[c].day) >= cap
    ensures var v := After(cap, maxCost, w, steps).value; Next(cap, maxCost, v, Decide(c)).slots[c] == Idle
  {
    SpendNeverFalls(cap, maxCost, w, steps, After(cap, maxCost, w, steps).value.slots[c].day);
  }

  lemma {:induction false} NothingInWindow(events: seq<Event>, lo: int, hi: int)
    requires forall i :: 0 <= i < |events| && events[i].isLlmCall ==> events[i].ts < lo
    ensures WindowSum(events, lo, hi) == 0
    decreases |events|
  {
    if events != [] {
      NothingInWindow(events[..|events| - 1], lo, hi);
    }
  }

  /** Whatever was spent before midnight, the first check after it lets its call through. */
  lemma NewDayAdmits(cap: int, maxCost: int, w: World, c: int, day: int)
    requires cap > 0 && IsSlot(w, c) && w.slots[c] == Idle && w.clock <= day * (24 * 60 * 60 * 1_000_000)
    requires forall i :: 0 <= i < |w.events| && w.events[i].isLlmCall ==>
               w.events[i].ts < day * (24 * 60 * 60 * 1_000_000)
    ensures var midnight := day * (24 * 60 * 60 * 1_000_000);
            var v := After(cap, maxCost, w, [Tick(midnight), Begin(c), Decide(c)]);
            v == Some(With(w.(clock := midnight), c, Calling(day)))
  {
    var midnight := day * DAY;
    var steps := [Tick(midnight), Begin(c), Decide(c)];
    NothingInWindow(w.events, midnight, midnight + DAY);
    assert DayOf(midnight) == day;
    var u := w.(clock := midnight);
    assert steps[..2][..1] == steps[..1] && steps[..1][..0] == [];
    OneMore(cap, maxCost, w, steps[..1], 0, w);
    OneMore(cap, maxCost, w, steps[..2], 1, u);
    OneMore(cap, maxCost, w, steps, 2, With(u, c, Reading(day)));
    assert u.slots[c := Reading(day)][c := Calling(day)] == u.slots[c := Calling(day)];
  }

  // ------------------------------------------------------- the bound is met

  lemma {:induction false} RunsFollowOn(cap: int, maxCost: int, w: World, first: seq<Step>, more: seq<Step>)
    requires After(cap, maxCost, w, first).Some?
    ensures After(cap, maxCost, w, first + more) == After(cap, maxCost, After(cap, maxCost, w, first).value, more)
    decreases |more|
  {
    if more == [] {
      assert first + more == first;
    } else {
      assert (first + more)[..|first + more| - 1] == first + more[..|more| - 1];
      RunsFollowOn(cap, maxCost, w, first, more[..|more| - 1]);
    }
  }

  /** One slot in every position `c` below `n` is as `u` says, the others are as `v` says. */
  function Slots(count: nat, n: int, u: Slot, v: Slot): (r: seq<Slot>)
    ensures |r| == count && forall c :: 0 <= c < count ==> r[c] == if c < n then u else v
  {
    seq(count, c => if c < n then u else v)
  }

  function Begins(n: nat): seq<Step> { seq(n, c => Begin(c)) }

  function Decides(n: nat): seq<Step> { seq(n, c => Decide(c)) }

  function Replies(n: nat, cost: int): seq<Step> { seq(n, c => Reply(c, cost)) }

  function Stores(n: nat): seq<Step> { seq(n, c => Store(c)) }

  /** `n` calls at one instant, each costing `cost`, with every check made before any cost is stored. */
  function AllAtOnce(n: nat, cost: int): seq<Step>
  {
    Begins(n) + Decides(n) + Replies(n, cost) + Stores(n)
  }

  lemma OneMore(cap: int, maxCost: int, w: World, steps: seq<Step>, n: nat, v: World)
    requires |steps| == n + 1 && After(cap, maxCost, w, steps[..n]) == Some(v) && Enabled(maxCost, v, steps[n])
    ensures After(cap, maxCost, w, steps) == Some(Next(cap, maxCost, v, steps[n]))
  {
  }

  lemma {:induction false} AllBegin(cap: int, maxCost: int, w: World, n: nat)
    requires n <= |w.slots| && w.slots == Slots(|w.slots|, n, Idle, Idle)
    ensures After(cap, maxCost, w, Begins(n)) == Some(w.(slots := Slots(|w.slots|, n, Reading(DayOf(w.clock)), Idle)))
  {
    if n == 0 {
      assert w.slots == Slots(|w.slots|, 0, Reading(DayOf(w.clock)), Idle);
    } else {
      assert Begins(n)[..n - 1] == Begins(n - 1);
      assert w.slots == Slots(|w.slots|, n - 1, Idle, Idle);
      AllBegin(cap, maxCost, w, n - 1);
      var before := w.(slots := Slots(|w.slots|, n - 1, Reading(DayOf(w.clock)), Idle));
      OneMore(cap, maxCost, w, Begins(n), n - 1, before);
      assert before.slots[n - 1 := Reading(DayOf(w.clock))] == Slots(|w.slots|, n, Reading(DayOf(w.clock)), Idle);
    }
  }

  lemma {:induction false} AllDecide(cap: int, maxCost: int, w: World, day: int, n: nat)
    requires n <= |w.slots| && w.slots == Slots(|w.slots|, 0, Idle, Reading(day)) && !Blocks(cap, w.events, day)
    ensures After(cap, maxCost, w, Decides(n)) == Some(w.(slots := Slots(|w.slots|, n, Calling(day), Reading(day))))
  {
    if n == 0 {
      assert w.slots == Slots(|w.slots|, 0, Calling(day), Reading(day));
    } else {
      assert Decides(n)[..n - 1] == Decides(n - 1);
      AllDecide(cap, maxCost, w, day, n - 1);
      var before := w.(slots := Slots(|w.slots|, n - 1, Calling(day), Reading(day)));
      OneMore(cap, maxCost, w, Decides(n), n - 1, before);
      assert before.slots[n - 1 := Calling(day)] == Slots(|w.slots|, n, Calling(day), Reading(day));
    }
  }

  lemma {:induction false} AllReply(cap: int, maxCost: int, w: World, day: int, n: nat)
    requires maxCost >= 0 && n <= |w.slots| && w.slots == Slots(|w.slots|, 0, Idle, Calling(day))
    ensures After(cap, maxCost, w, Replies(n, maxCost)) ==
            Some(w.(slots := Slots(|w.slots|, n, Stamped(w.clock, maxCost), Calling(day))))
  {
    if n == 0 {
      assert w.slots == Slots(|w.slots|, 0, Stamped(w.clock, maxCost), Calling(day));
    } else {
      assert Replies(n, maxCost)[..n - 1] == Replies(n - 1, maxCost);
      AllReply(cap, maxCost, w, day, n - 1);
      var before := w.(slots := Slots(|w.slots|, n - 1, Stamped(w.clock, maxCost), Calling(day)));
      OneMore(cap, maxCost, w, Replies(n, maxCost), n - 1, before);
      assert before.slots[n - 1 := Stamped(w.clock, maxCost)] ==
             Slots(|w.slots|, n, Stamped(w.clock, maxCost), Calling(day));
    }
  }

  /** `n` calls that cost `cost` each, all stamped `ts`. */
  function Rows(n: nat, ts: int, cost: int): seq<Event>
  {
    if n == 0 then [] else Rows(n - 1, ts, cost) + [Event(ts, true, cost)]
  }

  lemma {:induction false} AllStore(cap: int, maxCost: int, w: World, ts: int, n: nat)
    requires n <= |w.slots| && w.slots == Slots(|w.slots|, 0, Idle, Stamped(ts, maxCost))
    ensures After(cap, maxCost, w, Stores(n)) ==
            Some(w.(slots := Slots(|w.slots|, n, Idle, Stamped(ts, maxCost)),
              events := w.events + Rows(n, ts, maxCost)))
  {
    if n == 0 {
      assert w.events + [] == w.events;
    } else {
      assert Stores(n)[..n - 1] == Stores(n - 1);
      AllStore(cap, maxCost, w, ts, n - 1);
      var before := w.(slots := Slots(|w.slots|, n - 1, Idle, Stamped(ts, maxCost)),
                    events := w.events + Rows(n - 1, ts, maxCost));
      OneMore(cap, maxCost, w, Stores(n), n - 1, before);
      assert before.slots[n - 1 := Idle] == Slots(|w.slots|, n, Idle, Stamped(ts, maxCost));
      assert w.events + Rows(n, ts, maxCost) == before.events + [Event(ts, true, maxCost)];
    }
  }

  /** `cost` added up `n` times. */
  function Repeated(n: nat, cost: int): int
  {
    if n == 0 then 0 else Repeated(n - 1, cost) + cost
  }

  lemma {:induction false} RepeatedIsProduct(n: nat, cost: int)
    ensures Repeated(n, cost) == n * cost
  {
    if n > 0 {
      RepeatedIsProduct(n - 1, cost);
      Multiples(n - 1, cost);
    }
  }

  lemma {:induction false} RowsAddUp(events: seq<Event>, n: nat, ts: int, cost: int)
    ensures DaySum(events + Rows(n, ts, cost), DayOf(ts)) == DaySum(events, DayOf(ts)) + Repeated(n, cost)
  {
    if n == 0 {
      assert events + [] == events;
    } else {
      RowsAddUp(events, n - 1, ts, cost);
      RowOfDay(events + Rows(n - 1, ts, cost), Event(ts, true, cost), DayOf(ts));
      assert events + Rows(n, ts, cost) == (events + Rows(n - 1, ts, cost)) + [Event(ts, true, cost)];
    }
  }

  /**
   The bound cannot be lowered, for any number of slots: from just below the cap, all slots at once end just below it.
   */
  lemma CapIsOvershot(cap: int, maxCost: int, w: World)
    requires cap > 0 && maxCost >= 0 && w.slots == Slots(|w.slots|, 0, Idle, Idle)
    requires DaySum(w.events, DayOf(w.clock)) == cap - 1
    ensures var v := After(cap, maxCost, w, AllAtOnce(|w.slots|, maxCost));
            v.Some? && DaySum(v.value.events, DayOf(w.clock)) == cap + |w.slots| * maxCost - 1
  {
    var n, day, now := |w.slots|, DayOf(w.clock), w.clock;
    assert w.slots == Slots(n, n, Idle, Idle);
    AllBegin(cap, maxCost, w, n);
    var a := w.(slots := Slots(n, 0, Idle, Reading(day)));
    assert a.slots == Slots(n, n, Reading(day), Idle);
    AllDecide(cap, maxCost, a, day, n);
    var b := w.(slots := Slots(n, 0, Idle, Calling(day)));
    assert b.slots == Slots(n, n, Calling(day), Reading(day));
    AllReply(cap, maxCost, b, day, n);
    var d := w.(slots := Slots(n, 0, Idle, Stamped(now, maxCost)));
    assert d.slots == Slots(n, n, Stamped(now, maxCost), Calling(day));
    AllStore(cap, maxCost, d, now, n);
    RunsFollowOn(cap, maxCost, w, Begins(n), Decides(n));
    RunsFollowOn(cap, maxCost, w, Begins(n) + Decides(n), Replies(n, maxCost));
    RunsFollowOn(cap, maxCost, w, Begins(n) + Decides(n) + Replies(n, maxCost), Stores(n));
    RowsAddUp(w.events, n, now, maxCost);
    RepeatedIsProduct(n, maxCost);
  }

  /** No run with `count` slots ever takes a day past the cap. */
  ghost predicate CapIsKept(cap: int, maxCost: int, count: nat)
  {
    forall w: World, steps: seq<Step>, day: int ::
      IsStart(cap, w) && |w.slots| == count && After(cap, maxCost, w, steps).Some? ==>
        DaySum(After(cap, maxCost, w, steps).value.events, day) <= cap
  }

  /** A world that has spent all but the last micro-dollar of one day. */
  function AlmostSpent(cap: int, count: nat): World
  {
    World([Event(0, true, cap - 1)], 0, Slots(count, 0, Idle, Idle))
  }

  lemma AlmostSpentIsStart(cap: int, count: nat)
    requires cap > 0
    ensures IsStart(cap, AlmostSpent(cap, count)) && DaySum(AlmostSpent(cap, count).events, 0) == cap - 1
  {
    var e := Event(0, true, cap - 1);
    forall day ensures DaySum([e], day) == if day == 0 then cap - 1 else 0 {
      RowOfDay([], e, day);
      assert [] + [e] == [e];
    }
  }

  /**
   The documented promise that spend never exceeds the cap holds exactly if all calls that can be in flight together
   cost at most the smallest amount of money.
   */
  lemma CapIsKeptExactlyWhen(cap: int, maxCost: int, count: nat)
    requires cap > 0 && maxCost >= 0
    ensures CapIsKept(cap, maxCost, count) <==> count * maxCost <= 1
  {
    if count * maxCost <= 1 {
      forall w: World, steps: seq<Step>, day: int |
        IsStart(cap, w) && |w.slots| == count && After(cap, maxCost, w, steps).Some?
        ensures DaySum(After(cap, maxCost, w, steps).value.events, day) <= cap
      {
        OvershootIsBounded(cap, maxCost, w, steps, day);
      }
    } else {
      var w := AlmostSpent(cap, count);
      AlmostSpentIsStart(cap, count);
      CapIsOvershot(cap, maxCost, w);
    }
  }
}
