/** What a call costs (backend/economics/pricing.py). Costs are in micro-dollars. */
module Pricing {
  import opened Text

  datatype ModelPrice = ModelPrice(inputPerMillion: real, outputPerMillion: real)

  /** US dollars per million tokens; an unknown model has no price. */
  function PriceOf(model: string): Option<ModelPrice>
  {
    if model == "claude-haiku-4-5" then Some(ModelPrice(1.0, 5.0))
    else if model == "claude-sonnet-5" then Some(ModelPrice(2.0, 10.0))
    else None
  }

  /** An amount of dollars as micro-dollars, to the nearest, halves to the even one. */
  function Quantized(dollars: real): (q: int)
    ensures -0.5 <= q as real - dollars * 1000000.0 <= 0.5
    ensures q as real - dollars * 1000000.0 == 0.5 || q as real - dollars * 1000000.0 == -0.5 ==> q % 2 == 0
  {
    var exact := dollars * 1000000.0;
    var low := exact.Floor;
    var rest := exact - low as real;
    if rest < 0.5 || (rest == 0.5 && low % 2 == 0) then low else low + 1
  }

  function ComputeCost(model: string, tokensIn: int, tokensOut: int): Option<int>
  {
    match PriceOf(model)
    case None => None
    case Some(p) =>
      Some(Quantized(tokensIn as real / 1000000.0 * p.inputPerMillion +
        tokensOut as real / 1000000.0 * p.outputPerMillion))
  }

  /** At whole-dollar prices a token costs a whole number of micro-dollars, so nothing is lost to rounding. */
  lemma {:induction false} CostIsExact(model: string, tokensIn: int, tokensOut: int)
    ensures ComputeCost(model, tokensIn, tokensOut) ==
            if model == "claude-haiku-4-5" then Some(tokensIn + 5 * tokensOut)
            else if model == "claude-sonnet-5" then Some(2 * tokensIn + 10 * tokensOut)
            else None
  {
    if model == "claude-haiku-4-5" {
      OneAndFive(tokensIn, tokensOut);
      CostAt(model, ModelPrice(1.0, 5.0), tokensIn, tokensOut, tokensIn + 5 * tokensOut);
    } else if model == "claude-sonnet-5" {
      TwoAndTen(tokensIn, tokensOut);
      CostAt(model, ModelPrice(2.0, 10.0), tokensIn, tokensOut, 2 * tokensIn + 10 * tokensOut);
    }
  }

  lemma CostAt(model: string, p: ModelPrice, tokensIn: int, tokensOut: int, cost: int)
    requires PriceOf(model) == Some(p)
    requires tokensIn as real / 1000000.0 * p.inputPerMillion + tokensOut as real / 1000000.0 * p.outputPerMillion ==
               cost as real / 1000000.0
    ensures ComputeCost(model, tokensIn, tokensOut) == Some(cost)
  {
    WholeMicroDollars(cost);
  }

  lemma OneAndFive(m: int, n: int)
    ensures m as real / 1000000.0 * 1.0 + n as real / 1000000.0 * 5.0 == (m + 5 * n) as real / 1000000.0
  {
  }

  lemma TwoAndTen(m: int, n: int)
    ensures m as real / 1000000.0 * 2.0 + n as real / 1000000.0 * 10.0 == (2 * m + 10 * n) as real / 1000000.0
  {
  }

  lemma WholeMicroDollars(n: int)
    ensures Quantized(n as real / 1000000.0) == n
  {
    var exact := n as real / 1000000.0 * 1000000.0;
    assert exact == n as real;
    assert exact.Floor == n;
  }
}

/** The append-only event table and the daily sums over it (backend/database/repository.py). */
module EventStore {
  import opened Breaker

  const DAY: int := 86_400_000_000

  /** A row: when, whether it is an `llm.call`, and its cost. Times are microseconds since the epoch, UTC. */
  datatype Event = Event(ts: int, isLlmCall: bool, cost: int)

  function DayOf(t: int): int
  {
    t / DAY
  }

  /** Midnight before `t`. */
  function StartOfDay(t: int): int
  {
    t - t % DAY
  }

  function CostWithin(e: Event, lo: int, hi: int): int
  {
    if e.isLlmCall && lo <= e.ts < hi then e.cost else 0
  }

  /** The cost of all calls with a timestamp in [lo, hi). */
  function WindowSum(events: seq<Event>, lo: int, hi: int): int
  {
    if events == [] then 0 else WindowSum(events[..|events| - 1], lo, hi) + CostWithin(events[|events| - 1], lo, hi)
  }

  function DaySum(events: seq<Event>, day: int): int
  {
    WindowSum(events, day * DAY, day * DAY + DAY)
  }

  lemma StartOfDayIsDay(t: int)
    ensures StartOfDay(t) == DayOf(t) * (24 * 60 * 60 * 1_000_000)
    ensures StartOfDay(t) <= t < StartOfDay(t) + 24 * 60 * 60 * 1_000_000
  {
  }

  lemma InWindowOfDay(t: int, day: int)
    ensures day * DAY <= t < day * DAY + DAY <==> DayOf(t) == day
  {
  }

  lemma SumSnoc(events: seq<Event>, e: Event, lo: int, hi: int)
    ensures WindowSum(events + [e], lo, hi) == WindowSum(events, lo, hi) + CostWithin(e, lo, hi)
  {
    assert (events + [e])[..|events|] == events;
  }

  lemma {:induction false} RowOfDay(events: seq<Event>, e: Event, day: int)
    ensures DaySum(events + [e], day) == DaySum(events, day) + if e.isLlmCall && DayOf(e.ts) == day then e.cost else 0
  {
    SumSnoc(events, e, day * DAY, day * DAY + DAY);
    InWindowOfDay(e.ts, day);
  }

  /** A row moves the sum of its own day only; a row dated to another day, past or future, moves nothing today. */
  lemma {:induction false} RowMovesOnlyItsDay(events: seq<Event>, e: Event, day: int)
    ensures var midnight := day * (24 * 60 * 60 * 1_000_000);
            DaySum(events + [e], day) == DaySum(events, day) +
              if e.isLlmCall && midnight <= e.ts < midnight + 24 * 60 * 60 * 1_000_000 then e.cost else 0
  {
    RowOfDay(events, e, day);
    InWindowOfDay(e.ts, day);
  }

  lemma {:induction false} WindowsAddUp(events: seq<Event>, lo: int, mid: int, hi: int)
    requires lo <= mid <= hi
    ensures WindowSum(events, lo, mid) + WindowSum(events, mid, hi) == WindowSum(events, lo, hi)
    decreases |events|
  {
    if events != [] {
      WindowsAddUp(events[..|events| - 1], lo, mid, hi);
    }
  }

  /** Daily sums over days [first, last) added up. */
  function SumOfDays(events: seq<Event>, first: int, last: int): int
    decreases last - first
  {
    if last <= first then 0 else SumOfDays(events, first, last - 1) + DaySum(events, last - 1)
  }

  lemma {:induction false} EmptyWindow(events: seq<Event>, t: int)
    ensures WindowSum(events, t, t) == 0
    decreases |events|
  {
    if events != [] {
      EmptyWindow(events[..|events| - 1], t);
    }
  }

  lemma {:induction false} DaysPartitionTheirSpan(events: seq<Event>, first: int, last: int)
    requires first <= last
    ensures SumOfDays(events, first, last) == WindowSum(events, first * DAY, last * DAY)
    decreases last - first
  {
    if first == last {
      EmptyWindow(events, first * DAY);
    } else {
      DaysPartitionTheirSpan(events, first, last - 1);
      WindowsAddUp(events, first * DAY, (last - 1) * DAY, last * DAY);
    }
  }

  function TotalSpend(events: seq<Event>): int
  {
    if events == [] then 0 else
      TotalSpend(events[..|events| - 1]) + if events[|events| - 1].isLlmCall then events[|events| - 1].cost else 0
  }

  lemma {:induction false} WholeSpanIsTotal(events: seq<Event>, lo: int, hi: int)
    requires forall i :: 0 <= i < |events| ==> lo <= events[i].ts < hi
    ensures WindowSum(events, lo, hi) == TotalSpend(events)
    decreases |events|
  {
    if events != [] {
      WholeSpanIsTotal(events[..|events| - 1], lo, hi);
    }
  }

  /** Every call is counted on exactly one day: the daily sums add up to all that was spent. */
  lemma DailySumsConserveSpend(events: seq<Event>, first: int, last: int)
    requires first <= last && forall i :: 0 <= i < |events| ==> first <= DayOf(events[i].ts) < last
    ensures SumOfDays(events, first, last) == TotalSpend(events)
  {
    forall i | 0 <= i < |events| ensures first * DAY <= events[i].ts < last * DAY {
      StartOfDayIsDay(events[i].ts);
    }
    DaysPartitionTheirSpan(events, first, last);
    WholeSpanIsTotal(events, first * DAY, last * DAY);
  }

  /** How an insert goes on the wire; a failed one may have stored its row. */
  datatype Insert = Insert(enteredAt: real, endedAt: real, ending: Ending, stored: bool)

  class EventRepository {
    const breaker: CircuitBreaker
    var events: seq<Event>

    constructor (config: Config)
      requires config.Valid()
      ensures fresh(breaker) && breaker.config == config && breaker.Now() == INITIAL && events == []
    {
      breaker := new CircuitBreaker(config);
      events := [];
    }

    method InsertEvent(e: Event, wire: Insert) returns (ok: bool)
      modifies this, breaker
      ensures var admitted := Admits(breaker.config, old(breaker.Now()), wire.enteredAt);
              && events ==
                 (if admitted && (wire.stored || wire.ending == Return) then old(events) + [e] else old(events))
              && ok == (admitted && wire.ending == Return)
      ensures breaker.Now() == AfterCall(breaker.config, old(breaker.Now()), wire.enteredAt, wire.ending, wire.endedAt)
    {
      var admitted := breaker.Call(wire.enteredAt, wire.ending, wire.endedAt);
      if admitted && (wire.stored || wire.ending == Return) {
        events := events + [e];
      }
      return admitted && wire.ending == Return;
    }

    method SumLlmCostForDay(dayStart: int) returns (sum: int)
      ensures sum == WindowSum(events, dayStart, dayStart + DAY)
    {
      var dayEnd := dayStart + DAY;
      sum := 0;
      for i := 0 to |events|
        invariant sum == WindowSum(events[..i], dayStart, dayEnd)
      {
        assert events[..i + 1][..i] == events[..i];
        if events[i].isLlmCall && dayStart <= events[i].ts < dayEnd {
          sum := sum + events[i].cost;
        }
      }
      assert events[..|events|] == events;
    }
  }
}

/**
 The daily cap: checked before a call, recorded after it (backend/economics/budget.py, backend/tools/llm_client.py).
 */
module Budget {
  import opened Text
  import opened Pricing
  import opened EventStore
  import Breaker

  /** The guard blocks. */
  predicate Blocks(cap: int, events: seq<Event>, day: int)
  {
    DaySum(events, day) >= cap
  }

  class BudgetGuard {
    const repository: EventRepository
    const dailyCap: int

    constructor (repository: EventRepository, dailyCap: int)
      ensures this.repository == repository && this.dailyCap == dailyCap
    {
      this.repository, this.dailyCap := repository, dailyCap;
    }

    /** What has been spent, if that blocks the call. */
    method CheckAndRaise(now: int) returns (over: Option<int>)
      ensures var spent := DaySum(repository.events, DayOf(now));
              over == if Blocks(dailyCap, repository.events, DayOf(now)) then Some(spent) else None
    {
      StartOfDayIsDay(now);
      var spent := repository.SumLlmCostForDay(StartOfDay(now));
      return if spent >= dailyCap then Some(spent) else None;
    }
  }

  /** What the provider's side of a call comes to. */
  datatype Reply = NotConfigured | Failed | Usage(tokensIn: int, tokensOut: int)

  datatype Completion =
    | OverBudget(spent: int)
    | ConfigurationError
    | CallFailed
    | UnknownModelPrice
    | Completed(cost: int)

  class AnthropicLLMClient {
    const guard: BudgetGuard
    const model: string

    constructor (guard: BudgetGuard, model: string)
      ensures this.guard == guard && this.model == model
    {
      this.guard, this.model := guard, model;
    }

    /** Guard, then call, then record; `reviewed` says whether the call belongs to a review. */
    method Complete(now: int, reply: Reply, reviewed: bool, stampedAt: int, wire: Insert) returns (r: Completion)
      modifies guard.repository, guard.repository.breaker
      ensures var before := old(guard.repository.events);
              && (r.OverBudget? <==> Blocks(guard.dailyCap, before, DayOf(now)))
              && (r.Completed? <==> !r.OverBudget? && reply.Usage? && PriceOf(model).Some?)
              && (r.Completed? ==> Some(r.cost) == ComputeCost(model, reply.tokensIn, reply.tokensOut))
              && guard.repository.events ==
                 if r.Completed? && reviewed && (wire.stored || wire.ending.Return?) &&
                    Breaker.Admits(guard.repository.breaker.config, old(guard.repository.breaker.Now()), wire.enteredAt)
                 then before + [Event(stampedAt, true, r.cost)] else before
      ensures var breaker := guard.repository.breaker;
              breaker.Now() == if r.Completed? && reviewed
                               then Breaker.AfterCall(breaker.config, old(breaker.Now()), wire.enteredAt, wire.ending,
                                 wire.endedAt)
                               else old(breaker.Now())
      ensures r.OverBudget? ==> r.spent == DaySum(old(guard.repository.events), DayOf(now))
      ensures !r.OverBudget? && !r.Completed? ==>
                r == if reply.NotConfigured? then ConfigurationError
                     else if reply.Failed? then CallFailed else UnknownModelPrice
    {
      var over := guard.CheckAndRaise(now);
      if over.Some? {
        return OverBudget(over.value);
      }
      match reply {
        case NotConfigured => return ConfigurationError;
        case Failed => return CallFailed;
        case Usage(tokensIn, tokensOut) =>
          var cost := ComputeCost(model, tokensIn, tokensOut);
          if cost.None? {
            return UnknownModelPrice;
          }
          if reviewed {
            var _ := guard.repository.InsertEvent(Event(stampedAt, true, cost.value), wire);
          }
          return Completed(cost.value);
      }
    }
  }
}
