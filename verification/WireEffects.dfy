/** What retried operations leave behind: replies can be lost, and an operation may take effect all the same. */
module WireEffects {
  import opened Text
  import opened Breaker
  import opened ReliableCalls
  import F = FailureCounting
  import Retry

  /** What an operation whose reply was lost did to the other side: nothing, its effect, or its effect later. */
  datatype Effect = Never | Now | Later

  /** One attempt of an operation; a raised error carries what the operation did all the same. */
  type Wire = Attempt<(), Effect>

  /** What one attempt does: nothing if the breaker refuses it, its effect if acknowledged. */
  function EffectOf(cfg: Config, b: Fields, a: Wire): Effect
  {
    if !Admits(cfg, b, a.enteredAt) then Never
    else match a.outcome
      case Returned(_) => Now
      case Raised(_, effect) => effect
  }

  /** What the `i`-th attempt of a script does. */
  function EffectAt(cfg: Config, b: Fields, script: int -> Wire, i: int): Effect
  {
    EffectOf(cfg, FieldsAfter(cfg, b, script, i - 1), script(i))
  }

  /** How many of attempts `n` to `stop` have this effect. */
  function Count(cfg: Config, b: Fields, script: int -> Wire, kind: Effect, n: int, stop: int): nat
    decreases stop - n
  {
    if n > stop then 0 else
      (if EffectOf(cfg, b, script(n)) == kind then 1 else 0) +
        Count(cfg, AfterAttempt(cfg, b, script(n)), script, kind, n + 1, stop)
  }

  lemma {:induction false} CountIsBounded(cfg: Config, b: Fields, script: int -> Wire, kind: Effect, n: int, stop: int)
    ensures n <= stop + 1 ==> Count(cfg, b, script, kind, n, stop) <= stop - n + 1
    decreases stop - n
  {
    if n <= stop {
      CountIsBounded(cfg, AfterAttempt(cfg, b, script(n)), script, kind, n + 1, stop);
    }
  }

  lemma {:induction false} SomeExactlyWhen(cfg: Config, b: Fields, script: int -> Wire, kind: Effect, n: int, stop: int)
    requires n >= 1
    ensures Count(cfg, FieldsAfter(cfg, b, script, n - 1), script, kind, n, stop) >= 1 <==>
            exists i :: n <= i <= stop && EffectAt(cfg, b, script, i) == kind
    decreases stop - n
  {
    if n <= stop {
      SomeExactlyWhen(cfg, b, script, kind, n + 1, stop);
      assert EffectAt(cfg, b, script, n) == EffectOf(cfg, FieldsAfter(cfg, b, script, n - 1), script(n));
    }
  }

  /** Attempts `i` and `j` both have this effect. */
  predicate BothAt(cfg: Config, b: Fields, script: int -> Wire, kind: Effect, i: int, j: int)
  {
    EffectAt(cfg, b, script, i) == kind && EffectAt(cfg, b, script, j) == kind
  }

  lemma {:induction false} TwoExactlyWhen(cfg: Config, b: Fields, script: int -> Wire, kind: Effect, n: int, stop: int)
    requires n >= 1
    ensures Count(cfg, FieldsAfter(cfg, b, script, n - 1), script, kind, n, stop) >= 2 <==>
            exists i, j :: n <= i < j <= stop && BothAt(cfg, b, script, kind, i, j)
    decreases stop - n
  {
    if n <= stop {
      var now := FieldsAfter(cfg, b, script, n - 1);
      var rest := Count(cfg, FieldsAfter(cfg, b, script, n), script, kind, n + 1, stop);
      SomeExactlyWhen(cfg, b, script, kind, n + 1, stop);
      TwoExactlyWhen(cfg, b, script, kind, n + 1, stop);
      assert Count(cfg, now, script, kind, n, stop) == (if EffectAt(cfg, b, script, n) == kind then 1 else 0) + rest;
      if rest >= 2 {
        var i, j :| n + 1 <= i < j <= stop && BothAt(cfg, b, script, kind, i, j);
        assert n <= i < j <= stop && BothAt(cfg, b, script, kind, i, j);
      } else if rest == 1 && EffectAt(cfg, b, script, n) == kind {
        var j :| n + 1 <= j <= stop && EffectAt(cfg, b, script, j) == kind;
        assert n <= n < j <= stop && BothAt(cfg, b, script, kind, n, j);
      }
    }
  }

  /** The attempt a script stops with. */
  function StopOf(cfg: Config, p: Retry.Policy, b: Fields, script: int -> Wire): int
  {
    Tried(cfg, p, b, script, 1).2
  }

  /** Attempts before the stop reached the other side and got no reply, so what they did is what the script says. */
  lemma EarlierAttemptsAreUnanswered(cfg: Config, p: Retry.Policy, b: Fields, script: int -> Wire, i: int)
    requires p.Valid() && 1 <= i < StopOf(cfg, p, b, script)
    ensures script(i).outcome.Raised? && script(i).outcome.kind == Retry.Transient
    ensures EffectAt(cfg, b, script, i) == script(i).outcome.error
  {
    TriedIsRetried(cfg, p, b, script, 1);
    assert SeenAt(cfg, b, script, i).IsTransient();
  }

  /** Effects of the whole retried operation. */
  function Total(cfg: Config, p: Retry.Policy, b: Fields, script: int -> Wire, kind: Effect): nat
  {
    Count(cfg, b, script, kind, 1, StopOf(cfg, p, b, script))
  }

  lemma StopIsInRange(cfg: Config, p: Retry.Policy, b: Fields, script: int -> Wire)
    requires p.Valid()
    ensures 1 <= StopOf(cfg, p, b, script) <= p.maxAttempts
    ensures Total(cfg, p, b, script, Now) <= p.maxAttempts
  {
    TriedIsRetried(cfg, p, b, script, 1);
    CountIsBounded(cfg, b, script, Now, 1, StopOf(cfg, p, b, script));
  }

  /** How an attempt ends for the retry loop. */
  datatype Fate = Acked | Retried | Ended

  function FateOf(cfg: Config, b: Fields, a: Wire): Fate
  {
    if !Admits(cfg, b, a.enteredAt) then Ended
    else if a.outcome.Returned? then Acked
    else if a.outcome.kind == Retry.Transient then Retried
    else Ended
  }

  /**
   A retried operation: the breaker after it, how its last attempt ends, which that is, and how often it took effect.
   */
  datatype Operation = Operation(after: Fields, fate: Fate, stop: int, effects: nat)

  /** Attempts `n` and on of an operation. */
  function Performed(cfg: Config, p: Retry.Policy, b: Fields, script: int -> Wire, n: int): Operation
    decreases p.maxAttempts - n
  {
    var fate, after := FateOf(cfg, b, script(n)), AfterAttempt(cfg, b, script(n));
    var effects := if EffectOf(cfg, b, script(n)) == Now then 1 else 0;
    if fate == Retried && n < p.maxAttempts then
      var rest := Performed(cfg, p, after, script, n + 1);
      rest.(effects := effects + rest.effects)
    else Operation(after, fate, n, effects)
  }

  /**
   That is `_call_reliably`: the same attempts, breaker and effects, and the reply is a value exactly if acknowledged.
   */
  lemma {:induction false} PerformedIsCallReliably(cfg: Config, p: Retry.Policy, b: Fields, script: int -> Wire, n: int)
    ensures var o := Performed(cfg, p, b, script, n);
            var (tried, last, attempts) := Tried(cfg, p, b, script, n);
            && o.after == tried && o.stop == attempts >= n && o.effects == Count(cfg, b, script, Now, n, o.stop)
            && (o.fate == Acked <==> ReplyOf(Retry.VerdictOf(last, attempts)).Done?)
    decreases p.maxAttempts - n
  {
    var after := AfterAttempt(cfg, b, script(n));
    if FateOf(cfg, b, script(n)) == Retried && n < p.maxAttempts {
      PerformedIsCallReliably(cfg, p, after, script, n + 1);
    } else {
      assert Count(cfg, after, script, Now, n + 1, n) == 0;
    }
  }

  /** An attempt that took effect without an answer, before the stop. */
  predicate UnansweredEffect(cfg: Config, p: Retry.Policy, b: Fields, script: int -> Wire, i: int)
  {
    1 <= i < StopOf(cfg, p, b, script) && script(i).outcome.Raised? && script(i).outcome.error == Now
  }

  /**
   A retried operation takes effect twice exactly if an effective but unanswered attempt is followed by another
   effective one.
   */
  lemma TwiceExactlyWhen(cfg: Config, p: Retry.Policy, b: Fields, script: int -> Wire)
    requires p.Valid()
    ensures Total(cfg, p, b, script, Now) >= 2 <==>
            exists i, j :: UnansweredEffect(cfg, p, b, script, i) && i < j <= StopOf(cfg, p, b, script) &&
              EffectAt(cfg, b, script, j) == Now
  {
    var stop := StopOf(cfg, p, b, script);
    TwoExactlyWhen(cfg, b, script, Now, 1, stop);
    forall i | 1 <= i < stop ensures UnansweredEffect(cfg, p, b, script, i) <==> EffectAt(cfg, b, script, i) == Now {
      EarlierAttemptsAreUnanswered(cfg, p, b, script, i);
    }
    if i, j :| UnansweredEffect(cfg, p, b, script, i) && i < j <= stop && EffectAt(cfg, b, script, j) == Now {
      assert 1 <= i < j <= stop && BothAt(cfg, b, script, Now, i, j);
    }
  }

  /** It takes effect at all exactly if some attempt up to the stop does. */
  lemma OnceExactlyWhen(cfg: Config, p: Retry.Policy, b: Fields, script: int -> Wire)
    requires p.Valid()
    ensures Total(cfg, p, b, script, Now) >= 1 <==>
            EffectAt(cfg, b, script, StopOf(cfg, p, b, script)) == Now ||
              exists i :: UnansweredEffect(cfg, p, b, script, i)
  {
    var stop := StopOf(cfg, p, b, script);
    SomeExactlyWhen(cfg, b, script, Now, 1, stop);
    StopIsInRange(cfg, p, b, script);
    forall i | 1 <= i < stop ensures UnansweredEffect(cfg, p, b, script, i) <==> EffectAt(cfg, b, script, i) == Now {
      EarlierAttemptsAreUnanswered(cfg, p, b, script, i);
    }
  }

  // ------------------------------------------------- the effects, counted

  /** The attempt is let in, and is answered or has its effect unanswered. */
  predicate TakesEffect(cfg: Config, b: Fields, a: Wire)
  {
    F.LetsIn(cfg, b, a.enteredAt) && (a.outcome.Returned? || a.outcome.error == Now)
  }

  /** The attempts from `n` to `stop` that take effect. */
  ghost function Effective(cfg: Config, b: Fields, script: int -> Wire, n: int, stop: int): set<int>
  {
    set i | n <= i <= stop && TakesEffect(cfg, FieldsAfter(cfg, b, script, i - 1), script(i))
  }

  lemma EffectiveFrom(cfg: Config, b: Fields, script: int -> Wire, n: int, stop: int)
    requires n <= stop
    ensures |Effective(cfg, b, script, n, stop)| == |Effective(cfg, b, script, n + 1, stop)| +
              if TakesEffect(cfg, FieldsAfter(cfg, b, script, n - 1), script(n)) then 1 else 0
  {
    var all, rest := Effective(cfg, b, script, n, stop), Effective(cfg, b, script, n + 1, stop);
    if TakesEffect(cfg, FieldsAfter(cfg, b, script, n - 1), script(n)) {
      assert all == {n} + rest;
    } else {
      assert all == rest;
    }
  }

  lemma EffectIsTaken(cfg: Config, b: Fields, a: Wire)
    ensures EffectOf(cfg, b, a) == Now <==> TakesEffect(cfg, b, a)
  {
  }

  lemma CountFrom(cfg: Config, b: Fields, script: int -> Wire, n: int, stop: int)
    requires 1 <= n <= stop
    ensures Count(cfg, FieldsAfter(cfg, b, script, n - 1), script, Now, n, stop) ==
            Count(cfg, FieldsAfter(cfg, b, script, n), script, Now, n + 1, stop) +
              if TakesEffect(cfg, FieldsAfter(cfg, b, script, n - 1), script(n)) then 1 else 0
  {
    EffectIsTaken(cfg, FieldsAfter(cfg, b, script, n - 1), script(n));
  }

  lemma NoneEffective(cfg: Config, b: Fields, script: int -> Wire, n: int, stop: int)
    requires n > stop
    ensures |Effective(cfg, b, script, n, stop)| == 0
    ensures Count(cfg, FieldsAfter(cfg, b, script, n - 1), script, Now, n, stop) == 0
  {
    assert Effective(cfg, b, script, n, stop) == {};
  }

  /** Effects of attempts `n` to `stop`. */
  ghost predicate CountedFrom(cfg: Config, b: Fields, script: int -> Wire, n: int, stop: int)
  {
    Count(cfg, FieldsAfter(cfg, b, script, n - 1), script, Now, n, stop) == |Effective(cfg, b, script, n, stop)|
  }

  lemma OneMoreCounted(cfg: Config, b: Fields, script: int -> Wire, n: int, stop: int)
    requires 1 <= n <= stop && CountedFrom(cfg, b, script, n + 1, stop)
    ensures CountedFrom(cfg, b, script, n, stop)
  {
    EffectiveFrom(cfg, b, script, n, stop);
    CountFrom(cfg, b, script, n, stop);
  }

  lemma {:induction false} CountIsTheNumber(cfg: Config, b: Fields, script: int -> Wire, n: int, stop: int)
    requires n >= 1
    ensures CountedFrom(cfg, b, script, n, stop)
    decreases stop - n
  {
    if n <= stop {
      CountIsTheNumber(cfg, b, script, n + 1, stop);
      OneMoreCounted(cfg, b, script, n, stop);
    } else {
      NoneEffective(cfg, b, script, n, stop);
    }
  }

  /** How often a retried operation takes effect: as often as its attempts up to the stop do, each counted once. */
  lemma EffectsAreCounted(cfg: Config, p: Retry.Policy, b: Fields, script: int -> Wire)
    requires p.Valid()
    ensures Performed(cfg, p, b, script, 1).effects == Total(cfg, p, b, script, Now) ==
            |Effective(cfg, b, script, 1, StopOf(cfg, p, b, script))|
  {
    PerformedIsCallReliably(cfg, p, b, script, 1);
    CountIsTheNumber(cfg, b, script, 1, StopOf(cfg, p, b, script));
  }

  // ------------------------------------------------------------- witnesses

  /** The first attempt takes effect but its reply is lost; the second, `pause` later, is acknowledged. */
  function LostThenAcked(t: real, pause: real): int -> Wire
  {
    i => if i == 1 then Attempt(t, t, Retry.Raised(Retry.Transient, Now))
      else Attempt(t + pause, t + pause, Retry.Returned(()))
  }

  function AlwaysAcked(t: real): int -> Wire
  {
    i => Attempt(t, t, Retry.Returned(()))
  }

  /** One lost reply is enough for two effects, if the breaker stands one failure or the retry outlasts its timeout. */
  lemma LostThenAckedHappensTwice(cfg: Config, p: Retry.Policy, t: real, pause: real)
    requires cfg.Valid() && p.Valid() && p.maxAttempts >= 2 && (cfg.failureThreshold >= 2 || pause >= cfg.resetTimeout)
    ensures Tried(cfg, p, INITIAL, LostThenAcked(t, pause), 1) == (INITIAL, Retry.Returned(()), 2)
    ensures Total(cfg, p, INITIAL, LostThenAcked(t, pause), Now) == 2
  {
    var script := LostThenAcked(t, pause);
    var b := AfterAttempt(cfg, INITIAL, script(1));
    assert b == if cfg.failureThreshold >= 2 then Fields(Closed, 1, None, false) else Fields(Open, 1, Some(t), false);
    assert Admits(cfg, b, t + pause);
    assert Tried(cfg, p, b, script, 2) == (INITIAL, Retry.Returned(()), 2);
    assert Count(cfg, AfterAttempt(cfg, b, script(2)), script, Now, 3, 2) == 0;
    assert Count(cfg, b, script, Now, 2, 2) == 1;
  }

  lemma AlwaysAckedHappensOnce(cfg: Config, p: Retry.Policy, t: real)
    requires cfg.Valid() && p.Valid()
    ensures StopOf(cfg, p, INITIAL, AlwaysAcked(t)) == 1 &&
            Tried(cfg, p, INITIAL, AlwaysAcked(t), 1) == (INITIAL, Retry.Returned(()), 1)
    ensures Total(cfg, p, INITIAL, AlwaysAcked(t), Now) == 1
  {
    var script := AlwaysAcked(t);
    assert Count(cfg, AfterAttempt(cfg, INITIAL, script(1)), script, Now, 2, 1) == 0;
  }

  /** Whatever the wire does and whatever the breaker's state, the operation takes effect at most once. */
  ghost predicate NeverTwice(cfg: Config, p: Retry.Policy)
  {
    forall b: Fields, script: int -> Wire :: Total(cfg, p, b, script, Now) <= 1
  }

  /** An operation that is not idempotent by itself is safe behind the retry loop exactly if nothing is ever retried. */
  lemma NeverTwiceExactlyWhen(cfg: Config, p: Retry.Policy)
    requires cfg.Valid() && p.Valid()
    ensures NeverTwice(cfg, p) <==> p.maxAttempts == 1
  {
    if p.maxAttempts == 1 {
      forall b: Fields, script: int -> Wire ensures Total(cfg, p, b, script, Now) <= 1 {
        StopIsInRange(cfg, p, b, script);
      }
    } else {
      LostThenAckedHappensTwice(cfg, p, 0.0, cfg.resetTimeout);
    }
  }
}
