/** Algebraic laws of the merge: absorption, idempotence, and how far it forgets arrival order. */
module MergeLaws {
  import opened Findings
  import opened Contracts

  /** Equal findings once the last line of the span is ignored. */
  predicate SameButSpan(f: Finding, g: Finding)
  {
    f.(lineEnd := g.lineEnd) == g
  }

  ghost predicate AllSameButSpan(a: seq<Finding>, b: seq<Finding>)
  {
    |a| == |b| && forall i :: 0 <= i < |a| ==> SameButSpan(a[i], b[i])
  }

  /** The output lists exactly the survivors, each at the place of its key. */
  lemma DedupeShape(a: seq<Finding>)
    ensures var keys := SortedKeys(Best(a).Keys);
            && |Dedupe(a)| == |keys|
            && (forall i :: 0 <= i < |keys| ==>
                 keys[i] in Best(a) && Dedupe(a)[i] == Best(a)[keys[i]] && KeyOf(Dedupe(a)[i]) == keys[i])
    ensures forall f :: f in Dedupe(a) <==> KeyOf(f) in Best(a) && Best(a)[KeyOf(f)] == f
  {
    SurvivorsAreUnbeaten(a);
    var keys := SortedKeys(Best(a).Keys);
    forall i | 0 <= i < |keys|
      ensures keys[i] in Best(a) && Dedupe(a)[i] == Best(a)[keys[i]] && KeyOf(Dedupe(a)[i]) == keys[i]
    {
      assert keys[i] in keys;
    }
    forall f | KeyOf(f) in Best(a) && Best(a)[KeyOf(f)] == f ensures f in Dedupe(a) {
      var i :| 0 <= i < |keys| && keys[i] == KeyOf(f);
      assert Dedupe(a)[i] == f;
    }
  }

  /** Every finding has a survivor at its key that it does not beat. */
  lemma SurvivorFor(a: seq<Finding>, f: Finding) returns (s: Finding)
    requires f in a
    ensures s in Dedupe(a) && s in a && KeyOf(s) == KeyOf(f) && !IsBetter(f, s)
  {
    SurvivorsAreUnbeaten(a);
    s := Best(a)[KeyOf(f)];
    SurvivorIsOutput(a, KeyOf(f));
  }

  lemma SurvivorIsOutput(a: seq<Finding>, k: Key)
    requires k in Best(a)
    ensures Best(a)[k] in Dedupe(a)
  {
    DedupeShape(a);
    SurvivorsAreUnbeaten(a);
  }

  /** The output comes from the input. */
  lemma OutputIsInput(a: seq<Finding>, s: Finding)
    requires s in Dedupe(a)
    ensures s in a
  {
    DedupeShape(a);
    SurvivorsAreUnbeaten(a);
  }

  /** Keys of the output are strictly ascending, so no two survivors share a location. */
  lemma OutputIsSortedByLocation(a: seq<Finding>, i: int, j: int)
    requires 0 <= i < j < |Dedupe(a)|
    ensures KeyLess(KeyOf(Dedupe(a)[i]), KeyOf(Dedupe(a)[j]))
  {
    DedupeShape(a);
  }

  lemma SurvivorIsBestOfDedupe(a: seq<Finding>, k: Key)
    ensures k in Best(Dedupe(a)) <==> k in Best(a)
    ensures k in Best(a) ==> Best(Dedupe(a))[k] == Best(a)[k]
  {
    DedupeShape(a);
    SurvivorsAreUnbeaten(Dedupe(a));
    if k in Best(a) {
      SurvivorsAreUnbeaten(a);
      var s := Best(a)[k];
      assert s in Dedupe(a) && KeyOf(s) == k;
      var t := Best(Dedupe(a))[k];
      assert t in Dedupe(a);
    }
  }

  lemma BestOfDedupe(a: seq<Finding>)
    ensures Best(Dedupe(a)) == Best(a)
  {
    var d := Best(Dedupe(a));
    forall k ensures k in d <==> k in Best(a) {
      SurvivorIsBestOfDedupe(a, k);
    }
    forall k | k in d ensures d[k] == Best(a)[k] {
      SurvivorIsBestOfDedupe(a, k);
    }
  }

  /** Merging part of the findings early never changes the result. */
  lemma DedupeAbsorbs(a: seq<Finding>, b: seq<Finding>)
    ensures Dedupe(Dedupe(a) + b) == Dedupe(a + b)
  {
    BestOfDedupe(a);
    BestFromAppend(map[], Dedupe(a), b);
    BestFromAppend(map[], a, b);
  }

  lemma DedupeIsIdempotent(a: seq<Finding>)
    ensures Dedupe(Dedupe(a)) == Dedupe(a)
  {
    DedupeAbsorbs(a, []);
    assert Dedupe(a) + [] == Dedupe(a);
    assert a + [] == a;
  }

  lemma SameMembers(a: seq<Finding>, b: seq<Finding>)
    requires multiset(a) == multiset(b)
    ensures forall f :: f in a <==> f in b
  {
    forall f ensures f in a <==> f in b {
      assert f in a <==> f in multiset(a);
      assert f in b <==> f in multiset(b);
    }
  }

  lemma SameMembersSameKeys(a: seq<Finding>, b: seq<Finding>)
    requires forall f :: f in a <==> f in b
    ensures Best(a).Keys == Best(b).Keys
    ensures forall k :: k in Best(a) ==> SameRank(Best(a)[k], Best(b)[k]) && SameButSpan(Best(a)[k], Best(b)[k])
  {
    SurvivorsAreUnbeaten(a);
    SurvivorsAreUnbeaten(b);
    forall k ensures k in Best(a) <==> k in Best(b) {}
    forall k | k in Best(a)
      ensures SameRank(Best(a)[k], Best(b)[k]) && SameButSpan(Best(a)[k], Best(b)[k])
    {
      RankingIsTotalUpToRank(Best(a)[k], Best(b)[k]);
    }
  }

  /** Arrival order affects nothing but the last line of a span. */
  lemma ArrivalOrderMattersOnlyForSpans(a: seq<Finding>, b: seq<Finding>)
    requires multiset(a) == multiset(b)
    ensures AllSameButSpan(Dedupe(a), Dedupe(b))
  {
    SameMembers(a, b);
    SameMembersSameKeys(a, b);
    DedupeShape(a);
    DedupeShape(b);
  }

  /** The result is the same list for every arrival order. */
  ghost predicate OrderFree(a: seq<Finding>)
  {
    forall b :: multiset(b) == multiset(a) ==> Dedupe(b) == Dedupe(a)
  }

  /** No two unbeaten findings at one location end on different lines. */
  ghost predicate SpansAgree(a: seq<Finding>)
  {
    forall f, g ::
      f in a && g in a && KeyOf(f) == KeyOf(g) && Unbeaten(a, f) && Unbeaten(a, g) ==> f.lineEnd == g.lineEnd
  }

  /**
   The documented promise that the output never depends on the input order holds exactly for inputs
   whose unbeaten findings agree on their last line, because the tie break does not look at it.
   */
  lemma OrderFreeExactlyWhenSpansAgree(a: seq<Finding>)
    ensures OrderFree(a) <==> SpansAgree(a)
  {
    if SpansAgree(a) {
      AgreeingSpansAreOrderFree(a);
    }
    if OrderFree(a) {
      forall f, g | f in a && g in a && KeyOf(f) == KeyOf(g) && Unbeaten(a, f) && Unbeaten(a, g)
        ensures f.lineEnd == g.lineEnd
      {
        EitherMayWin(a, f);
        EitherMayWin(a, g);
      }
    }
  }

  lemma SameSurvivor(a: seq<Finding>, b: seq<Finding>, k: Key)
    requires SpansAgree(a) && (forall f :: f in a <==> f in b)
    ensures k in Best(a) <==> k in Best(b)
    ensures k in Best(a) ==> Best(a)[k] == Best(b)[k]
  {
    SameMembersSameKeys(a, b);
    SurvivorsAreUnbeaten(a);
    SurvivorsAreUnbeaten(b);
    if k in Best(a) {
      var f, g := Best(a)[k], Best(b)[k];
      assert SameButSpan(f, g);
      assert Unbeaten(a, f) && Unbeaten(a, g);
    }
  }

  lemma AgreeingSpansAreOrderFree(a: seq<Finding>)
    requires SpansAgree(a)
    ensures OrderFree(a)
  {
    forall b | multiset(b) == multiset(a) ensures Dedupe(b) == Dedupe(a) {
      SameMembers(a, b);
      forall k ensures (k in Best(a) <==> k in Best(b)) && (k in Best(a) ==> Best(a)[k] == Best(b)[k]) {
        SameSurvivor(a, b, k);
      }
      assert Best(a) == Best(b);
    }
  }

  /** If order does not matter, every unbeaten finding is the one that survives, since it may arrive first. */
  lemma EitherMayWin(a: seq<Finding>, f: Finding)
    requires OrderFree(a) && f in a && Unbeaten(a, f)
    ensures KeyOf(f) in Best(a) && Best(a)[KeyOf(f)] == f
  {
    var p := ToFront(a, f);
    assert Dedupe(p) == Dedupe(a);
    BestOfDedupe(p);
    BestOfDedupe(a);
    FirstUnbeatenWins(p[1..], f);
    assert p == [f] + p[1..];
  }

  /** The same findings with `f` arriving first. */
  ghost function ToFront(a: seq<Finding>, f: Finding): (r: seq<Finding>)
    requires f in a
    ensures multiset(r) == multiset(a)
    ensures |r| > 0 && r[0] == f && forall g :: g in r[1..] ==> g in a
  {
    var i :| 0 <= i < |a| && a[i] == f;
    assert a == a[..i] + [a[i]] + a[i + 1..];
    [f] + (a[..i] + a[i + 1..])
  }

  lemma FirstUnbeatenWins(rest: seq<Finding>, f: Finding)
    requires Unbeaten(rest, f)
    ensures KeyOf(f) in Best([f] + rest) && Best([f] + rest)[KeyOf(f)] == f
  {
    HolderStays(map[KeyOf(f) := f], rest, f);
    BestFromAppend(map[], [f], rest);
  }

  lemma {:induction false} HolderStays(best: map<Key, Finding>, rest: seq<Finding>, f: Finding)
    requires KeyOf(f) in best && best[KeyOf(f)] == f
    requires Unbeaten(rest, f)
    ensures KeyOf(f) in BestFrom(best, rest) && BestFrom(best, rest)[KeyOf(f)] == f
    decreases |rest|
  {
    if rest != [] {
      assert rest[0] in rest;
      HolderStays(Keep(best, rest[0]), rest[1..], f);
    }
  }

  /** Among unbeaten findings of one location the earliest survives: the input determines the output completely. */
  lemma EarliestUnbeatenSurvives(a: seq<Finding>, i: int)
    requires 0 <= i < |a| && Unbeaten(a, a[i])
    requires forall j :: 0 <= j < i && KeyOf(a[j]) == KeyOf(a[i]) ==> !Unbeaten(a, a[j])
    ensures a[i] in Dedupe(a)
  {
    var f := a[i];
    var before, rest := a[..i], a[i + 1..];
    assert a == before + ([f] + rest);
    SurvivorsAreUnbeaten(before);
    var held := Best(before);
    if KeyOf(f) in held {
      var h := held[KeyOf(f)];
      var j :| 0 <= j < i && a[j] == h;
      var g :| g in a && KeyOf(g) == KeyOf(h) && IsBetter(g, h);
      RankingIsStrictWeakOrder(g, f, h);
      assert IsBetter(f, h);
    }
    BestFromAppend(map[], before, [f] + rest);
    HolderStays(Keep(held, f), rest, f);
    assert ([f] + rest)[1..] == rest;
    DedupeShape(a);
  }

  /** Two findings that tie on everything but the span: whichever arrives first is reported. */
  lemma FirstOfTwoTiedSpans(f: Finding, g: Finding)
    requires KeyOf(f) == KeyOf(g) && SameRank(f, g) && f.lineEnd != g.lineEnd
    ensures f in Dedupe([f, g]) && g !in Dedupe([f, g])
    ensures g in Dedupe([g, f]) && f !in Dedupe([g, f])
  {
    RankingIsTotalUpToRank(f, g);
    RankingIsTotalUpToRank(f, f);
    RankingIsTotalUpToRank(g, g);
    EarliestUnbeatenSurvives([f, g], 0);
    EarliestUnbeatenSurvives([g, f], 0);
    DedupeShape([f, g]);
    DedupeShape([g, f]);
  }
}
