/** Merging the specialists' findings (backend/agents/contracts.py). */
module Contracts {
  import opened Text
  import opened Findings

  /** The dedup key: exact file path and exact first line. */
  datatype Key = Key(path: string, line: int)

  function KeyOf(f: Finding): Key
  {
    Key(f.filePath, f.lineStart)
  }

  /** Tuple order on (file path, first line). */
  predicate KeyLess(a: Key, b: Key)
  {
    if a.path != b.path then Less(a.path, b.path) else a.line < b.line
  }

  lemma KeyOrderIsTotal(a: Key, b: Key)
    ensures KeyLess(a, b) ==> a != b && !KeyLess(b, a)
    ensures a != b ==> KeyLess(a, b) || KeyLess(b, a)
  {
    LessIsTrichotomous(a.path, b.path);
  }

  lemma KeyOrderIsTransitive(a: Key, b: Key, c: Key)
    requires KeyLess(a, b) && KeyLess(b, c)
    ensures KeyLess(a, c)
  {
    if a.path != b.path && b.path != c.path {
      LessIsTransitive(a.path, b.path, c.path);
      LessIsTrichotomous(a.path, c.path);
    }
  }

  // ---------------------------------------------------------------- ranking

  /** Tuple order on (agent rank, category, rationale). */
  predicate TieBreakLess(a: Finding, b: Finding)
  {
    if AgentRank(a.agent) != AgentRank(b.agent) then AgentRank(a.agent) < AgentRank(b.agent)
    else if a.category != b.category then Less(a.category, b.category)
    else Less(a.rationale, b.rationale)
  }

  /** True if `candidate` replaces `current` at the same key: severity first, then confidence, then the tie break. */
  predicate IsBetter(candidate: Finding, current: Finding)
  {
    if candidate.severity != current.severity then
      SeverityRank(candidate.severity) < SeverityRank(current.severity)
    else if candidate.confidence != current.confidence then
      candidate.confidence > current.confidence
    else
      TieBreakLess(candidate, current)
  }

  /** Two findings that agree on everything the ranking looks at. */
  predicate SameRank(a: Finding, b: Finding)
  {
    && a.severity == b.severity
    && a.confidence == b.confidence
    && a.agent == b.agent
    && a.category == b.category
    && a.rationale == b.rationale
  }

  /** `IsBetter` never holds both ways, and fails both ways exactly for findings of the same rank. */
  lemma RankingIsTotalUpToRank(a: Finding, b: Finding)
    ensures IsBetter(a, b) ==> !IsBetter(b, a)
    ensures !IsBetter(a, b) && !IsBetter(b, a) <==> SameRank(a, b)
  {
    LessIsTrichotomous(a.category, b.category);
    LessIsTrichotomous(a.rationale, b.rationale);
  }

  /** `IsBetter` and its complement are both transitive, so it is a strict weak order. */
  lemma RankingIsStrictWeakOrder(a: Finding, b: Finding, c: Finding)
    ensures IsBetter(a, b) && IsBetter(b, c) ==> IsBetter(a, c)
    ensures !IsBetter(a, b) && !IsBetter(b, c) ==> !IsBetter(a, c)
  {
    RankingIsTotalUpToRank(a, b);
    RankingIsTotalUpToRank(b, c);
    if IsBetter(a, b) && IsBetter(b, c) {
      BetterIsTransitive(a, b, c);
    }
    if !IsBetter(a, b) && !IsBetter(b, c) && IsBetter(b, a) && IsBetter(c, b) {
      BetterIsTransitive(c, b, a);
      RankingIsTotalUpToRank(a, c);
    }
  }

  lemma BetterIsTransitive(a: Finding, b: Finding, c: Finding)
    requires IsBetter(a, b) && IsBetter(b, c)
    ensures IsBetter(a, c)
  {
    LessIsTrichotomous(a.category, c.category);
    if Less(a.category, b.category) && Less(b.category, c.category) {
      LessIsTransitive(a.category, b.category, c.category);
    }
    if Less(a.rationale, b.rationale) && Less(b.rationale, c.rationale) {
      LessIsTransitive(a.rationale, b.rationale, c.rationale);
    }
  }

  // ------------------------------------------------- the specification fold

  /** One iteration of the merge: keep `f` if its key is new or it beats the current holder. */
  function Keep(best: map<Key, Finding>, f: Finding): map<Key, Finding>
  {
    if KeyOf(f) !in best || IsBetter(f, best[KeyOf(f)]) then best[KeyOf(f) := f] else best
  }

  function BestFrom(best: map<Key, Finding>, findings: seq<Finding>): map<Key, Finding>
    decreases |findings|
  {
    if findings == [] then best else BestFrom(Keep(best, findings[0]), findings[1..])
  }

  /** The dictionary the merge ends with. */
  function Best(findings: seq<Finding>): map<Key, Finding>
  {
    BestFrom(map[], findings)
  }

  /** The keys of a merge in ascending order. */
  ghost function SortedKeys(keys: set<Key>): (r: seq<Key>)
    ensures StrictlySorted(r)
    ensures forall k :: k in r <==> k in keys
  {
    if keys == {} then [] else
      HasLeast(keys);
      var least :| IsLeast(least, keys);
      var rest := SortedKeys(keys - {least});
      assert forall k :: k in rest ==> KeyLess(least, k);
      [least] + rest
  }

  ghost predicate StrictlySorted(keys: seq<Key>)
  {
    forall i, j :: 0 <= i < j < |keys| ==> KeyLess(keys[i], keys[j])
  }

  ghost predicate IsLeast(least: Key, keys: set<Key>)
  {
    least in keys && forall k :: k in keys && k != least ==> KeyLess(least, k)
  }

  lemma HasLeast(keys: set<Key>)
    requires keys != {}
    ensures exists least :: IsLeast(least, keys)
  {
    var x :| x in keys;
    var rest := keys - {x};
    if rest == {} {
      assert keys == {x};
      assert IsLeast(x, keys);
    } else {
      HasLeast(rest);
      var least :| IsLeast(least, rest);
      KeyOrderIsTotal(x, least);
      if KeyLess(x, least) {
        forall k | k in keys && k != x ensures KeyLess(x, k) {
          if k != least {
            assert k in rest;
            KeyOrderIsTransitive(x, least, k);
          }
        }
        assert IsLeast(x, keys);
      } else {
        assert IsLeast(least, keys);
      }
    }
  }

  /** A strictly sorted sequence is determined by its elements. */
  lemma {:induction false} SortedIsUnique(a: seq<Key>, b: seq<Key>)
    requires StrictlySorted(a) && StrictlySorted(b)
    requires forall k :: k in a <==> k in b
    ensures a == b
  {
    if a == [] {
      NoElements(b);
    } else if b == [] {
      NoElements(a);
    } else {
      KeyOrderIsTotal(a[0], b[0]);
      assert a[0] in b && b[0] in a;
      var i :| 0 <= i < |b| && b[i] == a[0];
      var j :| 0 <= j < |a| && a[j] == b[0];
      assert a[0] == b[0];
      forall k ensures k in a[1..] <==> k in b[1..] {
        TailMembership(a, k);
        TailMembership(b, k);
      }
      SortedIsUnique(a[1..], b[1..]);
      assert a == [a[0]] + a[1..] && b == [b[0]] + b[1..];
    }
  }

  lemma NoElements(a: seq<Key>)
    ensures (forall k :: k !in a) ==> a == []
  {
    if |a| > 0 {
      assert a[0] in a;
    }
  }

  lemma TailMembership(a: seq<Key>, k: Key)
    requires StrictlySorted(a) && |a| > 0
    ensures k in a[1..] <==> k in a && k != a[0]
  {
    KeyOrderIsTotal(a[0], k);
    if k in a && k != a[0] {
      var i :| 0 <= i < |a| && a[i] == k;
      assert a[1..][i - 1] == k;
    }
    if k in a[1..] {
      var i :| 0 <= i < |a| - 1 && a[1..][i] == k;
      assert a[i + 1] == k;
    }
  }

  /** What the merge returns: the best finding of each key, in key order. */
  ghost function Dedupe(findings: seq<Finding>): (r: seq<Finding>)
    ensures |r| == |SortedKeys(Best(findings).Keys)|
  {
    var keys := SortedKeys(Best(findings).Keys);
    seq(|keys|, i requires 0 <= i < |keys| => Best(findings)[keys[i]])
  }

  // -------------------------------------------------------------- the merge

  /** Insertion of one key into a sorted list of keys. */
  function InsertKey(keys: seq<Key>, k: Key): (r: seq<Key>)
    requires StrictlySorted(keys) && k !in keys
    ensures StrictlySorted(r)
    ensures forall x :: x in r <==> x == k || x in keys
  {
    if keys == [] then [k]
    else
      KeyOrderIsTotal(k, keys[0]);
      if KeyLess(k, keys[0]) then
        assert forall i :: 0 < i < |keys| ==> KeyLess(k, keys[i]) by {
          forall i | 0 < i < |keys| ensures KeyLess(k, keys[i]) {
            KeyOrderIsTransitive(k, keys[0], keys[i]);
          }
        }
        [k] + keys
      else
        assert keys == [keys[0]] + keys[1..];
        var rest := InsertKey(keys[1..], k);
        assert forall i :: 0 <= i < |rest| ==> rest[i] == k || rest[i] in keys[1..];
        [keys[0]] + rest
  }

  method SortKeys(keys: seq<Key>) returns (r: seq<Key>)
    requires forall i, j :: 0 <= i < j < |keys| ==> keys[i] != keys[j]
    ensures StrictlySorted(r)
    ensures forall k :: k in r <==> k in keys
  {
    r := [];
    for n := 0 to |keys|
      invariant StrictlySorted(r)
      invariant forall k :: k in r <==> k in keys[..n]
    {
      assert keys[n] !in keys[..n];
      r := InsertKey(r, keys[n]);
      assert keys[..n + 1] == keys[..n] + [keys[n]];
    }
    assert keys[..|keys|] == keys;
  }

  /** The source's merge: a dictionary filled in arrival order, then read out by sorted key. */
  method DedupeFindings(findings: seq<Finding>) returns (r: seq<Finding>)
    ensures r == Dedupe(findings)
  {
    var best: map<Key, Finding> := map[];
    var order: seq<Key> := [];
    for n := 0 to |findings|
      invariant best == Best(findings[..n])
      invariant forall k :: k in order <==> k in best
      invariant forall i, j :: 0 <= i < j < |order| ==> order[i] != order[j]
    {
      var f := findings[n];
      assert findings[..n + 1] == findings[..n] + [f];
      BestFromAppend(map[], findings[..n], [f]);
      var key := KeyOf(f);
      if key !in best {
        best := best[key := f];
        order := order + [key];
      } else if IsBetter(f, best[key]) {
        best := best[key := f];
      }
    }
    assert findings[..|findings|] == findings;
    var keys := SortKeys(order);
    SortedIsUnique(keys, SortedKeys(best.Keys));
    r := [];
    for i := 0 to |keys|
      invariant |r| == i
      invariant forall j :: 0 <= j < i ==> r[j] == best[keys[j]]
    {
      assert keys[i] in keys;
      r := r + [best[keys[i]]];
    }
  }

  lemma {:induction false} BestFromAppend(best: map<Key, Finding>, a: seq<Finding>, b: seq<Finding>)
    ensures BestFrom(best, a + b) == BestFrom(BestFrom(best, a), b)
    decreases |a|
  {
    if a == [] {
      assert a + b == b;
    } else {
      assert (a + b)[0] == a[0] && (a + b)[1..] == a[1..] + b;
      BestFromAppend(Keep(best, a[0]), a[1..], b);
    }
  }

  // ------------------------------------------------------ who survives

  /** `f` has key `k` and nothing in `findings` with that key beats it. */
  ghost predicate Unbeaten(findings: seq<Finding>, f: Finding)
  {
    forall g :: g in findings && KeyOf(g) == KeyOf(f) ==> !IsBetter(g, f)
  }

  lemma {:induction false} BestFromHolds(best: map<Key, Finding>, findings: seq<Finding>)
    requires forall k :: k in best ==> KeyOf(best[k]) == k
    ensures var r := BestFrom(best, findings);
            && (forall k :: k in r <==> k in best || exists f :: f in findings && KeyOf(f) == k)
            && (forall k :: k in r ==>
                  && KeyOf(r[k]) == k
                  && (r[k] in findings || (k in best && r[k] == best[k]))
                  && (k in best ==> !IsBetter(best[k], r[k]))
                  && Unbeaten(findings, r[k]))
    decreases |findings|
  {
    if findings != [] {
      var f := findings[0];
      var next := Keep(best, f);
      BestFromHolds(next, findings[1..]);
      var r := BestFrom(next, findings[1..]);
      forall k | k in r
        ensures k in best ==> !IsBetter(best[k], r[k])
        ensures Unbeaten(findings, r[k])
      {
        if k in best {
          RankingIsTotalUpToRank(best[k], next[k]);
          RankingIsStrictWeakOrder(best[k], next[k], r[k]);
        }
        if KeyOf(f) == k {
          RankingIsTotalUpToRank(f, next[k]);
          RankingIsStrictWeakOrder(f, next[k], r[k]);
        }
        forall g | g in findings && KeyOf(g) == k ensures !IsBetter(g, r[k]) {
          if g != f {
            assert g in findings[1..];
          }
        }
      }
      forall k ensures k in r <==> k in best || exists g :: g in findings && KeyOf(g) == k {
        if g :| g in findings && KeyOf(g) == k {
          assert g == f || g in findings[1..];
        }
        if k == KeyOf(f) {
          assert f in findings;
        }
      }
    } else {
      forall k | k in best ensures !IsBetter(best[k], best[k]) {
        RankingIsTotalUpToRank(best[k], best[k]);
      }
    }
  }

  /** Every key of the input survives once, held by a finding of the input that nothing at that key beats. */
  lemma SurvivorsAreUnbeaten(findings: seq<Finding>)
    ensures forall k :: k in Best(findings) <==> exists f :: f in findings && KeyOf(f) == k
    ensures forall k :: k in Best(findings) ==>
              && KeyOf(Best(findings)[k]) == k
              && Best(findings)[k] in findings
              && Unbeaten(findings, Best(findings)[k])
  {
    BestFromHolds(map[], findings);
  }
}
