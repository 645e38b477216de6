/** The review's overall confidence and the human-review gate (backend/models/review.py, backend/hitl/queue.py). */
module ReviewGate {
  import opened Findings
  import opened Contracts
  import opened MergeLaws

  datatype Status = Posted | QueuedForHitl

  /** Why a review was routed; the values quoted are the ones that were compared. */
  datatype Reason =
    | CriticalPresent(confidence: Confidence, threshold: Confidence)
    | BelowThreshold(confidence: Confidence, threshold: Confidence)
    | MeetsThreshold(confidence: Confidence, threshold: Confidence)

  function TotalConfidence(findings: seq<Finding>): (r: int)
    ensures 0 <= r <= 1000 * |findings|
  {
    if findings == [] then 0 else findings[0].confidence + TotalConfidence(findings[1..])
  }

  /**
   Mean confidence rounded to three decimals, halves up; zero for an empty list.
   The contract says it is the closest thousandth to the mean, and the upper one when two are equally close.
   */
  function OverallConfidence(findings: seq<Finding>): (r: Confidence)
    ensures findings == [] ==> r == 0
    ensures findings != [] ==>
              && 2 * |findings| * r - |findings| <= 2 * TotalConfidence(findings)
              && 2 * TotalConfidence(findings) < 2 * |findings| * r + |findings|
  {
    if findings == [] then 0 else
      var n, total := |findings|, TotalConfidence(findings);
      var r := (2 * total + n) / (2 * n);
      QuotientBounds(2 * total + n, 2 * n);
      assert r <= 1000 by {
        if r > 1000 {
          assert 2 * n * r >= 2 * n * 1001 by { MulMonotone(2 * n, 1001, r); }
        }
      }
      r
  }

  lemma QuotientBounds(a: int, b: int)
    requires a >= 0 && b > 0
    ensures a / b >= 0
    ensures b * (a / b) <= a < b * (a / b) + b
  {
  }

  lemma MulMonotone(k: int, x: int, y: int)
    requires k >= 0 && x <= y
    ensures k * x <= k * y
  {
  }

  predicate HasCritical(findings: seq<Finding>)
  {
    exists f :: f in findings && f.severity == Critical
  }

  function RouteReview(confidence: Confidence, findings: seq<Finding>, threshold: Confidence): (r: (Status, Reason))
    ensures r.0 == Posted <==> !HasCritical(findings) && confidence >= threshold
    ensures r.1.confidence == confidence && r.1.threshold == threshold
    ensures r.0 == Posted <==> r.1.MeetsThreshold?
    ensures r.1.CriticalPresent? <==> HasCritical(findings)
  {
    if HasCritical(findings) then (QueuedForHitl, CriticalPresent(confidence, threshold))
    else if confidence < threshold then (QueuedForHitl, BelowThreshold(confidence, threshold))
    else (Posted, MeetsThreshold(confidence, threshold))
  }

  /** The part of a review the aggregator decides. */
  datatype Review = Review(findings: seq<Finding>, overallConfidence: Confidence, status: Status, reason: Reason)
  {
    /** The consistency validator run on construction. */
    predicate Consistent() {
      overallConfidence == OverallConfidence(findings)
    }
  }

  /** Merge, average, gate. */
  ghost function Aggregate(raw: seq<Finding>, threshold: Confidence): (r: Review)
    ensures r.Consistent() && r.findings == Dedupe(raw)
    ensures r.status == Posted <==> !HasCritical(r.findings) && r.overallConfidence >= threshold
    ensures r.reason.CriticalPresent? <==> HasCritical(r.findings)
    ensures r.reason.MeetsThreshold? <==> r.status == Posted
  {
    var kept := Dedupe(raw);
    var confidence := OverallConfidence(kept);
    var (status, reason) := RouteReview(confidence, kept, threshold);
    Review(kept, confidence, status, reason)
  }

  // ------------------------------------------------------------ gate laws

  /** The merge keeps a critical finding exactly when it was given one. */
  lemma {:induction false} CriticalSurvivesTheMerge(raw: seq<Finding>)
    ensures HasCritical(Dedupe(raw)) <==> HasCritical(raw)
  {
    if f :| f in raw && f.severity == Critical {
      var s := SurvivorFor(raw, f);
    }
    if s :| s in Dedupe(raw) && s.severity == Critical {
      OutputIsInput(raw, s);
    }
  }

  /** Any critical finding from any specialist sends the review to a human, whatever else was reported. */
  lemma AnyCriticalForcesHumanReview(raw: seq<Finding>, threshold: Confidence)
    requires exists f :: f in raw && f.severity == Critical
    ensures Aggregate(raw, threshold).status == QueuedForHitl
    ensures Aggregate(raw, threshold).reason.CriticalPresent?
  {
    CriticalSurvivesTheMerge(raw);
  }

  /**
   The gate from the raw findings: posted exactly if none of them is critical and the confidence reaches the threshold;
   the reason names the critical finding first, then the confidence, and quotes the two values compared.
   */
  lemma PostedExactlyWhen(raw: seq<Finding>, threshold: Confidence)
    ensures var r := Aggregate(raw, threshold);
            var critical := exists f :: f in raw && f.severity == Critical;
            && (r.status == Posted <==> !critical && r.overallConfidence >= threshold)
            && r.reason == if critical then CriticalPresent(r.overallConfidence, threshold)
                           else if r.overallConfidence < threshold then BelowThreshold(r.overallConfidence, threshold)
                           else MeetsThreshold(r.overallConfidence, threshold)
  {
    CriticalSurvivesTheMerge(raw);
  }

  /** The total is that of all findings, wherever the list is cut. */
  lemma {:induction false} TotalIsAdditive(a: seq<Finding>, b: seq<Finding>)
    ensures TotalConfidence(a + b) == TotalConfidence(a) + TotalConfidence(b)
    ensures |b| == 1 ==> TotalConfidence(b) == b[0].confidence
  {
    if a == [] {
      assert a + b == b;
    } else {
      assert (a + b)[1..] == a[1..] + b;
      TotalIsAdditive(a[1..], b);
    }
  }

  lemma OneMoreTime(x: int, n: int)
    ensures x * (n + 1) == x * n + x
  {
  }

  lemma {:induction false} TotalLiesBetween(findings: seq<Finding>, lo: Confidence, hi: Confidence)
    requires forall f :: f in findings ==> lo <= f.confidence <= hi
    ensures lo * |findings| <= TotalConfidence(findings) <= hi * |findings|
  {
    if findings != [] {
      assert findings[0] in findings && forall f :: f in findings[1..] ==> f in findings;
      TotalLiesBetween(findings[1..], lo, hi);
      OneMoreTime(lo, |findings[1..]|);
      OneMoreTime(hi, |findings[1..]|);
    }
  }

  /** `b` is `a` with some confidences raised. */
  ghost predicate Raised(a: seq<Finding>, b: seq<Finding>)
  {
    && |a| == |b|
    && forall i :: 0 <= i < |a| ==> a[i].confidence <= b[i].confidence && b[i] == a[i].(confidence := b[i].confidence)
  }

  /** Raising confidences keeps the survivors' keys and severities and lowers no survivor's confidence. */
  lemma {:induction false} RaisingRaisesSurvivors(a: seq<Finding>, b: seq<Finding>)
    requires Raised(a, b)
    ensures Best(a).Keys == Best(b).Keys
    ensures forall k :: k in Best(a) ==>
              Best(a)[k].severity == Best(b)[k].severity && Best(a)[k].confidence <= Best(b)[k].confidence
  {
    SurvivorsAreUnbeaten(a);
    SurvivorsAreUnbeaten(b);
    forall k ensures k in Best(a) <==> k in Best(b) {
      if k in Best(a) {
        var i :| 0 <= i < |a| && a[i] == Best(a)[k];
        assert b[i] in b && KeyOf(b[i]) == k;
      }
      if k in Best(b) {
        var i :| 0 <= i < |b| && b[i] == Best(b)[k];
        assert a[i] in a && KeyOf(a[i]) == k;
      }
    }
    forall k | k in Best(a)
      ensures Best(a)[k].severity == Best(b)[k].severity && Best(a)[k].confidence <= Best(b)[k].confidence
    {
      var x, y := Best(a)[k], Best(b)[k];
      var i :| 0 <= i < |a| && a[i] == x;
      var j :| 0 <= j < |b| && b[j] == y;
      assert b[i] in b && !IsBetter(b[i], y);
      assert a[j] in a && !IsBetter(a[j], x);
    }
  }

  lemma {:induction false} TotalIsMonotone(a: seq<Finding>, b: seq<Finding>)
    requires |a| == |b| && forall i :: 0 <= i < |a| ==> a[i].confidence <= b[i].confidence
    ensures TotalConfidence(a) <= TotalConfidence(b)
  {
    if a != [] {
      TotalIsMonotone(a[1..], b[1..]);
    }
  }

  lemma MulStep(k: int, s: int, r: int)
    requires k >= 0 && s < r
    ensures k * r >= k * s + k
  {
    MulMonotone(k, s + 1, r);
    assert k * (s + 1) == k * s + k;
  }

  lemma RoundingIsMonotone(n: int, t: int, u: int, r: int, s: int)
    requires n > 0 && t <= u
    requires 2 * n * r - n <= 2 * t && 2 * u < 2 * n * s + n
    ensures r <= s
  {
    if r > s {
      MulStep(2 * n, s, r);
    }
  }

  lemma RoundingStaysBetween(n: int, t: int, r: int, lo: int, hi: int)
    requires n > 0 && lo * n <= t <= hi * n && 2 * n * r - n <= 2 * t && 2 * t < 2 * n * r + n
    ensures lo <= r <= hi
  {
    Commuted(n, lo);
    Commuted(n, hi);
    RoundingIsMonotone(n, lo * n, t, lo, r);
    RoundingIsMonotone(n, t, hi * n, r, hi);
  }

  lemma Commuted(n: int, x: int)
    ensures 2 * n * x == 2 * (x * n)
  {
  }

  /** The mean is no lower than the least confident finding and no higher than the most confident one. */
  lemma MeanLiesBetween(findings: seq<Finding>, lo: Confidence, hi: Confidence)
    requires findings != [] && forall f :: f in findings ==> lo <= f.confidence <= hi
    ensures lo <= OverallConfidence(findings) <= hi
  {
    TotalLiesBetween(findings, lo, hi);
    RoundingStaysBetween(|findings|, TotalConfidence(findings), OverallConfidence(findings), lo, hi);
  }

  lemma MeanIsMonotone(a: seq<Finding>, b: seq<Finding>)
    requires |a| == |b| && TotalConfidence(a) <= TotalConfidence(b)
    ensures OverallConfidence(a) <= OverallConfidence(b)
  {
    if a != [] {
      RoundingIsMonotone(|a|, TotalConfidence(a), TotalConfidence(b), OverallConfidence(a), OverallConfidence(b));
    }
  }

  /** More confident findings never turn an auto-posted review into a queued one. */
  lemma {:induction false} MoreConfidenceNeverQueues(a: seq<Finding>, b: seq<Finding>, threshold: Confidence)
    requires Raised(a, b)
    ensures Aggregate(a, threshold).overallConfidence <= Aggregate(b, threshold).overallConfidence
    ensures Aggregate(a, threshold).status == Posted ==> Aggregate(b, threshold).status == Posted
  {
    RaisingRaisesSurvivors(a, b);
    DedupeShape(a);
    DedupeShape(b);
    TotalIsMonotone(Dedupe(a), Dedupe(b));
    MeanIsMonotone(Dedupe(a), Dedupe(b));
    forall f | f in Dedupe(b) && f.severity == Critical ensures HasCritical(Dedupe(a)) {
      var i :| 0 <= i < |Dedupe(b)| && Dedupe(b)[i] == f;
      assert Dedupe(a)[i] in Dedupe(a);
    }
  }

  /** Decision, confidence and reason do not depend on the order in which the findings arrived. */
  lemma {:induction false} DecisionIgnoresArrivalOrder(a: seq<Finding>, b: seq<Finding>, threshold: Confidence)
    requires multiset(a) == multiset(b)
    ensures var x, y := Aggregate(a, threshold), Aggregate(b, threshold);
            && AllSameButSpan(x.findings, y.findings)
            && x.overallConfidence == y.overallConfidence
            && x.status == y.status
            && x.reason == y.reason
  {
    ArrivalOrderMattersOnlyForSpans(a, b);
    var x, y := Dedupe(a), Dedupe(b);
    TotalIsMonotone(x, y);
    TotalIsMonotone(y, x);
    SameMembers(a, b);
    CriticalSurvivesTheMerge(a);
    CriticalSurvivesTheMerge(b);
  }
}
