/**
 The four specialist nodes, the state reducers and the join (backend/orchestrator/nodes.py,
 backend/orchestrator/state.py, backend/agents/base_agent.py).
 */
module Orchestrator {
  import opened Text
  import opened Findings
  import opened Contracts
  import opened MergeLaws
  import opened ReviewGate

  /** The exceptions that mean the analysis did not happen at all. */
  datatype InfrastructureFailure = BudgetExceededError | LLMConfigurationError | LLMCallFailedError

  /** What one specialist's work ended with. */
  datatype Outcome =
    | Reported(findings: seq<Finding>)
    | Unparseable(error: string)
    | AgentFailed(error: string)
    | Unavailable(failure: InfrastructureFailure, error: string)
    | Crashed

  function AgentName(a: AgentType): string
  {
    match a
    case Security => "security"
    case Quality => "quality"
    case Tests => "tests"
    case Docs => "docs"
  }

  function FailureName(f: InfrastructureFailure): string
  {
    match f
    case BudgetExceededError => "BudgetExceededError"
    case LLMConfigurationError => "LLMConfigurationError"
    case LLMCallFailedError => "LLMCallFailedError"
  }

  const FORCED_REVIEW_NOTE: string :=
    "). Flagging as CRITICAL, confidence 0.000, purely to force mandatory human review of "
    + "this run -- this is NOT a claim that a real issue exists."

  function Checked(f: Finding): (r: Option<Finding>)
    ensures r == Some(f) || (r == None && !f.Valid())
  {
    if f.Valid() then Some(f) else None
  }

  /** The forced-review finding for a reply nothing could be parsed from; None when construction rejects it. */
  function ParseFailureFinding(a: AgentType, error: string): (r: Option<Finding>)
    ensures r.Some? ==> r.value.Valid() && r.value.severity == Critical && r.value.confidence == 0 && r.value.agent == a
    ensures r.Some? <==> |error| + |AgentName(a)| <= 4783
  {
    Checked(Finding(
      a, Critical, "llm_response_unparseable", "<llm-response-unparseable>", 1, 1, 0,
      "The " + AgentName(a) + " specialist's LLM response could not be parsed into any valid finding (" + error
        + FORCED_REVIEW_NOTE))
  }

  /** The forced-review finding for a specialist that could not run; None when construction rejects it. */
  function InfrastructureFailureFinding(a: AgentType, failure: InfrastructureFailure,
      error: string): (r: Option<Finding>)
    ensures r.Some? ==> r.value.Valid() && r.value.severity == Critical && r.value.confidence == 0 && r.value.agent == a
    ensures r.Some? <==> |error| + |AgentName(a)| + |FailureName(failure)| <= 4807
  {
    Checked(Finding(
      a, Critical, AgentName(a) + "_specialist_unavailable", "<" + AgentName(a) + "-specialist-unavailable>", 1, 1, 0,
      "The " + AgentName(a) + " specialist could not complete its analysis (" + FailureName(failure) + ": " + error
        + FORCED_REVIEW_NOTE))
  }

  /** The partial state a node commits. */
  datatype NodeUpdate = NodeUpdate(findings: seq<Finding>, nodeErrors: map<string, string>)

  /** One specialist node; None when an exception escapes it and the whole run fails. */
  function SpecialistNode(a: AgentType, outcome: Outcome): Option<NodeUpdate>
  {
    match outcome
    case Reported(findings) => Some(NodeUpdate(findings, map[]))
    case Unparseable(error) =>
      (match ParseFailureFinding(a, error)
       case Some(f) => Some(NodeUpdate([f], map[]))
       case None => None)
    case AgentFailed(error) => Some(NodeUpdate([], map[AgentName(a) := error]))
    case Unavailable(failure, error) =>
      (match InfrastructureFailureFinding(a, failure, error)
       case Some(f) => Some(NodeUpdate([f], map[AgentName(a) := error]))
       case None => None)
    case Crashed => None
  }

  /** The reducers of the shared state: list concatenation and a right-biased dictionary union. */
  function Commit(state: NodeUpdate, update: NodeUpdate): NodeUpdate
  {
    NodeUpdate(state.findings + update.findings, state.nodeErrors + update.nodeErrors)
  }

  ghost predicate Completes(outcomes: AgentType -> Outcome)
  {
    forall a :: SpecialistNode(a, outcomes(a)).Some?
  }

  /** Each specialist's committed output. */
  type Committed = AgentType -> NodeUpdate

  ghost function CommittedBy(outcomes: AgentType -> Outcome): Committed
    requires Completes(outcomes)
  {
    a => SpecialistNode(a, outcomes(a)).value
  }

  /** The state after the specialists committed in the given order. */
  function Collect(order: seq<AgentType>, committed: Committed): NodeUpdate
  {
    if order == [] then NodeUpdate([], map[]) else
      Commit(Collect(order[..|order| - 1], committed), committed(order[|order| - 1]))
  }

  /** Every specialist commits exactly once. */
  ghost predicate CompletionOrder(order: seq<AgentType>)
  {
    multiset(order) == multiset{Security, Quality, Tests, Docs}
  }

  lemma EveryAgentCommits(order: seq<AgentType>, a: AgentType)
    requires CompletionOrder(order)
    ensures a in order
  {
    assert a in multiset{Security, Quality, Tests, Docs};
    assert a in multiset(order);
  }

  // ------------------------------------------------- independence of order

  lemma {:induction false} CollectConcat(p: seq<AgentType>, q: seq<AgentType>, committed: Committed)
    ensures Collect(p + q, committed).findings == Collect(p, committed).findings + Collect(q, committed).findings
    decreases |q|
  {
    if q == [] {
      assert p + q == p;
    } else {
      var init := q[..|q| - 1];
      CollectConcat(p, init, committed);
      assert (p + q)[..|p + q| - 1] == p + init;
    }
  }

  /** Taking one agent out of two orders of the same agents leaves two orders of the same agents. */
  lemma SameWithoutOne(p: seq<AgentType>, q: seq<AgentType>) returns (before: seq<AgentType>, after: seq<AgentType>)
    requires p != [] && multiset(p) == multiset(q)
    ensures q == before + ([p[0]] + after)
    ensures multiset(p[1..]) == multiset(before + after)
  {
    assert p[0] in multiset(q);
    var j :| 0 <= j < |q| && q[j] == p[0];
    before, after := q[..j], q[j + 1..];
    BagWithout(p, 0);
    BagWithout(q, j);
    assert q == before + ([p[0]] + after);
    assert p[..0] + p[1..] == p[1..];
    SameRest(p[0], multiset(p[1..]), multiset(before + after));
  }

  lemma BagWithout(p: seq<AgentType>, j: nat)
    requires j < |p|
    ensures multiset(p) == multiset{p[j]} + multiset(p[..j] + p[j + 1..])
  {
    assert p == p[..j] + ([p[j]] + p[j + 1..]);
    BagWithOne(p[..j], p[j], p[j + 1..]);
  }

  lemma SameRest(a: AgentType, m: multiset<AgentType>, n: multiset<AgentType>)
    requires multiset{a} + m == multiset{a} + n
    ensures m == n
  {
    assert m == multiset{a} + m - multiset{a} && n == multiset{a} + n - multiset{a};
  }

  lemma BagWithOne(before: seq<AgentType>, a: AgentType, after: seq<AgentType>)
    ensures multiset(before + ([a] + after)) == multiset{a} + multiset(before + after)
  {
  }

  lemma {:induction false} CollectedFindingsPermute(p: seq<AgentType>, q: seq<AgentType>, committed: Committed)
    requires multiset(p) == multiset(q)
    ensures multiset(Collect(p, committed).findings) == multiset(Collect(q, committed).findings)
    decreases |p|
  {
    if p == [] {
      assert |multiset(q)| == 0;
    } else {
      var before, after := SameWithoutOne(p, q);
      CollectedFindingsPermute(p[1..], before + after, committed);
      CollectConcat([p[0]], p[1..], committed);
      assert p == [p[0]] + p[1..];
      CollectConcat(before, [p[0]] + after, committed);
      CollectConcat([p[0]], after, committed);
      CollectConcat(before, after, committed);
      var own := Collect([p[0]], committed).findings;
      assert multiset(Collect(p, committed).findings) == multiset(own) + multiset(Collect(p[1..], committed).findings);
    }
  }

  lemma NamesAreDistinct(a: AgentType, b: AgentType)
    ensures AgentName(a) == AgentName(b) ==> a == b
  {
    assert AgentName(a)[0] == AgentName(b)[0] ==> a == b;
  }

  /** A node reports errors under its own name only. */
  ghost predicate OwnNamesOnly(committed: Committed)
  {
    forall a, name :: name in committed(a).nodeErrors ==> name == AgentName(a)
  }

  lemma NodesUseOwnNames(outcomes: AgentType -> Outcome)
    requires Completes(outcomes)
    ensures OwnNamesOnly(CommittedBy(outcomes))
  {
  }

  /** The error map lists exactly the committed errors, each under its own node's name. */
  lemma {:induction false} CollectedErrors(order: seq<AgentType>, committed: Committed)
    requires OwnNamesOnly(committed)
    ensures forall a :: AgentName(a) in Collect(order, committed).nodeErrors <==>
                          a in order && AgentName(a) in committed(a).nodeErrors
    ensures forall a :: AgentName(a) in Collect(order, committed).nodeErrors ==>
                          Collect(order, committed).nodeErrors[AgentName(a)] == committed(a).nodeErrors[AgentName(a)]
    ensures forall name :: name in Collect(order, committed).nodeErrors ==> exists a :: name == AgentName(a)
    decreases |order|
  {
    if order != [] {
      var init, last := order[..|order| - 1], order[|order| - 1];
      assert order == init + [last];
      CollectedErrors(init, committed);
      forall a ensures AgentName(a) == AgentName(last) ==> a == last {
        NamesAreDistinct(a, last);
      }
    }
  }

  lemma ErrorMapIgnoresOrder(p: seq<AgentType>, q: seq<AgentType>, committed: Committed)
    requires OwnNamesOnly(committed)
    requires forall a :: a in p <==> a in q
    ensures Collect(p, committed).nodeErrors == Collect(q, committed).nodeErrors
  {
    CollectedErrors(p, committed);
    CollectedErrors(q, committed);
    var x, y := Collect(p, committed).nodeErrors, Collect(q, committed).nodeErrors;
    forall name ensures name in x <==> name in y {
      if name in x {
        var a :| name == AgentName(a);
      }
      if name in y {
        var a :| name == AgentName(a);
      }
    }
    forall name | name in x ensures x[name] == y[name] {
      var a :| name == AgentName(a);
    }
  }

  /**
   Whatever order the specialists finish in, the decision, its reason, the confidence and the error map are
   the same, and the findings differ at most in the last line of a span.
   */
  lemma {:induction false} CompletionOrderIsIrrelevant(p: seq<AgentType>, q: seq<AgentType>,
      outcomes: AgentType -> Outcome, threshold: Confidence)
    requires CompletionOrder(p) && CompletionOrder(q)
    requires Completes(outcomes)
    ensures var x, y := Collect(p, CommittedBy(outcomes)), Collect(q, CommittedBy(outcomes));
            var r, s := Aggregate(x.findings, threshold), Aggregate(y.findings, threshold);
            && x.nodeErrors == y.nodeErrors
            && r.status == s.status && r.reason == s.reason && r.overallConfidence == s.overallConfidence
            && AllSameButSpan(r.findings, s.findings)
  {
    var committed := CommittedBy(outcomes);
    NodesUseOwnNames(outcomes);
    forall a ensures a in p <==> a in q {
      EveryAgentCommits(p, a);
      EveryAgentCommits(q, a);
    }
    ErrorMapIgnoresOrder(p, q, committed);
    CollectedFindingsPermute(p, q, committed);
    DecisionIgnoresArrivalOrder(Collect(p, committed).findings, Collect(q, committed).findings, threshold);
  }

  // ------------------------------------------------- forced human review

  lemma {:induction false} CollectedFindingsContain(order: seq<AgentType>, committed: Committed, a: AgentType,
      f: Finding)
    requires a in order && f in committed(a).findings
    ensures f in Collect(order, committed).findings
    decreases |order|
  {
    var init, last := order[..|order| - 1], order[|order| - 1];
    assert order == init + [last];
    if a != last {
      CollectedFindingsContain(init, committed, a, f);
    }
  }

  /**
   A specialist that was over budget, misconfigured, unreachable or gave an unusable reply is never mistaken for
   one that found nothing: a completed run then always goes to a human, whatever the other three reported.
   */
  lemma MissingAnalysisForcesHumanReview(order: seq<AgentType>, outcomes: AgentType -> Outcome, a: AgentType,
      threshold: Confidence)
    requires CompletionOrder(order) && Completes(outcomes)
    requires outcomes(a).Unavailable? || outcomes(a).Unparseable?
    ensures Aggregate(Collect(order, CommittedBy(outcomes)).findings, threshold).status == QueuedForHitl
    ensures outcomes(a).Unavailable? ==> AgentName(a) in Collect(order, CommittedBy(outcomes)).nodeErrors
  {
    var committed := CommittedBy(outcomes);
    EveryAgentCommits(order, a);
    assert SpecialistNode(a, outcomes(a)).Some?;
    CollectedFindingsContain(order, committed, a, committed(a).findings[0]);
    AnyCriticalForcesHumanReview(Collect(order, committed).findings, threshold);
    NodesUseOwnNames(outcomes);
    CollectedErrors(order, committed);
  }

  /** A node's name in the error map. */
  predicate IsNodeOf(name: string, a: AgentType)
  {
    match a
    case Security => name == "security"
    case Quality => name == "quality"
    case Tests => name == "tests"
    case Docs => name == "docs"
  }

  /**
   The error map of a completed run has the text of each specialist that failed or was unavailable under that node's
   name, and nothing else.
   */
  lemma ErrorMapExactly(order: seq<AgentType>, outcomes: AgentType -> Outcome, a: AgentType, name: string)
    requires CompletionOrder(order) && Completes(outcomes) && IsNodeOf(name, a)
    ensures var errors := Collect(order, CommittedBy(outcomes)).nodeErrors;
            match outcomes(a)
            case AgentFailed(error) => name in errors && errors[name] == error
            case Unavailable(_, error) => name in errors && errors[name] == error
            case _ => name !in errors
    ensures forall n :: n in Collect(order, CommittedBy(outcomes)).nodeErrors ==> exists b :: IsNodeOf(n, b)
  {
    var committed := CommittedBy(outcomes);
    EveryAgentCommits(order, a);
    NodesUseOwnNames(outcomes);
    CollectedErrors(order, committed);
    assert name == AgentName(a);
    forall n | n in Collect(order, committed).nodeErrors ensures exists b :: IsNodeOf(n, b) {
      var b :| n == AgentName(b);
      assert IsNodeOf(n, b);
    }
  }

  /** The file a missing analysis is reported under. */
  predicate IsFallbackPath(path: string, name: string, outcome: Outcome)
  {
    path == if outcome.Unparseable? then "<llm-response-unparseable>" else "<" + name + "-specialist-unavailable>"
  }

  lemma ParseFailureQuotes(a: AgentType, error: string, f: Finding) returns (before: string)
    requires ParseFailureFinding(a, error) == Some(f)
    ensures f.rationale == before + error + FORCED_REVIEW_NOTE
    ensures f.filePath == "<llm-response-unparseable>" && f.lineStart == f.lineEnd == 1
  {
    before := "The " + AgentName(a) + " specialist's LLM response could not be parsed into any valid finding (";
  }

  lemma InfrastructureFailureQuotes(a: AgentType, failure: InfrastructureFailure, error: string, f: Finding)
      returns (before: string)
    requires InfrastructureFailureFinding(a, failure, error) == Some(f)
    ensures f.rationale == before + error + FORCED_REVIEW_NOTE
    ensures f.filePath == "<" + AgentName(a) + "-specialist-unavailable>" && f.lineStart == f.lineEnd == 1
  {
    before := "The " + AgentName(a) + " specialist could not complete its analysis (" + FailureName(failure) + ": ";
  }

  /**
   The finding that stands for a missing analysis: critical, confidence zero, on line 1 of a path of its own, and with
   the error's text.
   */
  lemma FallbackFinding(a: AgentType, outcome: Outcome, name: string, path: string)
      returns (before: string, after: string)
    requires (outcome.Unavailable? || outcome.Unparseable?) && IsNodeOf(name, a) && IsFallbackPath(path, name, outcome)
    requires SpecialistNode(a, outcome).Some?
    ensures var findings := SpecialistNode(a, outcome).value.findings;
            && |findings| == 1 && findings[0].severity == Critical && findings[0].confidence == 0
            && findings[0].filePath == path && findings[0].lineStart == findings[0].lineEnd == 1
            && findings[0].rationale == before + outcome.error + after
  {
    var f := SpecialistNode(a, outcome).value.findings[0];
    after := FORCED_REVIEW_NOTE;
    if outcome.Unparseable? {
      before := ParseFailureQuotes(a, outcome.error, f);
    } else {
      before := InfrastructureFailureQuotes(a, outcome.failure, outcome.error, f);
    }
  }

  /** The review of a completed run has a critical finding at the place of every missing analysis. */
  lemma MissingAnalysisIsReported(order: seq<AgentType>, outcomes: AgentType -> Outcome, a: AgentType, name: string,
      path: string, threshold: Confidence)
    requires CompletionOrder(order) && Completes(outcomes)
    requires outcomes(a).Unavailable? || outcomes(a).Unparseable?
    requires IsNodeOf(name, a) && IsFallbackPath(path, name, outcomes(a))
    ensures exists g :: g in Aggregate(Collect(order, CommittedBy(outcomes)).findings, threshold).findings &&
                        g.severity == Critical && g.filePath == path && g.lineStart == 1
  {
    var f := CommittedBy(outcomes)(a).findings[0];
    var _, _ := FallbackFinding(a, outcomes(a), name, path);
    EveryAgentCommits(order, a);
    CollectedFindingsContain(order, CommittedBy(outcomes), a, f);
    CriticalKeepsItsPlace(Collect(order, CommittedBy(outcomes)).findings, f);
  }

  lemma CriticalKeepsItsPlace(raw: seq<Finding>, f: Finding)
    requires f in raw && f.severity == Critical
    ensures exists g :: g in Dedupe(raw) && g.severity == Critical && KeyOf(g) == KeyOf(f)
  {
    var g := SurvivorFor(raw, f);
  }

  lemma {:induction false} CollectedFindingsCome(order: seq<AgentType>, committed: Committed, f: Finding)
    requires f in Collect(order, committed).findings
    ensures exists a :: a in order && f in committed(a).findings
    decreases |order|
  {
    var init, last := order[..|order| - 1], order[|order| - 1];
    assert order == init + [last];
    if f in Collect(init, committed).findings {
      CollectedFindingsCome(init, committed, f);
    } else {
      assert last in order && f in committed(last).findings;
    }
  }

  /** A reported finding is in the review, or one of its location that it does not beat is. */
  lemma EveryReportIsHeard(order: seq<AgentType>, outcomes: AgentType -> Outcome, a: AgentType, f: Finding,
      threshold: Confidence)
    requires CompletionOrder(order) && Completes(outcomes)
    requires outcomes(a).Reported? && f in outcomes(a).findings
    ensures exists g :: g in Aggregate(Collect(order, CommittedBy(outcomes)).findings, threshold).findings &&
                        KeyOf(g) == KeyOf(f) && !IsBetter(f, g)
  {
    EveryAgentCommits(order, a);
    CollectedFindingsContain(order, CommittedBy(outcomes), a, f);
    var g := SurvivorFor(Collect(order, CommittedBy(outcomes)).findings, f);
  }

  lemma CommitterOf(order: seq<AgentType>, committed: Committed, g: Finding) returns (a: AgentType)
    requires g in Dedupe(Collect(order, committed).findings)
    ensures g in committed(a).findings
  {
    var raw := Collect(order, committed).findings;
    DedupeShape(raw);
    SurvivorsAreUnbeaten(raw);
    CollectedFindingsCome(order, committed, g);
    a :| a in order && g in committed(a).findings;
  }

  /** The specialist reported `g`, or `g` is the forced-review finding it got instead. */
  predicate IsFrom(a: AgentType, outcome: Outcome, g: Finding)
  {
    match outcome
    case Reported(findings) => g in findings
    case Unparseable(error) => ParseFailureFinding(a, error) == Some(g)
    case Unavailable(failure, error) => InfrastructureFailureFinding(a, failure, error) == Some(g)
    case _ => false
  }

  lemma CommittedIsFrom(a: AgentType, outcome: Outcome, g: Finding)
    requires SpecialistNode(a, outcome).Some? && g in SpecialistNode(a, outcome).value.findings
    ensures IsFrom(a, outcome, g)
  {
  }

  /** A review holds nothing but what a specialist reported or the forced-review finding of one that did not. */
  lemma ReviewQuotesSpecialists(order: seq<AgentType>, outcomes: AgentType -> Outcome, g: Finding,
      threshold: Confidence)
    requires CompletionOrder(order) && Completes(outcomes)
    requires g in Aggregate(Collect(order, CommittedBy(outcomes)).findings, threshold).findings
    ensures exists a :: IsFrom(a, outcomes(a), g)
  {
    var a := CommitterOf(order, CommittedBy(outcomes), g);
    CommittedIsFrom(a, outcomes(a), g);
  }

  /** A run is lost exactly when a worker crashes or an error text is too long to quote in a rationale. */
  lemma RunIsLostExactlyWhen(outcomes: AgentType -> Outcome)
    ensures !Completes(outcomes) <==>
            exists a :: match outcomes(a)
                        case Crashed => true
                        case Unparseable(error) => |error| + |AgentName(a)| > 4783
                        case Unavailable(failure, error) => |error| + |AgentName(a)| + |FailureName(failure)| > 4807
                        case _ => false
  {
  }
}
