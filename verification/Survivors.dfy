/** What the merge reports for a location, said in the findings' own values (backend/agents/contracts.py). */
module Survivors {
  import opened Text
  import opened Findings
  import opened Contracts
  import opened MergeLaws

  /** One of the findings, at this file and first line. */
  predicate At(findings: seq<Finding>, path: string, line: int, f: Finding)
  {
    f in findings && f.filePath == path && f.lineStart == line
  }

  ghost predicate HasSeverity(findings: seq<Finding>, path: string, line: int, s: Severity)
  {
    exists f :: At(findings, path, line, f) && f.severity == s
  }

  /** The most severe severity reported at a location. */
  ghost function Worst(findings: seq<Finding>, path: string, line: int): Severity
  {
    if HasSeverity(findings, path, line, Critical) then Critical
    else if HasSeverity(findings, path, line, High) then High
    else if HasSeverity(findings, path, line, Medium) then Medium
    else if HasSeverity(findings, path, line, Low) then Low
    else Info
  }

  /** A finding at the location of `s` that agrees with it on severity and confidence. */
  predicate Rival(findings: seq<Finding>, s: Finding, f: Finding)
  {
    At(findings, s.filePath, s.lineStart, f) && f.severity == s.severity && f.confidence == s.confidence
  }

  ghost predicate HasRival(findings: seq<Finding>, s: Finding, a: AgentType)
  {
    exists f :: Rival(findings, s, f) && f.agent == a
  }

  /** The first specialist, in the order of precedence, among the rivals of `s`. */
  ghost function FirstAgent(findings: seq<Finding>, s: Finding): AgentType
  {
    if HasRival(findings, s, Security) then Security
    else if HasRival(findings, s, Quality) then Quality
    else if HasRival(findings, s, Tests) then Tests
    else Docs
  }

  lemma NothingBeats(findings: seq<Finding>, s: Finding)
    requires s in Dedupe(findings)
    ensures At(findings, s.filePath, s.lineStart, s)
    ensures forall f :: At(findings, s.filePath, s.lineStart, f) ==> !IsBetter(f, s)
  {
    DedupeShape(findings);
    SurvivorsAreUnbeaten(findings);
  }

  /** The survivor has the worst severity of its location, and of the findings that have it the highest confidence. */
  lemma SurvivorIsWorst(findings: seq<Finding>, s: Finding)
    requires s in Dedupe(findings)
    ensures At(findings, s.filePath, s.lineStart, s)
    ensures s.severity == Worst(findings, s.filePath, s.lineStart)
    ensures forall f :: At(findings, s.filePath, s.lineStart, f) && f.severity == s.severity ==>
              f.confidence <= s.confidence
  {
    NothingBeats(findings, s);
    assert HasSeverity(findings, s.filePath, s.lineStart, s.severity);
  }

  /** Of those, it comes from the first of Security, Quality, Tests and Docs. */
  lemma SurvivorIsOfFirstAgent(findings: seq<Finding>, s: Finding)
    requires s in Dedupe(findings)
    ensures s.agent == FirstAgent(findings, s)
  {
    NothingBeats(findings, s);
    assert Rival(findings, s, s) && HasRival(findings, s, s.agent);
    forall f | Rival(findings, s, f) ensures AgentRank(s.agent) <= AgentRank(f.agent) {
    }
  }

  /** And of that specialist's, it has the first category and then the first rationale in code-point order. */
  lemma SurvivorIsFirstInText(findings: seq<Finding>, s: Finding, f: Finding)
    requires s in Dedupe(findings) && Rival(findings, s, f) && f.agent == s.agent
    ensures !Precedes(f.category, s.category)
    ensures f.category == s.category ==> !Precedes(f.rationale, s.rationale)
  {
    NothingBeats(findings, s);
    LessIsTrichotomous(f.category, s.category);
    LessIsCodePointOrder(f.category, s.category);
    LessIsCodePointOrder(f.rationale, s.rationale);
  }

  /** The `i`-th finding of the output is for this file and first line. */
  ghost predicate ReportedAt(findings: seq<Finding>, i: int, path: string, line: int)
  {
    && 0 <= i < |Dedupe(findings)|
    && Dedupe(findings)[i].filePath == path && Dedupe(findings)[i].lineStart == line
  }

  /** A location is reported exactly if some finding is there, and never twice. */
  lemma EveryLocationIsReportedOnce(findings: seq<Finding>, path: string, line: int)
    ensures (exists i :: ReportedAt(findings, i, path, line)) <==> (exists f :: At(findings, path, line, f))
    ensures forall i, j :: ReportedAt(findings, i, path, line) && ReportedAt(findings, j, path, line) ==> i == j
  {
    var out := Dedupe(findings);
    if f :| At(findings, path, line, f) {
      var s := SurvivorFor(findings, f);
      var i :| 0 <= i < |out| && out[i] == s;
      assert ReportedAt(findings, i, path, line);
    }
    if i :| ReportedAt(findings, i, path, line) {
      OutputIsInput(findings, out[i]);
      assert At(findings, path, line, out[i]);
    }
    forall i, j | ReportedAt(findings, i, path, line) && ReportedAt(findings, j, path, line) && i < j ensures false {
      OutputIsInReadingOrder(findings, i, j);
    }
  }

  /** Files come in code-point order, and within a file the lines strictly increase. */
  lemma OutputIsInReadingOrder(findings: seq<Finding>, i: int, j: int)
    requires 0 <= i < j < |Dedupe(findings)|
    ensures var f, g := Dedupe(findings)[i], Dedupe(findings)[j];
            if f.filePath == g.filePath then f.lineStart < g.lineStart else Precedes(f.filePath, g.filePath)
  {
    OutputIsSortedByLocation(findings, i, j);
    LessIsCodePointOrder(Dedupe(findings)[i].filePath, Dedupe(findings)[j].filePath);
  }
}
