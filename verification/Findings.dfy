/** The finding reported by a specialist (backend/models/findings.py, backend/models/enums.py). */
module Findings {

  datatype Severity = Critical | High | Medium | Low | Info

  datatype AgentType = Security | Quality | Tests | Docs

  /** Confidence in thousandths: the source keeps exactly three decimal places in [0, 1]. */
  type Confidence = c: int | 0 <= c <= 1000

  datatype Finding = Finding(
    agent: AgentType,
    severity: Severity,
    category: string,
    filePath: string,
    lineStart: int,
    lineEnd: int,
    confidence: Confidence,
    rationale: string)
  {
    /** What construction of a finding checks. */
    predicate Valid() {
      && 1 <= |category| <= 100
      && 1 <= |filePath| <= 1000
      && 1 <= lineStart <= lineEnd
      && 1 <= |rationale| <= 5000
    }
  }

  /** Lower rank means more severe. */
  function SeverityRank(s: Severity): int
  {
    match s
    case Critical => 0
    case High => 1
    case Medium => 2
    case Low => 3
    case Info => 4
  }

  /** Position in the precedence tuple; lower wins ties. */
  function AgentRank(a: AgentType): int
  {
    match a
    case Security => 0
    case Quality => 1
    case Tests => 2
    case Docs => 3
  }
}
