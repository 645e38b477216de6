# A verified model of the pull-request review pipeline

A webhook is accepted once, every call to a dependency is bounded, four specialists' findings are merged and gated, and
the review that passes the gate is anchored to the diff and posted. This project models the code that decides each of
those steps and proves what it keeps over every input, every interleaving and every run. Where a documented promise does
not hold of the code, the code is modelled as it is and the exact condition under which the promise holds is proved.

## How it is laid out

| file | what it models |
|---|---|
| `Text.dfy`, `Findings.dfy` | strings with Python's order, findings, confidences in thousandths |
| `Contracts.dfy`, `MergeLaws.dfy`, `Survivors.dfy` | the ranking of findings, the dedupe loop, its algebra, and what it reports for a location |
| `ReviewGate.dfy`, `Orchestrator.dfy` | mean confidence, human-review gate, specialist nodes, state reducers, join |
| `DiffMapping.dfy`, `PatchLines.dfy`, `UnifiedDiff.dfy` | `splitlines`, hunk headers, the hunk walker; what it records for any text; printed diffs and what is recovered from them |
| `DiffExactness.dfy`, `DiffWitnesses.dfy` | exactly which printed diffs are read correctly; inputs on which the walker errs, or is right by accident |
| `Markers.dfy`, `ReviewPosting.dfy` | the marker of a review id; inline comments against summary, the marker check, the retried POST, runs of executions |
| `CircuitBreaker.dfy`, `ProbeOverlap.dfy`, `ProbeDuration.dfy` | the breaker object and its log semantics, recovery, when two probes overlap, and how short calls must be for that never to happen |
| `Retry.dfy`, `ReliableCalls.dfy`, `FailureCounting.dfy`, `SharedLoad.dfy`, `WireEffects.dfy` | backoff, its composition with the breaker, what each failure does to it, the load bounds for one caller after the other and for callers at once, and how often a retried operation takes effect |
| `JobQueue.dfy`, `RedisJobQueue.dfy`, `QueueRefinement.dfy` | the in-memory queue, the concurrent Redis protocol, the calling code, refinement |
| `Budget.dfy`, `BudgetRuns.dfy` | prices, the event table, the daily cap, concurrent check-then-record |
| `RankFusion.dfy` | reciprocal rank fusion and hybrid search |
| `TokenCache.dfy` | the installation token cache |

Objects whose methods update fields are classes here, and each method's contract gives the whole new state as a function
of the old one; the laws are proved of that function. Concurrent code is a step machine whose steps are the locked
sections (breaker), single Redis commands (queue) or single database statements (budget). Clocks, jitter draws, replies
of Redis, GitHub and the model provider, and the effect an unanswered operation had, are parameters, so every theorem is
over all of them.

## What the code does not promise

- The merge claims independence of arrival order. The tie break leaves out `line_end`, so it holds up to `line_end`
  (`MergeLaws.ArrivalOrderMattersOnlyForSpans`) and exactly when unbeaten findings of one location end on the same line
  (`MergeLaws.OrderFreeExactlyWhenSpansAgree`).
- "Exactly one probe" in HALF_OPEN is one admission between two recorded outcomes. At every moment at most one probe is
  outstanding, in all runs whose calls last at most d, exactly if d is below the reset timeout
  (`ProbeDuration.AlwaysOneProbeExactlyWhen`). Calls through the Redis breaker are bounded by 10 s against 30 s, so they
  meet it by default; those to the model provider, 30 s against 30 s, do not (backend/core/settings.py:58-60, 120-125).
  The run with two probes has a call that lasts a whole reset timeout (`ProbeDuration.TwoProbesCanOverlap`), and such a
  call is part of every overlap (`ProbeDuration.ProbeIsOvertakenExactlyWhen`).
- An exception outside `Exception` skips both record paths. If it ends the probe, the breaker refuses calls for ever;
  recovery is possible from all other states (`BreakerHistory.RecoverableExactlyUnlessWedged`).
- `enqueue` is not exactly once. One lost reply to the SET and a delivery is answered "duplicate" with no job anywhere,
  however many attempts are permitted (`RedisQueue.LostReplyLosesTheDelivery`); one lost reply to the hand-over and it is
  queued twice (`RedisQueue.LostReplyQueuesTwice`). How many jobs a call leaves is read off the wire by
  `RedisClient.JobsLeftExactlyWhen`, how many a key lifetime has off the run's steps by `RedisQueue.JobsOfALifetime`, and
  at most one is certain exactly if nothing is retried (`RedisQueue.NeverQueuesTwiceExactlyWhen`).
- The daily cap can be passed, by up to what all slots together may cost less one micro-dollar
  (`BudgetRuns.OvershootIsBounded`, met for every number of slots by `BudgetRuns.CapIsOvershot`); it is sure to be kept
  exactly if all calls in flight together cost at most one micro-dollar (`BudgetRuns.CapIsKeptExactlyWhen`).
- A review can be posted twice by one execution, exactly if a POST took effect unanswered and a retry took effect too
  (`ReviewPosting.PostsTwiceExactlyWhen`), and again by later executions, exactly if the pull request had 100 reviews or
  more when it was first posted (`ReviewPosting.RepeatsExactlyPastFirstPage`) or if a POST lands only after the next
  execution has looked (`ReviewPosting.LatePostIsRepeated`).
- A review is taken for posted if the summary of another one among the first 100 reviews quotes its marker; without such
  a quotation no review keeps another id from being posted (`Markers.PostedBodyCarriesExactly`,
  `ReviewPosting.OthersDoNotBlock`).
- `splitlines` breaks on more than newlines. Exactly which source texts are then read wrongly is
  `DiffExactness.AnchorsAreExactlyRightWhen`, line by line, and `DiffExactness.IndexIsExactlyRightWhen`, for the two sets;
  a failing input is `DiffWitnesses.FormFeedThenBlankMiscounts`. A context line printed as nothing at all is skipped
  (`DiffWitnesses.StrippedBlanksSpoil`).
- Agreement of both rankers decides the order of what a search returns only while the candidate pool is below k + 2
  (`RankFusion.SearchAgreesExactlyWhen`), which for k = 60 means result sizes up to 15 (`RankFusion.DefaultConstantCovers`).
- A forced-review finding can itself fail validation when the error text is long, and then the run is lost
  (`Orchestrator.RunIsLostExactlyWhen`).

## Model

| member | source | states |
|---|---|---|
| Contracts.RankingIsTotalUpToRank | backend/agents/contracts.py:90-112 | of two findings at most one beats the other, and neither does exactly when they agree on severity, confidence, agent, category and rationale |
| Contracts.RankingIsStrictWeakOrder | backend/agents/contracts.py:98-112 | the ranking and its complement are transitive |
| Contracts.SortKeys | backend/agents/contracts.py:133 | the sorted key list is the one strictly ascending list of the given keys |
| Contracts.DedupeFindings | backend/agents/contracts.py:115-133 | the loop over the dictionary of current bests returns the merge that the laws below are about |
| Contracts.SurvivorsAreUnbeaten | backend/agents/contracts.py:127-133 | each location seen in the input has one survivor, which comes from the input and which no finding of that location beats |
| Survivors.SurvivorIsWorst | backend/agents/contracts.py:108-111 | the finding reported for a location is critical if any finding there is, otherwise high if any is, then medium, low, info; and among those of its severity none is more confident |
| Survivors.SurvivorIsOfFirstAgent | backend/agents/contracts.py:67-93 | of equally severe and confident findings it comes from the first of Security, Quality, Tests and Docs that reported one |
| Survivors.SurvivorIsFirstInText | backend/agents/contracts.py:90-95 | and of that specialist's from the first category, then the first rationale, in code-point order |
| Survivors.EveryLocationIsReportedOnce | backend/agents/contracts.py:115-133 | a file and first line is reported exactly if some finding is there, and never twice |
| Survivors.OutputIsInReadingOrder | backend/agents/contracts.py:133 | files come in code-point order, and within a file line numbers strictly increase |
| MergeLaws.DedupeShape | backend/agents/contracts.py:118-133 | the output is exactly the survivors, each in the place of its key |
| MergeLaws.OutputIsSortedByLocation | backend/agents/contracts.py:118-121 | output locations strictly ascend, so none occurs twice |
| MergeLaws.DedupeAbsorbs | backend/agents/contracts.py:115-133 | merging part of the input beforehand gives the identical result |
| MergeLaws.DedupeIsIdempotent | backend/agents/contracts.py:115-133 | merging a merged list changes nothing |
| MergeLaws.ArrivalOrderMattersOnlyForSpans | backend/agents/contracts.py:46-56 | every permutation of the input gives the same list up to the last line of a span |
| MergeLaws.OrderFreeExactlyWhenSpansAgree | backend/agents/contracts.py:49-56 | the documented order independence holds if and only if unbeaten findings of one location agree on their last line |
| MergeLaws.EarliestUnbeatenSurvives | backend/agents/contracts.py:127-132 | of findings nothing beats, the first to arrive is kept |
| MergeLaws.FirstOfTwoTiedSpans | backend/agents/contracts.py:90-95 | two findings tied on all but the span: whichever comes first is reported, so the order shows |
| ReviewGate.OverallConfidence | backend/models/review.py:71-75 | the closest thousandth to the mean, the upper of two equally close ones, zero for no findings |
| ReviewGate.RouteReview | backend/hitl/queue.py:90-111 | posted exactly if nothing is critical and the threshold is met; the reason quotes the values compared and says which rule decided |
| ReviewGate.Aggregate | backend/orchestrator/nodes.py:480-501 | the review has the merged findings, passes its own consistency validator, and is posted exactly if none of them is critical and the confidence meets the threshold, with the reason to match |
| ReviewGate.CriticalSurvivesTheMerge | backend/agents/contracts.py:108-112 | the merged list has a critical finding exactly when the raw one has |
| ReviewGate.AnyCriticalForcesHumanReview | backend/hitl/queue.py:90-97 | a critical raw finding queues the review, with the critical reason, whatever else was reported |
| ReviewGate.PostedExactlyWhen | backend/hitl/queue.py:90-111 | from the raw findings: posted exactly if none has severity CRITICAL and the confidence reaches the threshold; a critical finding is the reason given before a low confidence |
| ReviewGate.TotalIsAdditive | backend/models/review.py:71-75 | what is averaged is the sum of all confidences, wherever the list is cut |
| ReviewGate.MeanLiesBetween | backend/models/review.py:71-75 | the overall confidence lies between the least and the most confident finding |
| ReviewGate.RaisingRaisesSurvivors | backend/agents/contracts.py:108-112 | raising raw confidences keeps locations and severities of the survivors and lowers no survivor's confidence |
| ReviewGate.MoreConfidenceNeverQueues | backend/orchestrator/nodes.py:480-483 | raising raw confidences never turns a posted review into a queued one |
| ReviewGate.DecisionIgnoresArrivalOrder | backend/orchestrator/nodes.py:480-483 | status, reason and confidence are the same for every order of the raw findings |
| Orchestrator.ParseFailureFinding | backend/agents/base_agent.py:345-371 | a critical finding of confidence zero for that agent, built exactly if the error text leaves the rationale within 5000 characters |
| Orchestrator.InfrastructureFailureFinding | backend/agents/base_agent.py:374-413 | the same for a specialist that could not run |
| Orchestrator.CollectedErrors | backend/orchestrator/state.py:41-49 | the merged error map holds exactly the committed errors, each under its own node |
| Orchestrator.CollectedFindingsPermute | backend/orchestrator/state.py:102 | the same commits in any order merge to the same multiset of findings |
| Orchestrator.CompletionOrderIsIrrelevant | backend/orchestrator/nodes.py:361-381 | for every two completion orders the status, reason, confidence and error map are equal and the findings equal up to the last line of a span |
| Orchestrator.MissingAnalysisForcesHumanReview | backend/orchestrator/nodes.py:371-381 | a specialist over budget, unconfigured, unreachable or unparseable always queues a completed run, and an unavailable one is in the error map |
| Orchestrator.ErrorMapExactly | backend/orchestrator/nodes.py:371-381 | the error map of a completed run has, under `security`, `quality`, `tests` or `docs`, the error text of each specialist that failed or was unavailable, and nothing else |
| Orchestrator.FallbackFinding | backend/agents/base_agent.py:345-413 | the one finding that stands for a missing analysis: critical, confidence zero, line 1 of a path of its own, quoting the error |
| Orchestrator.MissingAnalysisIsReported | backend/orchestrator/nodes.py:371-381 | the review of a completed run has a critical finding at the place of every missing analysis |
| Orchestrator.EveryReportIsHeard | backend/orchestrator/nodes.py:480-483 | for every reported finding the review has one of its location that it does not beat |
| Orchestrator.ReviewQuotesSpecialists | backend/orchestrator/nodes.py:371-381 | every finding in a review was reported by a specialist or is the forced-review finding of one that could not |
| Orchestrator.RunIsLostExactlyWhen | backend/orchestrator/nodes.py:372-381 | a run fails as a whole exactly on a worker crash or an error text too long for the fallback finding |
| LineSplitting.SplitsAtEachLineEnd | backend/integrations/diff_mapping.py:126 | text without a line end is one line, and each of LF, VT, FF, CR, FS, GS, RS, NEL, LS, PS and CR LF together ends one, with the rest split the same way |
| HunkHeader.DecimalRoundTrip | backend/integrations/diff_mapping.py:129-130 | the number read from a printed number is that number |
| HunkHeader.HeaderRoundTrip | backend/integrations/diff_mapping.py:75 | a printed hunk header, in long or short form and with any section text, is read back to its two start numbers |
| HunkHeader.HeaderExactlyWhen | backend/integrations/diff_mapping.py:71-75 | for every text: a line is read as a header with two given starts exactly if it can be cut up as the regular expression says, with those numbers as its first and third groups |
| HunkHeader.DigitsArePositional | backend/integrations/diff_mapping.py:129-130 | in a number each digit counts ten times as much as the one behind it |
| DiffMapping.ParsePatch | backend/integrations/diff_mapping.py:119-155 | the loop's two sets are exactly the RIGHT and LEFT lines of the walk over the patch |
| DiffMapping.BuildDiffIndex | backend/integrations/diff_mapping.py:158-173 | exactly the changed files are indexed, by their last listed patch, and by nothing if they have none |
| PatchLines.KindByMark | backend/integrations/diff_mapping.py:127-150 | for every line of text: a header exactly if the pattern matches, an added, removed or context line exactly if it begins with `+`, `-` or a blank, and otherwise nothing |
| PatchLines.PatchLinesExactly | backend/integrations/diff_mapping.py:119-155 | for every text: the RIGHT (LEFT) lines are the numbers of its lines on that side, counted on from the start number in the last header before them |
| UnifiedDiff.ParsingRecoversHunks | backend/integrations/diff_mapping.py:119-155 | for every hunk list, parsing its printed text gives exactly the shown lines, in order, with side, number and text |
| DiffExactness.AnchorsAreExactlyRightWhen | backend/integrations/diff_mapping.py:126-137 | for all source text, every line is read at its place if and only if nothing behind a stray break begins like a diff line and every hunk header behind one restates the running numbers as far as they are used before the next header |
| DiffExactness.RightAnchorsIndexRight | backend/integrations/diff_mapping.py:126-155 | then the two line sets are exactly the lines in the hunks |
| DiffExactness.IndexIsExactlyRightWhen | backend/integrations/diff_mapping.py:119-155 | for hunks with a line between them, and no header behind a stray break, the two sets are right if and only if nothing behind such a break begins like a diff line |
| DiffWitnesses.AdjacentHunksHideMiscounts | backend/integrations/diff_mapping.py:126-142 | without a line between hunks a miscount can be hidden: the sets come out right |
| DiffWitnesses.PhantomHeadersCanCancel | backend/integrations/diff_mapping.py:127-132 | headers behind stray breaks can swap the numbers of two lines and leave the sets right |
| DiffWitnesses.StrippedBlanksSpoil | backend/integrations/diff_mapping.py:133-134 | with blank context lines printed as nothing, a diff is read correctly exactly if none is stripped |
| UnifiedDiff.PlainTextIsTame | backend/integrations/diff_mapping.py:126 | text with no break in it, or only a final carriage return, is always mapped correctly |
| DiffWitnesses.FormFeedThenBlankMiscounts | backend/integrations/diff_mapping.py:126 | a new file of one line, which has a form feed followed by a blank: line 2 is a RIGHT line and line 0 a LEFT one, and no hunk has either |
| UnifiedDiff.ShownLines | backend/integrations/diff_mapping.py:47-56 | the shown RIGHT (LEFT) numbers are exactly the lines inside a hunk of the new (old) file |
| UnifiedDiff.ShownTextIsFileText | backend/integrations/diff_mapping.py:41-56 | for hunks turning one file into another, the text shown at a number is that line of that file |
| UnifiedDiff.WalkerIsFaithful | backend/integrations/diff_mapping.py:119-155 | for all files and hunks turning one into the other, the parsed sets are exactly the lines in hunks, and each anchor shows its file's line |
| UnifiedDiff.FinalNewlineIsInert | backend/integrations/diff_mapping.py:126 | a patch is indexed the same with and without a final newline |
| Placement.SplitFindings | backend/integrations/github_client.py:650-666 | the loop computes the two lists the laws below are about |
| Placement.PositionsExactly | backend/integrations/github_client.py:652-666 | every finding is on exactly one side, by whether it has an anchor |
| Placement.PositionsIncrease | backend/integrations/github_client.py:650-666 | both sides keep the findings' order |
| Placement.CommentsAreTheAnchored | backend/integrations/github_client.py:658-666 | the i-th comment is for the i-th anchored finding, at that finding's anchor |
| Placement.DegradedAreTheRest | backend/integrations/github_client.py:656-657 | the i-th degraded finding is the i-th finding without an anchor |
| Placement.SplitCounts | backend/integrations/github_client.py:650-666 | comments and degraded findings together are as many as the findings |
| Placement.PlacementsAreIndependent | backend/integrations/github_client.py:603-610 | replacing one finding leaves every other placement as it was |
| Placement.PlacedByHunks | backend/integrations/diff_mapping.py:176-196 | a finding is anchored RIGHT exactly if its line is in a new-file hunk, LEFT exactly if only an old-file hunk has it, and not at all otherwise |
| Markers.PostedBodyCarriesMarker | backend/integrations/github_client.py:392-394 | whatever the summary says, the posted body contains the review id's marker |
| Markers.CarriesExactlyWhen | backend/integrations/github_client.py:581-594 | a body carries an id exactly if the marker text with that id stands somewhere in it |
| Markers.UnmentionedIsNotCarried | backend/integrations/github_client.py:581-594 | a body in which `review_id=` and the id do not stand does not carry the id |
| Markers.PostedBodyCarriesExactly | backend/integrations/github_client.py:392-394 | the body posted for one id begins with the rendered overview and carries that id, and another exactly if the overview quotes its marker |
| ReviewPosting.OthersDoNotBlock | backend/integrations/github_client.py:633-643 | however many reviews of other people and other ids a pull request has, the marker of this id is not found and an execution adds what it creates |
| ReviewPosting.AddedReviews | backend/integrations/github_client.py:668-682 | every review an execution adds begins with the rendered overview, has the comments of the split and carries the id |
| ReviewPosting.RequestsInTurn | backend/integrations/github_client.py:480-502 | requests go on from where earlier ones left the breaker, and none is made after one without an answer |
| ReviewPosting.WithoutPatchNoAnchor | backend/integrations/diff_mapping.py:158-196 | a finding in a file that was not changed, or whose last listed patch is missing, has no anchor |
| ReviewPosting.PostsTwiceExactlyWhen | backend/integrations/github_client.py:673-682 | one execution puts two or more copies on the pull request exactly if a POST took effect unanswered before the last attempt and a later one took effect too |
| WireEffects.PerformedIsCallReliably | backend/integrations/github_client.py:459-478 | the operation the methods perform makes the attempts of the composed retry loop, leaves its breaker, and takes effect as often as its attempts do |
| WireEffects.TwiceExactlyWhen | backend/job_queue/redis_arq.py:215-220 | a retried operation takes effect twice exactly if an effective but unanswered attempt is followed by another effective one |
| WireEffects.OnceExactlyWhen | backend/job_queue/redis_arq.py:215-220 | it takes effect at all exactly if the last attempt does or an unanswered one did |
| WireEffects.EarlierAttemptsAreUnanswered | backend/reliability/retry.py:152-159 | every attempt before the last was let through and failed in a way that is retried |
| WireEffects.EffectsAreCounted | backend/job_queue/redis_arq.py:215-220 | a retried operation takes effect as often as there are attempts up to its stop that were let in and were answered or took effect unanswered |
| WireEffects.NeverTwiceExactlyWhen | backend/reliability/retry.py:63-65 | an operation is safe from taking effect twice, whatever the wire does, exactly if one attempt is all there is |
| ReviewPosting.UnretriedPostsOnce | backend/integrations/github_client.py:673-682 | if no POST that took effect is retried an execution creates at most one review |
| ReviewPosting.OneExecutionCanPostTwice | backend/integrations/github_client.py:673-682 | one lost reply and an execution leaves two marked reviews on an empty pull request |
| ReviewPosting.LatePostIsRepeated | backend/integrations/github_client.py:633-643 | a POST that lands after the next execution's lookup leaves two marked reviews |
| ReviewPosting.RealGitHubClient.CallAll | backend/integrations/github_client.py:480-502 | requests made one after the other through retry and breaker: whether all are answered, and the breaker after them |
| ReviewPosting.RealGitHubClient.GetFiles | backend/integrations/github_client.py:541-563 | files come from the cache with no request, or from requests through the breaker, and are then cached |
| ReviewPosting.RealGitHubClient.FindExistingReviewIdMarker | backend/integrations/github_client.py:579-594 | true exactly if one of the first 100 reviews carries the marker |
| ReviewPosting.RealGitHubClient.PostReliably | backend/integrations/github_client.py:673-682 | the pull request gains exactly the reviews of the effective attempts |
| ReviewPosting.RealGitHubClient.PostReviewComment | backend/integrations/github_client.py:596-693 | result, cache, breaker after all its requests, and the pull request after one turn of the runs below, with the comments and summary of the split over the index of the changed files |
| ReviewPosting.RealGitHubClient.PostOrQueue | backend/integrations/github_client.py:227-243 | only a posted status reaches the pull request; a review the join built from any critical finding never does |
| ReviewPosting.ExecutionIsLegitimate | backend/integrations/github_client.py:668-682 | an execution of the code meets the assumptions the run theorems make of turns |
| ReviewPosting.TurnAppends | backend/integrations/github_client.py:633-643 | reviews are only added, and markers only by an execution that sees none |
| ReviewPosting.OneExecutionPosts | backend/integrations/github_client.py:579-594 | over any run that leaves at most 100 reviews the markers are at most what one execution creates, and what lands late |
| ReviewPosting.RepeatsExactlyPastFirstPage | backend/integrations/github_client.py:583-594 | after the first marked review, from an execution or a late landing, later executions add nothing if there were fewer than 100 reviews, and all they create otherwise; late landings always add |
| Breaker.CircuitBreaker.MaybeExpireOpen | backend/reliability/circuit_breaker.py:133-146 | the new fields as a function of the old and the clock |
| Breaker.CircuitBreaker.Snapshot | backend/reliability/circuit_breaker.py:148-157 | reports the fields after expiring an open window |
| Breaker.CircuitBreaker.Enter | backend/reliability/circuit_breaker.py:170-181 | admits exactly as the admission rule says, and the new fields |
| Breaker.CircuitBreaker.RecordFailure | backend/reliability/circuit_breaker.py:195-206 | the new fields; the half-open disjunct is kept as in the code |
| Breaker.CircuitBreaker.RecordSuccess | backend/reliability/circuit_breaker.py:208-213 | the breaker is as new |
| Breaker.CircuitBreaker.Call | backend/reliability/circuit_breaker.py:163-193 | one call nothing overlaps, with return, exception, or an exception that is not recorded |
| BreakerHistory.BreakerMeansItsLog | backend/reliability/circuit_breaker.py:133-213 | after every interleaving the four fields are a closed function of the log: failure run, last failure, reads and arrivals since |
| BreakerHistory.FieldsAgree | backend/reliability/circuit_breaker.py:133-213 | closed exactly below the threshold exactly with no opening time; a probe only half open; half open only one failure short of the threshold or past it |
| BreakerHistory.AdmissionRule | backend/reliability/circuit_breaker.py:170-181 | a caller is let through exactly if the failure run is short, or it is the first arrival since the last outcome after the reset timeout |
| BreakerHistory.NoEarlyAdmission | backend/reliability/circuit_breaker.py:140-146 | nobody gets through a tripped breaker sooner than the reset timeout after the last recorded failure |
| BreakerHistory.OneProbePerEpisode | backend/reliability/circuit_breaker.py:174-181 | between two admissions to a tripped breaker an outcome was recorded |
| ProbeOverlap.OverlapNeedsStaleOutcome | backend/reliability/circuit_breaker.py:174-181 | if a probe is still outstanding at another admission, the outcome of another call was recorded while it ran |
| ProbeOverlap.CanOverlapExactlyWhen | backend/reliability/circuit_breaker.py:174-213 | while a probe runs, another can come beside it, with no further word from running calls, exactly if the outcome of another call was recorded since |
| ProbeOverlap.UndisturbedProbesRunAlone | backend/reliability/circuit_breaker.py:24-25 | in runs in which no outcome of another call is recorded during a probe, nobody is admitted beside a probe |
| ProbeOverlap.SingleProbeExactlyWhenUndisturbed | backend/reliability/circuit_breaker.py:24-25 | and these are exactly the runs in which a second probe is ruled out at every moment |
| ProbeDuration.DisturbanceIsLong | backend/reliability/circuit_breaker.py:140-146 | if the outcome of any other call is recorded during a probe, so is, no later, that of a call from before it that lasted at least the reset timeout |
| ProbeDuration.BriefCallsDoNotDisturb | backend/reliability/circuit_breaker.py:174-206 | if every call that ends does so sooner than the reset timeout after its arrival, no probe is disturbed |
| ProbeDuration.ProbeIsOvertakenExactlyWhen | backend/reliability/circuit_breaker.py:174-206 | at a later admission the probe is still outstanding exactly if a call from before it that lasted at least the reset timeout was recorded in between and the probe itself was not |
| ProbeDuration.TwoProbesCanOverlap | backend/reliability/circuit_breaker.py:24-25 | for every threshold there is a run with two probes outstanding at its end, in which no call lasts longer than the reset timeout |
| ProbeDuration.AlwaysOneProbeExactlyWhen | backend/reliability/circuit_breaker.py:24-25 | in all runs whose calls last at most d, at most one probe is outstanding at every moment, if and only if d is below the reset timeout |
| BreakerHistory.RunsStaySound | backend/reliability/circuit_breaker.py:163-213 | over every run a probe flag means half open, a non-closed breaker has an opening time, and, if every call is recorded, a probe flag means a call is running |
| BreakerHistory.RecoverableExactlyUnlessWedged | backend/reliability/circuit_breaker.py:186-193 | some continuation closes the breaker exactly unless the probe flag is up with no call running |
| BreakerHistory.RecordedCallsAlwaysRecover | backend/reliability/circuit_breaker.py:186-193 | if every admitted call ends in a return or an Exception every reachable state can recover |
| BreakerHistory.AbandonedProbeWedges | backend/reliability/circuit_breaker.py:188-190 | a probe that ends otherwise leaves the breaker refusing calls for ever |
| Retry.DoubledIsPowerOfTwo | backend/reliability/retry.py:106 | the backoff factor is a power of two |
| Retry.DelayForAttempt | backend/reliability/retry.py:95-107 | zero before the first attempt, never above the cap or the exponential |
| Retry.DelayIsCappedExponential | backend/reliability/retry.py:106-107 | the delay is exactly the smaller of base times the power of two and the cap |
| Retry.BackoffGrows | backend/reliability/retry.py:66-71 | delays never shrink from attempt to attempt |
| Retry.SleepsDouble | backend/reliability/retry.py:95-107 | without jitter the first sleep is the base delay and each later one twice the one before, up to the maximum, with none left out |
| Retry.JitterScalesEachSleep | backend/reliability/retry.py:146-151 | with jitter each sleep is the sleep without it times the number drawn for that attempt |
| Retry.CallWithRetry | backend/reliability/retry.py:122-165 | calls are made up to the first that is not a transient failure or the last permitted one; result, number of calls and sleeps taken |
| Retry.StoppingAttemptIsUnique | backend/reliability/retry.py:72-79 | the outcomes alone determine how many calls are made; jitter cannot |
| Retry.EveryPauseIsSlept | backend/reliability/retry.py:146-151 | the sleeps taken add up to all pauses before attempts 2 to n; leaving out empty ones loses nothing |
| Retry.TotalSleepIsBounded | backend/reliability/retry.py:145-151 | for any jitter the sleep over n attempts is at most (n-1) times the cap and at most base times 2^(n-1) minus base |
| ReliableCalls.CallReliably | backend/job_queue/redis_arq.py:198-225 | reply, number of attempts and breaker of the composed loop |
| ReliableCalls.TriedIsRetried | backend/job_queue/redis_arq.py:215-220 | that loop is the retry loop with the breaker's call as its function: same stopping rule, outcome and breaker |
| FailureCounting.ReplyIsReadOffTheLast | backend/job_queue/redis_arq.py:215-225 | a request ends with the first attempt that is refused or does not fail for a passing reason, or with the last one permitted: a value is returned, a final error escapes, and refusal and exhaustion are unavailable |
| FailureCounting.EveryAttemptIsRecorded | backend/reliability/circuit_breaker.py:163-213 | what each attempt leaves: nothing changed by a refusal, a new breaker after a value, one failure more after any `Exception` and open at the threshold or from a probe, no record after anything else |
| FailureCounting.OneAttemptIsRecorded | backend/job_queue/redis_arq.py:215-225 | the same for a request that ends with its first attempt, with its reply |
| FailureCounting.TransientFailuresAreCounted | backend/job_queue/redis_arq.py:215-220 | a closed breaker and a dependency that is down: every attempt is a failure more; at the threshold it opens, the next attempt is refused unless it comes a reset timeout later, and it is left open since the last attempt that got through |
| ReliableCalls.OpenBreakerFailsFast | backend/job_queue/redis_arq.py:60-69 | while the breaker refuses, a caller makes one attempt, reaches nothing and changes nothing |
| ReliableCalls.RequestsFollowOn | backend/job_queue/redis_arq.py:198-225 | a run of requests is one run of attempts, in what reaches the dependency and in the breaker left behind |
| ReliableCalls.ScriptIsItsAttempts | backend/job_queue/redis_arq.py:215-220 | the breaker after a request is that after its list of attempts |
| ReliableCalls.StretchesAreLong | backend/reliability/circuit_breaker.py:170-206 | consecutive calls that reach a failing dependency are a reset timeout apart for each one beyond the threshold |
| ReliableCalls.DependencyIsSheltered | backend/job_queue/redis_arq.py:215-220 | non-overlapping callers, with snapshots between them, whose every attempt ends in an error other than a fatal one, reach the dependency at most threshold + floor(window / reset timeout) times in any window |
| ReliableCalls.RunsAreLogs | backend/reliability/circuit_breaker.py:163-213 | a run of calls leaves the breaker as its log of locked sections does |
| ReliableCalls.QuietOnceRecorded | backend/reliability/circuit_breaker.py:195-213 | every state a run reaches with no call outstanding, all calls recorded, is a state the bound covers |
| ReliableCalls.BoundIsReached | backend/reliability/circuit_breaker.py:195-206 | a closed breaker lets its whole remaining allowance through at one instant |
| SharedLoad.SharedDependencyIsSheltered | backend/reliability/circuit_breaker.py:163-213 | in any interleaving of callers with at most C in flight, a failing dependency is reached at most threshold - 1 + C + floor(window / reset timeout) times in any window |
| SharedLoad.ReachableIsGood | backend/reliability/circuit_breaker.py:163-213 | every state any run can reach is one that bound covers |
| SharedLoad.SharedBoundIsReached | backend/reliability/circuit_breaker.py:163-213 | for every threshold, every C and every number n of reset timeouts, some run reaches the dependency threshold - 1 + C + n times in n reset timeouts; C = 1 is the bound for callers that do not overlap |
| InMemoryQueue.InMemoryJobQueue.Enqueue | backend/job_queue/in_memory.py:28-34 | answers whether the delivery id is new, and the new set and list |
| InMemoryQueue.InMemoryJobQueue.Size | backend/job_queue/in_memory.py:36-38 | the number of jobs |
| InMemoryQueue.SeenExactlyEarlierIds | backend/job_queue/in_memory.py:28-34 | an id counts as seen exactly if an earlier event had it |
| InMemoryQueue.JobsAreTheFirstOfEachId | backend/job_queue/in_memory.py:28-34 | the jobs are the first events of each id, in arrival order |
| RedisQueue.StepKeepsSound | backend/job_queue/redis_arq.py:227-279 | every step of the concurrent protocol keeps the whole invariant |
| RedisQueue.AtMostOneWinnerPerLifetime | backend/job_queue/redis_arq.py:264-279 | in every run, at most one winner per key lifetime, all jobs of a lifetime from that winner and at most one per attempt, and a job for every caller told enqueued |
| RedisQueue.JobsOfALifetime | backend/job_queue/redis_arq.py:274-279 | a key lifetime has no job if an unheard SET began it, and otherwise one job for each push, acknowledged, lost or late, of the caller whose acknowledged SET began it |
| RedisQueue.EveryLifetimeIsCreated | backend/job_queue/redis_arq.py:230-237 | every key lifetime was begun by a step of the run |
| RedisQueue.DeliveryIsLostExactlyWhen | backend/job_queue/redis_arq.py:274-279 | a key lifetime has no job exactly if the step that began it was no acknowledged SET, or the run has no step by which its caller's job reaches the queue |
| RedisQueue.LostReplyQueuesTwice | backend/job_queue/redis_arq.py:255-262 | one lost reply to the hand-over and the delivery is queued twice in one lifetime |
| RedisQueue.NeverQueuesTwiceExactlyWhen | backend/job_queue/redis_arq.py:155-159 | no caller ever queues twice, in any run, exactly if one attempt is permitted |
| RedisQueue.LostReplyLosesTheDelivery | backend/job_queue/redis_arq.py:230-237 | for every number of attempts permitted: one lost SET reply and the redelivery is answered duplicate with no job anywhere |
| RedisQueue.RetryFindsItsOwnKey | backend/job_queue/redis_arq.py:230-237 | if a retry is permitted, the delivery itself is answered duplicate as well |
| RedisQueue.ExpiredKeyQueuesAgain | backend/job_queue/redis_arq.py:230-244 | whatever happened before, once its key has expired a delivery is answered enqueued and queued again |
| RedisQueue.LateSetTakesTheKey | backend/job_queue/redis_arq.py:230-244 | whatever happened before, a SET that lands after it was given up takes a free key: the next delivery is answered duplicate and nothing is queued |
| RedisQueue.LatePushQueuesTwice | backend/job_queue/redis_arq.py:246-262 | whatever happened before, a hand-over that lands after it was given up is a job beside that of its retry |
| RedisClient.RedisJobQueue.TrySet | backend/job_queue/redis_arq.py:227-244 | one SET through the breaker: whether it created the key, the keys after it, the caller's phase |
| RedisClient.RedisJobQueue.TryPush | backend/job_queue/redis_arq.py:246-262 | one hand-over through the breaker: the jobs after it, the caller's phase |
| RedisClient.RedisJobQueue.SetKey | backend/job_queue/redis_arq.py:274 | the retried SET: newly set exactly if acknowledged as its only effect on a free key |
| RedisClient.RedisJobQueue.PushJob | backend/job_queue/redis_arq.py:278 | the retried hand-over: one job for every attempt that takes effect |
| RedisClient.JobsLeftExactlyWhen | backend/job_queue/redis_arq.py:264-279 | read off the wire: a call leaves a job exactly if the key was free, the SET was answered with no unanswered effect before, and a push took effect; two or more exactly if moreover an unanswered push took effect and a later one too |
| RedisClient.OneLostReplyIsEnough | backend/job_queue/redis_arq.py:264-279 | one lost reply makes it no job, or two, where a clean wire makes it one |
| RedisClient.RedisJobQueue.Enqueue | backend/job_queue/redis_arq.py:264-279 | a run of the protocol: answer, breaker, keys, and the jobs it adds, all as functions of what the wire does |
| QueueRefinement.FaultFreeRunsRefine | backend/job_queue/redis_arq.py:264-279 | without faults or expiry, in any interleaving, the calls in the order of their SETs get the in-memory queue's answers and the same ids are seen |
| QueueRefinement.FinishedRunsHoldTheSameJobs | backend/job_queue/in_memory.py:28-38 | once all calls have finished the jobs are those of the in-memory queue |
| Pricing.Quantized | backend/economics/pricing.py:70-104 | the nearest micro-dollar, exact halves to the even one |
| Pricing.CostIsExact | backend/economics/pricing.py:70-104 | a token in and a token out cost 1 and 5 micro-dollars with claude-haiku-4-5, 2 and 10 with claude-sonnet-5, with nothing lost to rounding, and other models have no price |
| EventStore.EventRepository.InsertEvent | backend/database/repository.py:482-507 | a row is appended exactly if the breaker lets the insert through and it takes effect; nothing else changes but the breaker |
| EventStore.EventRepository.SumLlmCostForDay | backend/database/repository.py:576-619 | the cost of the llm.call rows in the half-open day |
| EventStore.StartOfDayIsDay | backend/economics/budget.py:93-103 | the computed midnight is a multiple of 24 hours and begins the 24 hours the instant lies in |
| EventStore.RowMovesOnlyItsDay | backend/database/repository.py:123-127 | an llm.call row moves the sum of the 24 hours it lies in by its cost and no other day's, and other rows none |
| EventStore.DailySumsConserveSpend | backend/database/repository.py:123-127 | daily sums add up to all that was ever spent |
| Budget.BudgetGuard.CheckAndRaise | backend/economics/budget.py:118-126 | blocks exactly if the spend of the clock's day has reached the cap |
| Budget.AnthropicLLMClient.Complete | backend/tools/llm_client.py:378-454 | when it is blocked, fails or completes, at what cost, and the one row it may add |
| BudgetRuns.StepKeepsBounded | backend/tools/llm_client.py:378-445 | each step keeps spend plus what calls in flight may still add below the bound, and lowers no day's spend |
| BudgetRuns.OvershootIsBounded | backend/economics/budget.py:118-126 | with C calls in flight of cost at most m no day's spend reaches cap + C m, in any interleaving |
| BudgetRuns.SpentDayAdmitsNobody | backend/economics/budget.py:118-126 | once a day's cap is reached every later check for that day blocks, however the run continues |
| BudgetRuns.NewDayAdmits | backend/economics/budget.py:93-126 | whatever was spent before midnight, the first check after it lets its call through |
| BudgetRuns.CapIsOvershot | backend/economics/budget.py:121-126 | for every number of slots the bound is met: one micro-dollar below the cap, all slots at once end one below the bound |
| BudgetRuns.CapIsKeptExactlyWhen | backend/economics/budget.py:31-36 | spend never exceeds the cap, in all runs, exactly if the calls that can be in flight together cost at most one micro-dollar |
| RankFusion.ReciprocalRankFusion | backend/memory/context_retriever.py:150-157 | an error exactly for k not positive, and otherwise the fused list of the laws below |
| RankFusion.BoardHoldsScores | backend/memory/context_retriever.py:152-156 | the dictionary holds exactly the mentioned ids, with the sum over rankings of 1/(k + rank) |
| RankFusion.FoundByFirst | backend/memory/context_retriever.py:152-157 | a fused id at rank p of the first ranking alone has score 1 / (k + p) |
| RankFusion.FoundBySecond | backend/memory/context_retriever.py:152-157 | the same for the second ranking |
| RankFusion.FoundByBothScores | backend/memory/context_retriever.py:152-157 | an id at ranks p and q has score (2k + p + q) / ((k + p)(k + q)) |
| RankFusion.ChunkScoreByRank | backend/memory/context_retriever.py:258-295 | a returned chunk has that score, by its ranks among the first 20 or 4 n rows of each ranker |
| RankFusion.OrderIsFirstMention | backend/memory/context_retriever.py:153-156 | its insertion order is the order of first mention |
| RankFusion.SortedByScoreThenAge | backend/memory/context_retriever.py:157 | the stable sort orders by score and then by insertion, and keeps the entries |
| RankFusion.FusionMeaning | backend/memory/context_retriever.py:136-142 | the result is exactly the mentioned ids with their RRF scores, by score, ties by first mention |
| RankFusion.FusedIdsAreDistinct | backend/memory/context_retriever.py:136-142 | ids are distinct and scores never increase |
| RankFusion.AgreementWinsExactlyWhen | backend/memory/context_retriever.py:55-65 | ids both rankers found precede ids only one found, for all rankings, if and only if the pool is smaller than k + 2 |
| RankFusion.SearchAgreesExactlyWhen | backend/memory/context_retriever.py:272-295 | for two or more results, returned chunks both rankers found precede those only one found, for all corpora, if and only if the pool is smaller than k + 2 |
| RankFusion.DefaultConstantCovers | backend/memory/context_retriever.py:272-295 | for k = 60 that is the case exactly for result sizes up to 15 |
| RankFusion.Search | backend/memory/context_retriever.py:286-295 | the i-th chunk is the i-th fused id with its score and its row |
| RankFusion.ResultsAreDistinct | backend/memory/context_retriever.py:268-271 | returned ids are distinct, scores never increase, and there are at most as many as asked for |
| RankFusion.LookupNeverMisses | backend/memory/context_retriever.py:282-289 | every fused id has a row, and it is full text's if full text found it |
| RankFusion.HybridSearch | backend/memory/context_retriever.py:258-295 | the code's search is the one the laws are about, and an error exactly for k not positive |
| TokenCache.InstallationTokenCache.GetToken | backend/integrations/github_auth.py:256-287 | answer, cache and exchange count; a failed exchange changes nothing |
| TokenCache.InstallationTokenCache.Invalidate | backend/integrations/github_auth.py:289-301 | the installation's token is gone and no other |
| TokenCache.TokensAreOwnAndFresh | backend/integrations/github_auth.py:271-287 | every token returned was issued to that installation in the run and expires more than 5 * 60 seconds later |
| TokenCache.ExchangesExactlyWhenDue | backend/integrations/github_auth.py:271-287 | an exchange is made exactly if nothing is cached for the installation or 5 * 60 seconds or less are left; answer, cache and count follow from it |
| TokenCache.ExchangesAreBounded | backend/integrations/github_auth.py:70 | with tokens living at least L, a run of duration D with d invalidations makes at most 1 + d + D / (L - 300 s) exchanges for an installation |

## Left out

- HunkHeader.HeaderRoundTrip: digits are ASCII; Python's `\d` also reads other scripts' digits, which no diff prints.
- DiffExactness.IndexIsExactlyRightWhen: source text with a whole hunk header behind a stray break, and hunks with no line between them, are outside this equivalence on sets, because there the sets can be right although lines are mistaken for each other (PhantomHeadersCanCancel, AdjacentHunksHideMiscounts); AnchorsAreExactlyRightWhen covers all source text and all hunk lists.
- DiffWitnesses.StrippedBlanksSpoil: stripping is stated for source text that is otherwise read correctly.
- ProbeOverlap.CanOverlapExactlyWhen: calls end in a return or an `Exception`; a second probe that ends otherwise wedges the breaker, which RecoverableExactlyUnlessWedged covers.
- Markers.PostedBodyCarriesExactly: ids have no `<`, blank or line break, like the documented `ghpr-12345-run-001`.
- Retry.SleepsDouble: the base delay is positive; JitterScalesEachSleep also takes draws to be positive, since an empty pause is left out.
- ReviewPosting.OneExecutionPosts: executions for one review id do not overlap; POSTs of theirs that land later are turns of their own.
- ReliableCalls.DependencyIsSheltered: calls do not overlap; SharedDependencyIsSheltered has the bound for calls that do, over steps of the breaker instead of whole requests.
- SharedLoad.SharedDependencyIsSheltered: every admitted call is recorded as a failure or is still running; one that ends by an exception outside `Exception` is not covered.
- RedisClient.RedisJobQueue.Enqueue: one caller runs to the end; interleavings are covered by the step machine of RedisQueue, in which a refusal by the breaker is a step that may happen at any time.
- ReviewGate.OverallConfidence: the mean is exact; Decimal's 28-digit context cannot change the rounding for lists of realistic length and is not modelled.
- Pricing.CostIsExact: exact arithmetic in place of Decimal's 28-digit context, so counts are taken to have fewer digits than that.
- RankFusion.FusionMeaning: reals in place of floats, so ties are exact ties.
- Retry.TotalSleepIsBounded: reals in place of floats; sleeping itself takes no further part in the model.
- BudgetRuns.OvershootIsBounded: recorded spend, as the guard sees it; a request the provider bills after its caller timed out, or one without a review id, is never recorded by the code.
- BudgetRuns.Enabled: the clock only moves forward, while the wall clock the code reads can be set back.
- TokenCache.ExchangesAreBounded: calls are whole locked sections; minting and signing the app token are part of the exchange's outcome.
- Network, database and vendor libraries: httpx, psycopg, redis-py, ARQ, Anthropic and LangSmith calls are outcomes given as parameters; settings are constants or parameters.
- LangGraph and its checkpoints: each specialist's output is committed once, in some order; resuming is not modelled.
- JSON and Pydantic parsing of model replies, prompts, retrieval text, tracing and the hooks that arm crashes for tests.
- Embeddings, `ts_rank_cd` and the SQL of both rankers: each ranker's rows are an input.
- The TimescaleDB path, the dashboard, the frontend, the command line and the judge.
- The text of comments and summaries beyond the marker, and the paging through changed files.
- JWT signing, webhook signatures and repository authorisation.
