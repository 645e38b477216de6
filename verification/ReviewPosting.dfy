/** Which findings become inline comments and which go to the summary (backend/integrations/github_client.py). */
module Placement {
  import opened Text
  import opened Findings
  import opened DiffMapping
  import opened UnifiedDiff

  /** An inline comment: where it is anchored, and the finding its body renders. */
  datatype Comment = Comment(anchor: CommentAnchor, finding: Finding)

  function AnchorOf(index: DiffIndex, f: Finding): Option<CommentAnchor>
  {
    MapFindingToAnchor(f.filePath, f.lineStart, index)
  }

  function Comments(index: DiffIndex, findings: seq<Finding>): seq<Comment>
  {
    if findings == [] then [] else
      var n := |findings| - 1;
      match AnchorOf(index, findings[n])
      case None => Comments(index, findings[..n])
      case Some(anchor) => Comments(index, findings[..n]) + [Comment(anchor, findings[n])]
  }

  function Degraded(index: DiffIndex, findings: seq<Finding>): seq<Finding>
  {
    if findings == [] then [] else
      var n := |findings| - 1;
      if AnchorOf(index, findings[n]).None? then Degraded(index, findings[..n]) + [findings[n]]
      else Degraded(index, findings[..n])
  }

  method SplitFindings(findings: seq<Finding>, index: DiffIndex)
      returns (comments: seq<Comment>, degraded: seq<Finding>)
    ensures comments == Comments(index, findings) && degraded == Degraded(index, findings)
  {
    comments, degraded := [], [];
    for i := 0 to |findings|
      invariant comments == Comments(index, findings[..i]) && degraded == Degraded(index, findings[..i])
    {
      assert findings[..i + 1][..i] == findings[..i];
      match AnchorOf(index, findings[i]) {
        case None => degraded := degraded + [findings[i]];
        case Some(anchor) => comments := comments + [Comment(anchor, findings[i])];
      }
    }
    assert findings[..|findings|] == findings;
  }

  // ------------------------------------------------------- what the split is

  /** Where the findings that do (or do not) get an anchor stand, in order. */
  function Positions(index: DiffIndex, findings: seq<Finding>, anchored: bool): seq<int>
  {
    if findings == [] then [] else
      var n := |findings| - 1;
      Positions(index, findings[..n], anchored) + if AnchorOf(index, findings[n]).Some? == anchored then [n] else []
  }

  /** Every finding is on exactly one side. */
  lemma {:induction false} PositionsExactly(index: DiffIndex, findings: seq<Finding>, anchored: bool, k: int)
    ensures k in Positions(index, findings, anchored) <==>
            0 <= k < |findings| && AnchorOf(index, findings[k]).Some? == anchored
    decreases |findings|
  {
    if findings != [] {
      PositionsExactly(index, findings[..|findings| - 1], anchored, k);
    }
  }

  /** Each side keeps the findings' order. */
  lemma {:induction false} PositionsIncrease(index: DiffIndex, findings: seq<Finding>, anchored: bool, i: int, j: int)
    requires 0 <= i < j < |Positions(index, findings, anchored)|
    ensures Positions(index, findings, anchored)[i] < Positions(index, findings, anchored)[j]
    decreases |findings|
  {
    var before := findings[..|findings| - 1];
    var p := Positions(index, before, anchored);
    if j < |p| {
      PositionsIncrease(index, before, anchored, i, j);
    } else {
      PositionsExactly(index, before, anchored, p[i]);
    }
  }

  lemma {:induction false} SplitCounts(index: DiffIndex, findings: seq<Finding>)
    ensures |Comments(index, findings)| == |Positions(index, findings, true)|
    ensures |Degraded(index, findings)| == |Positions(index, findings, false)|
    ensures |Comments(index, findings)| + |Degraded(index, findings)| == |findings|
    decreases |findings|
  {
    if findings != [] {
      SplitCounts(index, findings[..|findings| - 1]);
    }
  }

  /** The `i`-th comment is for the `i`-th finding with an anchor, at that finding's anchor. */
  lemma {:induction false} CommentsAreTheAnchored(index: DiffIndex, findings: seq<Finding>, i: int)
    requires 0 <= i < |Comments(index, findings)|
    ensures i < |Positions(index, findings, true)|
    ensures var k := Positions(index, findings, true)[i];
            && 0 <= k < |findings| && AnchorOf(index, findings[k]).Some?
            && Comments(index, findings)[i] == Comment(AnchorOf(index, findings[k]).value, findings[k])
    decreases |findings|
  {
    var before := findings[..|findings| - 1];
    SplitCounts(index, findings);
    SplitCounts(index, before);
    PositionsExactly(index, findings, true, Positions(index, findings, true)[i]);
    if i < |Comments(index, before)| {
      CommentsAreTheAnchored(index, before, i);
    }
  }

  lemma {:induction false} DegradedAreTheRest(index: DiffIndex, findings: seq<Finding>, i: int)
    requires 0 <= i < |Degraded(index, findings)|
    ensures i < |Positions(index, findings, false)|
    ensures var k := Positions(index, findings, false)[i];
            0 <= k < |findings| && Degraded(index, findings)[i] == findings[k]
    decreases |findings|
  {
    var before := findings[..|findings| - 1];
    SplitCounts(index, findings);
    SplitCounts(index, before);
    PositionsExactly(index, findings, false, Positions(index, findings, false)[i]);
    if i < |Degraded(index, before)| {
      DegradedAreTheRest(index, before, i);
    }
  }

  lemma {:induction false} SplitConcat(index: DiffIndex, a: seq<Finding>, b: seq<Finding>)
    ensures Comments(index, a + b) == Comments(index, a) + Comments(index, b)
    ensures Degraded(index, a + b) == Degraded(index, a) + Degraded(index, b)
    decreases |b|
  {
    if b == [] {
      assert a + b == a;
    } else {
      assert (a + b)[..|a + b| - 1] == a + b[..|b| - 1];
      SplitConcat(index, a, b[..|b| - 1]);
    }
  }

  /** Replacing one finding changes its own placement and nobody else's. */
  lemma PlacementsAreIndependent(index: DiffIndex, before: seq<Finding>, f: Finding, after: seq<Finding>)
    ensures Comments(index, before + [f] + after) == Comments(index, before) + Comments(index, [f]) +
            Comments(index, after)
    ensures Degraded(index, before + [f] + after) == Degraded(index, before) + Degraded(index, [f]) +
            Degraded(index, after)
  {
    SplitConcat(index, before, [f]);
    SplitConcat(index, before + [f], after);
  }

  /**
   From diff to comment: a finding in a file whose patch is a printed hunk list is anchored RIGHT exactly when its line
   lies in a hunk of the new file, LEFT exactly when only the old file's hunk has it, and degraded exactly when neither.
   */
  lemma {:induction false} PlacedByHunks(index: DiffIndex, oldFile: seq<string>, newFile: seq<string>,
      hunks: seq<Hunk>, f: Finding)
    requires Turns(oldFile, newFile, 0, 0, hunks) && forall p :: p in PrintedLines(hunks) ==> Tame(p)
    requires f.filePath in index && index[f.filePath] == IndexOf(Print(hunks))
    ensures AnchorOf(index, f) ==
            if InNewHunk(hunks, f.lineStart) then Some(CommentAnchor(f.filePath, f.lineStart, Right))
            else if InOldHunk(hunks, f.lineStart) then Some(CommentAnchor(f.filePath, f.lineStart, Left))
            else None
  {
    WalkerIsFaithful(oldFile, newFile, hunks);
  }
}

/** Posting a review at most once (backend/integrations/github_client.py, `post_review_comment`). */
module ReviewPosting {
  import opened Text
  import opened Findings
  import opened DiffMapping
  import opened Placement
  import opened Markers
  import opened ReliableCalls
  import opened WireEffects
  import ReviewGate
  import Retry
  import Breaker

  const PAGE_SIZE: int := 100

  /** The marker is on the one page of reviews that is read. */
  ghost predicate Found(reviews: seq<PrReview>, reviewId: string)
  {
    exists i :: 0 <= i < |reviews| && i < PAGE_SIZE && Carries(reviews[i], reviewId)
  }

  function Repeated(r: PrReview, n: nat): (s: seq<PrReview>)
    ensures |s| == n && forall i :: 0 <= i < n ==> s[i] == r
  {
    seq(n, _ => r)
  }

  // -------------------------------------------------- runs of executions

  /**
   What happens to a pull request: somebody else's review, an execution of `post_review_comment` for one review id,
   which may get as far as its POSTs (`reached`) and creates so many reviews if it sends them, or a POST that takes
   effect only after its attempt was given up.
   */
  datatype Turn = Foreign(review: PrReview) | Execute(review: PrReview, reached: bool,
      creates: nat) | Land(review: PrReview)

  ghost function AfterTurn(reviews: seq<PrReview>, reviewId: string, t: Turn): seq<PrReview>
  {
    match t
    case Foreign(review) => reviews + [review]
    case Execute(review, reached, creates) =>
      if !reached || Found(reviews, reviewId) then reviews else reviews + Repeated(review, creates)
    case Land(review) => reviews + [review]
  }

  ghost function AfterTurns(reviews: seq<PrReview>, reviewId: string, turns: seq<Turn>): seq<PrReview>
    decreases |turns|
  {
    if turns == [] then reviews
      else AfterTurn(AfterTurns(reviews, reviewId, turns[..|turns| - 1]), reviewId, turns[|turns| - 1])
  }

  /** Reviews of other ids, and of other people, never keep a review from being posted. */
  lemma OthersDoNotBlock(reviews: seq<PrReview>, reviewId: string)
    requires PlainId(reviewId) && forall r :: r in reviews ==> IsOthers(r, reviewId)
    ensures !Found(reviews, reviewId)
    ensures forall review, n :: AfterTurn(reviews, reviewId, Execute(review, true, n)) == reviews + Repeated(review, n)
  {
    forall r | r in reviews ensures !Carries(r, reviewId) {
      OthersDoNotCarry(r, reviewId);
    }
  }

  /** What an execution adds: reviews that begin with the rendered overview, and have its comments. */
  lemma AddedReviews(reviews: seq<PrReview>, reviewId: string, overview: string, comments: seq<Comment>, reached: bool,
      creates: nat, i: int)
    requires var t := Execute(PrReview(SummaryBody(reviewId, overview), comments), reached, creates);
             |reviews| <= i < |AfterTurn(reviews, reviewId, t)|
    ensures var t := Execute(PrReview(SummaryBody(reviewId, overview), comments), reached, creates);
            var added := AfterTurn(reviews, reviewId, t)[i];
            overview <= added.body && added.comments == comments && Carries(added, reviewId)
  {
    PostedBodyCarriesMarker(reviewId, overview, comments);
    assert overview <= SummaryBody(reviewId, overview);
  }

  /** Other reviews do not carry the marker; ours do, and an execution creates at most `most`. */
  ghost predicate Legitimate(turns: seq<Turn>, reviewId: string, most: nat)
  {
    forall t :: t in turns ==> (Carries(t.review, reviewId) <==> !t.Foreign?) && (t.Execute? ==> t.creates <= most)
  }

  /** POSTs that land late. */
  function Landings(turns: seq<Turn>): nat
  {
    if turns == [] then 0 else Landings(turns[..|turns| - 1]) + if turns[|turns| - 1].Land? then 1 else 0
  }

  function Marked(reviews: seq<PrReview>, reviewId: string): nat
  {
    if reviews == [] then 0 else
      Marked(reviews[..|reviews| - 1], reviewId) + if Carries(reviews[|reviews| - 1], reviewId) then 1 else 0
  }

  lemma {:induction false} MarkedOfConcat(a: seq<PrReview>, b: seq<PrReview>, reviewId: string)
    ensures Marked(a + b, reviewId) == Marked(a, reviewId) + Marked(b, reviewId)
    decreases |b|
  {
    if b == [] {
      assert a + b == a;
    } else {
      assert (a + b)[..|a + b| - 1] == a + b[..|b| - 1];
      MarkedOfConcat(a, b[..|b| - 1], reviewId);
    }
  }

  lemma {:induction false} MarkedOfRepeated(r: PrReview, n: nat, reviewId: string)
    ensures Marked(Repeated(r, n), reviewId) == if Carries(r, reviewId) then n else 0
  {
    if n > 0 {
      assert Repeated(r, n)[..n - 1] == Repeated(r, n - 1);
      MarkedOfRepeated(r, n - 1, reviewId);
    }
  }

  lemma {:induction false} NoneMarked(reviews: seq<PrReview>, reviewId: string)
    ensures Marked(reviews, reviewId) == 0 <==> forall i :: 0 <= i < |reviews| ==> !Carries(reviews[i], reviewId)
    decreases |reviews|
  {
    if reviews != [] {
      NoneMarked(reviews[..|reviews| - 1], reviewId);
    }
  }

  /** Reviews are only ever added at the end, and a turn adds markers only by an execution that sees none. */
  lemma TurnAppends(reviews: seq<PrReview>, reviewId: string, t: Turn, most: nat)
    requires Legitimate([t], reviewId, most)
    ensures var after := AfterTurn(reviews, reviewId, t);
            && reviews <= after
            && Marked(after, reviewId) == Marked(reviews, reviewId) +
                 if t.Land? then 1 else if t.Execute? && t.reached && !Found(reviews, reviewId) then t.creates else 0
  {
    assert t in [t];
    if !t.Execute? {
      MarkedOfConcat(reviews, [t.review], reviewId);
      assert [t.review][..0] == [];
    } else {
      MarkedOfConcat(reviews, Repeated(t.review, t.creates), reviewId);
      MarkedOfRepeated(t.review, t.creates, reviewId);
    }
  }

  lemma FoundLasts(before: seq<PrReview>, after: seq<PrReview>, reviewId: string)
    requires before <= after && Found(before, reviewId)
    ensures Found(after, reviewId)
  {
    var i :| 0 <= i < |before| && i < PAGE_SIZE && Carries(before[i], reviewId);
    assert after[i] == before[i];
  }

  /** On one page every marked review is seen. */
  lemma OnePageShowsAll(reviews: seq<PrReview>, reviewId: string)
    requires |reviews| <= PAGE_SIZE
    ensures Found(reviews, reviewId) <==> Marked(reviews, reviewId) > 0
  {
    NoneMarked(reviews, reviewId);
  }

  /**
   Over any run that leaves at most a page of reviews on the pull request, only one execution creates reviews for the
   id: the markers are at most what a single execution may create, and what lands late.
   */
  lemma {:induction false} OneExecutionPosts(reviews: seq<PrReview>, reviewId: string, turns: seq<Turn>, most: nat)
    requires Marked(reviews, reviewId) == 0 && Legitimate(turns, reviewId, most)
    requires |AfterTurns(reviews, reviewId, turns)| <= 100
    ensures Marked(AfterTurns(reviews, reviewId, turns), reviewId) <= most + Landings(turns)
    ensures Marked(AfterTurns(reviews, reviewId, turns), reviewId) == 0 ==> Landings(turns) == 0
    ensures reviews <= AfterTurns(reviews, reviewId, turns)
    decreases |turns|
  {
    if turns != [] {
      var earlier, last := turns[..|turns| - 1], turns[|turns| - 1];
      var before := AfterTurns(reviews, reviewId, earlier);
      TurnAppends(before, reviewId, last, most);
      OneExecutionPosts(reviews, reviewId, earlier, most);
      OnePageShowsAll(before, reviewId);
    }
  }

  /** Reviews created by the executions that reach their POSTs. */
  function CreatedBy(turns: seq<Turn>): nat
  {
    if turns == [] then 0 else
      var t := turns[|turns| - 1];
      CreatedBy(turns[..|turns| - 1]) + if t.Execute? && t.reached then t.creates else 0
  }

  lemma {:induction false} SeenForEver(reviews: seq<PrReview>, reviewId: string, turns: seq<Turn>, most: nat)
    requires Found(reviews, reviewId) && Legitimate(turns, reviewId, most)
    ensures Found(AfterTurns(reviews, reviewId, turns), reviewId)
    ensures Marked(AfterTurns(reviews, reviewId, turns), reviewId) == Marked(reviews, reviewId) + Landings(turns)
    decreases |turns|
  {
    if turns != [] {
      var before, last := AfterTurns(reviews, reviewId, turns[..|turns| - 1]), turns[|turns| - 1];
      SeenForEver(reviews, reviewId, turns[..|turns| - 1], most);
      TurnAppends(before, reviewId, last, most);
      FoundLasts(before, AfterTurn(before, reviewId, last), reviewId);
    }
  }

  lemma {:induction false} NeverSeen(reviews: seq<PrReview>, reviewId: string, turns: seq<Turn>, most: nat)
    requires |reviews| >= PAGE_SIZE && !Found(reviews, reviewId) && Legitimate(turns, reviewId, most)
    ensures reviews <= AfterTurns(reviews, reviewId, turns) && !Found(AfterTurns(reviews, reviewId, turns), reviewId)
    ensures Marked(AfterTurns(reviews, reviewId, turns), reviewId) ==
            Marked(reviews, reviewId) + Landings(turns) + CreatedBy(turns)
    decreases |turns|
  {
    if turns != [] {
      NeverSeen(reviews, reviewId, turns[..|turns| - 1], most);
      TurnAppends(AfterTurns(reviews, reviewId, turns[..|turns| - 1]), reviewId, turns[|turns| - 1], most);
    }
  }

  /** The reviews a turn adds when no marker is seen: one if a POST lands, those of an execution that sends them. */
  function Adds(t: Turn): nat
  {
    if t.Land? then 1 else if t.Execute? && t.reached then t.creates else 0
  }

  /**
   Exactly when a review is posted again: after the first turn that puts a marker on the pull request, an effective
   execution or a POST that lands late, later executions add nothing if the pull request had fewer than a page of
   reviews by then, and every one of them adds all it creates if it had a page or more. What lands late is always
   added.
   */
  lemma RepeatsExactlyPastFirstPage(reviews: seq<PrReview>, reviewId: string, first: Turn, later: seq<Turn>, most: nat)
    requires Marked(reviews, reviewId) == 0 && Legitimate([first] + later, reviewId, most) && Adds(first) >= 1
    ensures Marked(AfterTurns(AfterTurn(reviews, reviewId, first), reviewId, later), reviewId) ==
            Adds(first) + Landings(later) + if |reviews| < 100 then 0 else CreatedBy(later)
  {
    assert first in [first] + later && forall t :: t in later ==> t in [first] + later;
    NoneMarked(reviews, reviewId);
    TurnAppends(reviews, reviewId, first, most);
    var now := AfterTurn(reviews, reviewId, first);
    if |reviews| < PAGE_SIZE {
      assert now[|reviews|] == first.review;
      SeenForEver(now, reviewId, later, most);
    } else {
      NeverSeen(now, reviewId, later, most);
    }
  }

  /** A POST that lands late escapes the lookup of the next execution, even on an empty pull request. */
  lemma LatePostIsRepeated(reviewId: string, review: PrReview)
    requires Carries(review, reviewId)
    ensures var none := AfterTurn([], reviewId, Execute(review, true, 0));
            var one := AfterTurn(none, reviewId, Execute(review, true, 1));
            Marked(AfterTurn(one, reviewId, Land(review)), reviewId) == 2
  {
    TurnAppends([], reviewId, Execute(review, true, 0), 0);
    assert [] + Repeated(review, 0) == [];
    TurnAppends([], reviewId, Execute(review, true, 1), 1);
    TurnAppends(AfterTurn([], reviewId, Execute(review, true, 1)), reviewId, Land(review), 1);
  }

  /** How many reviews one execution's POSTs create at once. */
  function Created(cfg: Breaker.Config, p: Retry.Policy, b: Breaker.Fields, script: int -> Wire): nat
  {
    Total(cfg, p, b, script, Now)
  }

  /**
   When one execution posts a review twice: exactly if a POST took effect unanswered before the last attempt and a later
   one took effect too.
   */
  lemma PostsTwiceExactlyWhen(cfg: Breaker.Config, p: Retry.Policy, b: Breaker.Fields, script: int -> Wire,
      review: PrReview, reviewId: string)
    requires p.Valid() && Carries(review, reviewId)
    ensures Marked(AfterTurn([], reviewId, Execute(review, true, Created(cfg, p, b, script))), reviewId) >= 2 <==>
            exists i, j :: UnansweredEffect(cfg, p, b, script, i) && i < j <= StopOf(cfg, p, b, script) &&
              EffectAt(cfg, b, script, j) == Now
  {
    TwiceExactlyWhen(cfg, p, b, script);
    var n := Created(cfg, p, b, script);
    assert [] + Repeated(review, n) == Repeated(review, n);
    MarkedOfRepeated(review, n, reviewId);
  }

  /** If no POST that took effect is retried, one execution creates at most one review. */
  lemma UnretriedPostsOnce(cfg: Breaker.Config, p: Retry.Policy, b: Breaker.Fields, script: int -> Wire)
    requires p.Valid() && forall i :: !UnansweredEffect(cfg, p, b, script, i)
    ensures Created(cfg, p, b, script) <= 1
  {
    TwiceExactlyWhen(cfg, p, b, script);
  }

  /** One lost reply to a POST, and the retry puts a second copy on an empty pull request. */
  lemma OneExecutionCanPostTwice(cfg: Breaker.Config, p: Retry.Policy, t: real, pause: real, review: PrReview,
      reviewId: string)
    requires cfg.Valid() && p.Valid() && p.maxAttempts >= 2 && (cfg.failureThreshold >= 2 || pause >= cfg.resetTimeout)
    requires Carries(review, reviewId)
    ensures Marked(AfterTurn([], reviewId,
            Execute(review, true, Created(cfg, p, Breaker.INITIAL, LostThenAcked(t, pause)))), reviewId) == 2
  {
    LostThenAckedHappensTwice(cfg, p, t, pause);
    assert [] + Repeated(review, 2) == Repeated(review, 2);
    MarkedOfRepeated(review, 2, reviewId);
  }

  /** Several requests, each retried, one after the other until one gets no answer. */
  function AllTried(cfg: Breaker.Config, p: Retry.Policy, b: Breaker.Fields,
      scripts: seq<int -> Wire>): (Breaker.Fields, bool)
    decreases |scripts|
  {
    if scripts == [] then (b, true) else
      var (after, last, _) := Tried(cfg, p, b, scripts[0], 1);
      if last.Returned? then AllTried(cfg, p, after, scripts[1..]) else (after, false)
  }

  /** Requests go on from where earlier ones left the breaker, and none is made after one without an answer. */
  lemma {:induction false} RequestsInTurn(cfg: Breaker.Config, p: Retry.Policy, b: Breaker.Fields,
      first: seq<int -> Wire>, more: seq<int -> Wire>)
    ensures var (after, answered) := AllTried(cfg, p, b, first);
            AllTried(cfg, p, b, first + more) == if answered then AllTried(cfg, p, after, more) else (after, false)
    ensures |first| == 1 ==>
              var (after, last, _) := Tried(cfg, p, b, first[0], 1);
              AllTried(cfg, p, b, first) == (after, last.Returned?)
    decreases |first|
  {
    if first == [] {
      assert first + more == more;
    } else {
      assert (first + more)[1..] == first[1..] + more;
      RequestsInTurn(cfg, p, Tried(cfg, p, b, first[0], 1).0, first[1..], more);
    }
  }

  datatype Posted = AlreadyThere | Sent | Error

  class PullRequest {
    var reviews: seq<PrReview>

    constructor ()
      ensures reviews == []
    {
      reviews := [];
    }
  }

  class RealGitHubClient {
    const policy: Retry.Policy
    const breaker: Breaker.CircuitBreaker
    var diffCache: map<string, seq<ChangedFile>>

    constructor (policy: Retry.Policy, breaker: Breaker.CircuitBreaker)
      ensures this.policy == policy && this.breaker == breaker && diffCache == map[]
    {
      this.policy, this.breaker, diffCache := policy, breaker, map[];
    }

    /** Requests whose answers, not whose effects, matter. */
    method CallAll(scripts: seq<int -> Wire>) returns (ok: bool)
      requires policy.Valid()
      modifies breaker
      ensures (breaker.Now(), ok) == AllTried(breaker.config, policy, old(breaker.Now()), scripts)
    {
      ghost var all := AllTried(breaker.config, policy, breaker.Now(), scripts);
      for i := 0 to |scripts|
        invariant all == AllTried(breaker.config, policy, breaker.Now(), scripts[i..])
      {
        assert scripts[i..][1..] == scripts[i + 1..];
        var reply, _ := CallReliably(breaker, policy, scripts[i]);
        if !reply.Done? {
          return false;
        }
      }
      return true;
    }

    /**
     The changed files of `key`, from the cache if they are there; `fetched` is what the requests of `fetch` would
     bring.
     */
    method GetFiles(key: string, fetch: seq<int -> Wire>, fetched: seq<ChangedFile>)
        returns (files: Option<seq<ChangedFile>>)
      requires policy.Valid()
      modifies this, breaker
      ensures var asked := AllTried(breaker.config, policy, old(breaker.Now()), fetch);
              && (key in old(diffCache) ==> files == Some(old(diffCache)[key]) && breaker.Now() == old(breaker.Now()))
              && (key !in old(diffCache) ==>
                   files == (if asked.1 then Some(fetched) else None) && breaker.Now() == asked.0)
      ensures diffCache == if files.Some? then old(diffCache)[key := files.value] else old(diffCache)
    {
      if key in diffCache {
        return Some(diffCache[key]);
      }
      var ok := CallAll(fetch);
      if !ok {
        return None;
      }
      diffCache := diffCache[key := fetched];
      return Some(fetched);
    }

    /** The POST of one review, retried: every attempt that takes effect adds it. */
    method PostReliably(pr: PullRequest, review: PrReview, script: int -> Wire) returns (ok: bool, ghost o: Operation)
      requires policy.Valid()
      modifies pr, breaker
      ensures o == Performed(breaker.config, policy, old(breaker.Now()), script, 1)
      ensures breaker.Now() == o.after && ok == (o.fate == Acked)
      ensures pr.reviews == old(pr.reviews) + Repeated(review, o.effects)
    {
      ghost var before, created: nat := pr.reviews, 0;
      o := Performed(breaker.config, policy, breaker.Now(), script, 1);
      var n := 0;
      while true
        invariant 0 <= n < policy.maxAttempts
        invariant pr.reviews == before + Repeated(review, created)
        invariant var rest := Performed(breaker.config, policy, breaker.Now(), script, n + 1);
                  o == rest.(effects := created + rest.effects)
        decreases policy.maxAttempts - n
      {
        n := n + 1;
        var a := script(n);
        var admitted := breaker.Call(a.enteredAt, EndingOf(a.outcome), a.endedAt);
        if admitted && (a.outcome.Returned? || a.outcome.error == Effect.Now) {
          pr.reviews := pr.reviews + [review];
          created := created + 1;
        }
        if !admitted || a.outcome.Returned? || a.outcome.kind != Retry.Transient || n >= policy.maxAttempts {
          return admitted && a.outcome.Returned?, o;
        }
      }
    }

    method FindExistingReviewIdMarker(pr: PullRequest, reviewId: string) returns (found: bool)
      ensures found <==> Found(pr.reviews, reviewId)
    {
      var n := if |pr.reviews| < PAGE_SIZE then |pr.reviews| else PAGE_SIZE;
      for i := 0 to n
        invariant forall j :: 0 <= j < i ==> !Carries(pr.reviews[j], reviewId)
      {
        if Carries(pr.reviews[i], reviewId) {
          return true;
        }
      }
      return false;
    }

    /**
     Post a review. The requests of `lookup` authorise and read the first page of reviews, those of `fetch` would bring
     the changed files `fetched`, and `render` writes the summary from the degraded findings and the number of comments.
     */
    method PostReviewComment(pr: PullRequest, reviewId: string, findings: seq<Finding>,
        render: (seq<Finding>, nat) -> string,
                             key: string, lookup: seq<int -> Wire>, fetch: seq<int -> Wire>, fetched: seq<ChangedFile>,
                               script: int -> Wire)
      returns (result: Posted, ghost index: DiffIndex)
      requires policy.Valid()
      modifies this, pr, breaker
      ensures var cfg := breaker.config;
              var (b1, answered) := AllTried(cfg, policy, old(breaker.Now()), lookup);
              var cached := key in old(diffCache);
              var (b2, brought) := if cached then (b1, true) else AllTried(cfg, policy, b1, fetch);
              var files := if cached then old(diffCache)[key] else fetched;
              var post := Performed(cfg, policy, b2, script, 1);
              var review := PrReview(SummaryBody(reviewId,
                            render(Degraded(index, findings), |Comments(index, findings)|)),
                                     Comments(index, findings));
              var goesOn := answered && !old(Found(pr.reviews, reviewId));
              && pr.reviews == AfterTurn(old(pr.reviews), reviewId, Execute(review, answered && brought, post.effects))
              && (goesOn && brought ==> Indexes(files, index))
              && diffCache == (if goesOn && brought then old(diffCache)[key := files] else old(diffCache))
              && breaker.Now() == (if !goesOn then b1 else if !brought then b2 else post.after)
              && result == (if answered && !goesOn then AlreadyThere else if goesOn && brought &&
                   post.fate == Acked then Sent else Error)
      ensures PlainId(reviewId) && (forall r :: r in old(pr.reviews) ==> IsOthers(r, reviewId)) ==>
                result != AlreadyThere
    {
      ghost var before := pr.reviews;
      if PlainId(reviewId) && forall r :: r in before ==> IsOthers(r, reviewId) {
        OthersDoNotBlock(before, reviewId);
      }
      index := map[];
      var answered := CallAll(lookup);
      if !answered {
        return Error, index;
      }
      var found := FindExistingReviewIdMarker(pr, reviewId);
      if found {
        return AlreadyThere, index;
      }
      var files := GetFiles(key, fetch, fetched);
      if files.None? {
        return Error, index;
      }
      var diffIndex := BuildDiffIndex(files.value);
      index := diffIndex;
      var comments, degraded := SplitFindings(findings, diffIndex);
      var ok, _ := PostReliably(pr, PrReview(SummaryBody(reviewId, render(degraded, |comments|)), comments), script);
      return if ok then Sent else Error, index;
    }

    /** Post a review the gate lets through; any other is left to a human and never touches the pull request. */
    method PostOrQueue(pr: PullRequest, review: ReviewGate.Review, reviewId: string,
        render: (seq<Finding>, nat) -> string,
                       key: string, lookup: seq<int -> Wire>, fetch: seq<int -> Wire>, fetched: seq<ChangedFile>,
                         script: int -> Wire)
      returns (result: Option<Posted>)
      requires policy.Valid()
      modifies this, pr, breaker
      ensures result.Some? <==> review.status == ReviewGate.Posted
      ensures result.None? ==>
              pr.reviews == old(pr.reviews) && diffCache == old(diffCache) && breaker.Now() == old(breaker.Now())
      ensures forall raw, threshold :: ReviewGate.HasCritical(raw) && review == ReviewGate.Aggregate(raw, threshold) ==>
                pr.reviews == old(pr.reviews)
    {
      if review.status == ReviewGate.Posted {
        forall raw, threshold | review == ReviewGate.Aggregate(raw, threshold) ensures !ReviewGate.HasCritical(raw) {
          if ReviewGate.HasCritical(raw) {
            ReviewGate.AnyCriticalForcesHumanReview(raw, threshold);
          }
        }
        var posted, _ := PostReviewComment(pr, reviewId, review.findings, render, key, lookup, fetch, fetched, script);
        return Some(posted);
      }
      return None;
    }
  }

  /** Each changed file, and no other, is indexed by the walk over its patch. */
  ghost predicate Indexes(files: seq<ChangedFile>, index: DiffIndex)
  {
    && (forall path :: path in index <==> exists f :: f in files && f.filename == path)
    && (forall i :: LastNamed(files, i) ==>
         files[i].filename in index && index[files[i].filename] == FileIndex(files[i]))
  }

  lemma LastOfName(files: seq<ChangedFile>, f: ChangedFile) returns (i: int)
    requires f in files
    ensures LastNamed(files, i) && files[i].filename == f.filename
  {
    var k :| 0 <= k < |files| && files[k] == f;
    i := |files| - 1;
    while files[i].filename != f.filename
      invariant k <= i < |files| && forall j :: i < j < |files| ==> files[j].filename != f.filename
      decreases i
    {
      i := i - 1;
    }
  }

  /** A finding in a file that was not changed, or has no patch, goes to the summary. */
  lemma WithoutPatchNoAnchor(files: seq<ChangedFile>, index: DiffIndex, f: Finding)
    requires Indexes(files, index)
    requires forall i :: LastNamed(files, i) && files[i].filename == f.filePath ==> files[i].patch.None?
    ensures AnchorOf(index, f) == None
  {
    if f.filePath in index {
      var g :| g in files && g.filename == f.filePath;
      var i := LastOfName(files, g);
    }
  }

  /**
   What one execution adds for its review id, in the terms of `Turn`: a legitimate one, bounded by the retry policy.
   */
  lemma ExecutionIsLegitimate(cfg: Breaker.Config, p: Retry.Policy, b: Breaker.Fields, script: int -> Wire,
                              reviewId: string, overview: string, comments: seq<Comment>, reached: bool)
    requires p.Valid()
    ensures var post := Performed(cfg, p, b, script, 1);
            && post.effects == Created(cfg, p, b, script)
            && Legitimate([Execute(PrReview(SummaryBody(reviewId, overview), comments), reached, post.effects)],
                 reviewId, p.maxAttempts)
  {
    PostedBodyCarriesMarker(reviewId, overview, comments);
    PerformedIsCallReliably(cfg, p, b, script, 1);
    StopIsInRange(cfg, p, b, script);
  }
}
