/** The marker by which a posted review is recognised (backend/integrations/github_client.py). */
module Markers {
  import opened Placement

  /** A review on the pull request; only its body matters for recognising it. */
  datatype PrReview = PrReview(body: string, comments: seq<Comment>)

  const MARKER_PREFIX: string := "<!-- pr-review-agent:review_id="
  const MARKER_SUFFIX: string := " -->"

  function Marker(reviewId: string): string
  {
    MARKER_PREFIX + reviewId + MARKER_SUFFIX
  }

  /** `marker in body`. */
  predicate Contains(body: string, marker: string)
    decreases |body|
  {
    marker <= body || (body != "" && Contains(body[1..], marker))
  }

  predicate Carries(r: PrReview, reviewId: string)
  {
    Contains(r.body, Marker(reviewId))
  }

  /** The summary: rendered text, with the marker on its last line. */
  function SummaryBody(reviewId: string, overview: string): string
  {
    overview + "\n" + Marker(reviewId)
  }

  lemma {:induction false} ContainsItsEnd(text: string, marker: string)
    ensures Contains(text + marker, marker)
    decreases |text|
  {
    if text == "" {
      assert text + marker == marker;
    } else {
      assert (text + marker)[1..] == text[1..] + marker;
      ContainsItsEnd(text[1..], marker);
    }
  }

  lemma PostedBodyCarriesMarker(reviewId: string, overview: string, comments: seq<Comment>)
    ensures Carries(PrReview(SummaryBody(reviewId, overview), comments), reviewId)
  {
    ContainsItsEnd(overview + "\n", Marker(reviewId));
  }

  // ------------------------------------- whose marker a body carries

  /** `text` stands in `body` at place `i`. */
  predicate StandsAt(body: string, text: string, i: int)
  {
    0 <= i && i + |text| <= |body| && body[i..i + |text|] == text
  }

  lemma {:induction false} ContainsExactlyWhen(body: string, text: string)
    ensures Contains(body, text) <==> exists i :: StandsAt(body, text, i)
    decreases |body|
  {
    if text <= body {
      assert StandsAt(body, text, 0);
    } else {
      if body != "" {
        ContainsExactlyWhen(body[1..], text);
        forall i | i >= 0 ensures StandsAt(body[1..], text, i) <==> StandsAt(body, text, i + 1) {
          StandsLater(body, text, i);
        }
      }
      if i :| StandsAt(body, text, i) {
        assert i == 0 ==> text <= body;
        assert StandsAt(body[1..], text, i - 1);
      }
    }
  }

  lemma StandsLater(body: string, text: string, i: int)
    requires body != "" && i >= 0
    ensures StandsAt(body[1..], text, i) <==> StandsAt(body, text, i + 1)
  {
    if i + 1 + |text| <= |body| {
      assert body[1..][i..i + |text|] == body[i + 1..i + 1 + |text|];
    }
  }

  /** Which review ids a body carries: those whose marker is written out in it. */
  lemma CarriesExactlyWhen(r: PrReview, reviewId: string)
    ensures Carries(r, reviewId) <==>
            exists i :: StandsAt(r.body, "<!-- pr-review-agent:review_id=" + reviewId + " -->", i)
  {
    ContainsExactlyWhen(r.body, Marker(reviewId));
  }

  /** A body without the words `review_id=` and the id does not carry the id. */
  lemma UnmentionedIsNotCarried(r: PrReview, reviewId: string)
    requires forall i :: !StandsAt(r.body, "review_id=" + reviewId, i)
    ensures !Carries(r, reviewId)
  {
    CarriesExactlyWhen(r, reviewId);
    if i :| StandsAt(r.body, "<!-- pr-review-agent:review_id=" + reviewId + " -->", i) {
      var marker := "<!-- pr-review-agent:review_id=" + reviewId + " -->";
      assert marker[21..31 + |reviewId|] == "review_id=" + reviewId;
      InnerStands(r.body, marker, i, 21, 31 + |reviewId|);
    }
  }

  lemma InnerStands(body: string, text: string, i: int, from: int, to: int)
    requires StandsAt(body, text, i) && 0 <= from <= to <= |text|
    ensures StandsAt(body, text[from..to], i + from)
  {
    SliceOfSlice(body, i, i + |text|, from, to);
  }

  lemma SliceOfSlice(s: string, i: int, j: int, from: int, to: int)
    requires 0 <= i <= j <= |s| && 0 <= from <= to <= j - i
    ensures s[i..j][from..to] == s[i + from..i + to]
  {
    var t := s[i..j];
    forall k | 0 <= k < to - from ensures t[from..to][k] == s[i + from..i + to][k] {
      assert t[from..to][k] == t[from + k];
    }
  }

  lemma CharOfText(body: string, text: string, i: int, k: int)
    requires StandsAt(body, text, i) && 0 <= k < |text|
    ensures body[i + k] == text[k]
  {
    assert body[i..i + |text|][k] == body[i + k];
  }

  /** An id as it may stand in a marker. */
  predicate PlainId(id: string)
  {
    forall k :: 0 <= k < |id| ==> id[k] != '<' && id[k] != ' ' && id[k] != '\n'
  }

  /** Of two plain ids each followed by a blank, one text begins with the other only if the ids are equal. */
  lemma IdsEndAtTheBlank(a: string, b: string, after: string)
    requires PlainId(a) && PlainId(b) && b + " " <= a + " " + after
    ensures a == b
  {
    assert (b + " ")[|b|] == ' ' && (a + " " + after)[|a|] == ' ';
    assert forall k :: 0 <= k < |a| ==> (a + " " + after)[k] == a[k];
    assert forall k :: 0 <= k < |b| ==> (b + " ")[k] == b[k];
  }

  /** In the body posted for `a`, a marker stands in the overview or is the last line. */
  lemma MarkerStandsAlone(a: string, overview: string, b: string, i: int)
    requires PlainId(a) && PlainId(b) && StandsAt(SummaryBody(a, overview), Marker(b), i)
    ensures StandsAt(overview, Marker(b), i) || i == |overview| + 1
  {
    var body, text := SummaryBody(a, overview), Marker(b);
    CharOfText(body, text, i, 0);
    if i > |overview| + 1 {
      assert body[i] == Marker(a)[i - |overview| - 1];
      LaterCharsAreNoStart(a, i - |overview| - 1);
    } else if i <= |overview| {
      assert body[|overview|] == '\n';
      if i + |text| > |overview| {
        CharOfText(body, text, i, |overview| - i);
        NoBreakInMarker(b, |overview| - i);
      } else {
        assert body[i..i + |text|] == overview[i..i + |text|];
      }
    }
  }

  lemma LaterCharsAreNoStart(a: string, k: int)
    requires PlainId(a) && 0 < k < |Marker(a)|
    ensures Marker(a)[k] != '<'
  {
    if |MARKER_PREFIX| <= k < |MARKER_PREFIX| + |a| {
      assert Marker(a)[k] == a[k - |MARKER_PREFIX|];
    } else if k < |MARKER_PREFIX| {
      assert Marker(a)[k] == MARKER_PREFIX[k];
    } else {
      assert Marker(a)[k] == MARKER_SUFFIX[k - |MARKER_PREFIX| - |a|];
    }
  }

  lemma NoBreakInMarker(b: string, k: int)
    requires PlainId(b) && 0 <= k < |Marker(b)|
    ensures Marker(b)[k] != '\n'
  {
    if |MARKER_PREFIX| <= k < |MARKER_PREFIX| + |b| {
      assert Marker(b)[k] == b[k - |MARKER_PREFIX|];
    } else if k < |MARKER_PREFIX| {
      assert Marker(b)[k] == MARKER_PREFIX[k];
    } else {
      assert Marker(b)[k] == MARKER_SUFFIX[k - |MARKER_PREFIX| - |b|];
    }
  }

  /**
   Which ids the body posted for `a` carries: `a`, and those whose marker the overview quotes. The overview itself is
   posted unchanged.
   */
  lemma PostedBodyCarriesExactly(a: string, overview: string, comments: seq<Comment>, b: string)
    requires PlainId(a) && PlainId(b)
    ensures Carries(PrReview(SummaryBody(a, overview), comments), b) <==>
            a == b || exists i :: StandsAt(overview, "<!-- pr-review-agent:review_id=" + b + " -->", i)
    ensures overview <= SummaryBody(a, overview)
  {
    var body := SummaryBody(a, overview);
    CarriesExactlyWhen(PrReview(body, comments), b);
    if a == b {
      PostedBodyCarriesMarker(a, overview, comments);
    }
    if i :| StandsAt(overview, Marker(b), i) {
      assert body[i..i + |Marker(b)|] == overview[i..i + |Marker(b)|];
      assert StandsAt(body, Marker(b), i);
    }
    if i :| StandsAt(body, Marker(b), i) {
      MarkerStandsAlone(a, overview, b, i);
      if i == |overview| + 1 {
        LastLineIsOwn(a, overview, b);
      }
    }
  }

  lemma LastLineIsOwn(a: string, overview: string, b: string)
    requires PlainId(a) && PlainId(b) && StandsAt(SummaryBody(a, overview), Marker(b), |overview| + 1)
    ensures a == b
  {
    assert SummaryBody(a, overview)[|overview| + 1..] == Marker(a);
    assert Marker(b) <= Marker(a);
    assert Marker(a)[|MARKER_PREFIX|..] == a + " " + "-->";
    assert b + " " <= Marker(b)[|MARKER_PREFIX|..];
    IdsEndAtTheBlank(a, b, "-->");
  }

  /** Somebody else's review, or one of ours for another id whose overview does not quote the marker of `reviewId`. */
  ghost predicate IsOthers(r: PrReview, reviewId: string)
  {
    || (forall i :: !StandsAt(r.body, "review_id=" + reviewId, i))
    || (exists a, overview :: IsFor(r, a, overview) && PlainId(a) && a != reviewId &&
          forall i :: !StandsAt(overview, "<!-- pr-review-agent:review_id=" + reviewId + " -->", i))
  }

  predicate IsFor(r: PrReview, a: string, overview: string)
  {
    r.body == SummaryBody(a, overview)
  }

  lemma OthersDoNotCarry(r: PrReview, reviewId: string)
    requires IsOthers(r, reviewId) && PlainId(reviewId)
    ensures !Carries(r, reviewId)
  {
    if forall i :: !StandsAt(r.body, "review_id=" + reviewId, i) {
      UnmentionedIsNotCarried(r, reviewId);
    } else {
      var a, overview :| IsFor(r, a, overview) && PlainId(a) && a != reviewId &&
        forall i :: !StandsAt(overview, "<!-- pr-review-agent:review_id=" + reviewId + " -->", i);
      PostedBodyCarriesExactly(a, overview, r.comments, reviewId);
    }
  }
}
