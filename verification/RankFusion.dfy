/** Reciprocal rank fusion and hybrid search (backend/memory/context_retriever.py). */
module RankFusion {
  import opened Text

  datatype Scored = Scored(id: int, score: real)

  /** The score dictionary: `order` has its keys as first inserted. */
  datatype Board = Board(order: seq<int>, scores: map<int, real>)

  const BLANK: Board := Board([], map[])

  function Term(k: int, rank: int): (r: real)
    requires k + rank > 0
    ensures r > 0.0
  {
    1.0 / (k + rank) as real
  }

  function Credit(b: Board, id: int, points: real): Board
  {
    if id in b.scores then b.(scores := b.scores[id := b.scores[id] + points])
    else Board(b.order + [id], b.scores[id := 0.0 + points])
  }

  function CreditRanking(k: int, b: Board, ranking: seq<int>): Board
    requires k > 0
    decreases |ranking|
  {
    if ranking == [] then b else
      var n := |ranking| - 1;
      Credit(CreditRanking(k, b, ranking[..n]), ranking[n], Term(k, n + 1))
  }

  function CreditAll(k: int, rankings: seq<seq<int>>): Board
    requires k > 0
    decreases |rankings|
  {
    if rankings == [] then BLANK else
      var n := |rankings| - 1;
      CreditRanking(k, CreditAll(k, rankings[..n]), rankings[n])
  }

  ghost predicate Sound(b: Board)
  {
    && (forall id :: id in b.scores <==> id in b.order)
    && (forall i, j :: 0 <= i < j < |b.order| ==> b.order[i] != b.order[j])
  }

  /** The dictionary's entries, in insertion order. */
  function Items(b: Board): seq<Scored>
  {
    seq(|b.order|, i requires 0 <= i < |b.order| => Scored(b.order[i], Held(b, b.order[i])))
  }

  function Held(b: Board, id: int): real
  {
    if id in b.scores then b.scores[id] else 0.0
  }

  // ------------------------------------------------------- sorting by score

  /** Puts `x` behind everything that scores at least as much. */
  function Insert(s: seq<Scored>, x: Scored): seq<Scored>
    decreases |s|
  {
    if s == [] || s[|s| - 1].score >= x.score then s + [x]
    else Insert(s[..|s| - 1], x) + [s[|s| - 1]]
  }

  /** A stable sort by descending score. */
  function SortByScore(s: seq<Scored>): seq<Scored>
    decreases |s|
  {
    if s == [] then [] else Insert(SortByScore(s[..|s| - 1]), s[|s| - 1])
  }

  /** `x` goes ahead of `y`: by score, and by `age` where scores are equal. */
  ghost predicate Ahead(age: int -> int, x: Scored, y: Scored)
  {
    x.score > y.score || (x.score == y.score && age(x.id) < age(y.id))
  }

  ghost predicate InOrder(age: int -> int, s: seq<Scored>)
  {
    forall i, j :: 0 <= i < j < |s| ==> Ahead(age, s[i], s[j])
  }

  lemma SameWithLast<T>(s: seq<T>, n: int)
    requires n == |s| - 1 >= 0
    ensures multiset(s) == multiset(s[..n]) + multiset{s[n]}
    ensures forall x :: x in s <==> x in s[..n] || x == s[n]
  {
    assert s == s[..n] + [s[n]];
  }

  lemma {:induction false} InsertKeepsOrder(age: int -> int, s: seq<Scored>, x: Scored)
    requires InOrder(age, s) && (forall y :: y in s ==> age(y.id) < age(x.id))
    ensures InOrder(age, Insert(s, x)) && multiset(Insert(s, x)) == multiset(s) + multiset{x}
    ensures forall y :: y in Insert(s, x) <==> y in s || y == x
    decreases |s|
  {
    if s != [] {
      var n := |s| - 1;
      SameWithLast(s, n);
      if s[n].score < x.score {
        InsertKeepsOrder(age, s[..n], x);
        forall y | y in Insert(s[..n], x) ensures Ahead(age, y, s[n]) {
        }
      } else {
        forall y | y in s ensures Ahead(age, y, x) {
          assert y != s[n] ==> Ahead(age, y, s[n]);
        }
      }
    }
  }

  /** Sorting a list given by increasing age orders it by score, then age, and keeps its entries. */
  lemma {:induction false} SortedByScoreThenAge(age: int -> int, s: seq<Scored>)
    requires forall i, j :: 0 <= i < j < |s| ==> age(s[i].id) < age(s[j].id)
    ensures InOrder(age, SortByScore(s)) && multiset(SortByScore(s)) == multiset(s)
    ensures forall x :: x in SortByScore(s) <==> x in s
    decreases |s|
  {
    if s != [] {
      var n := |s| - 1;
      SameWithLast(s, n);
      SortedByScoreThenAge(age, s[..n]);
      InsertKeepsOrder(age, SortByScore(s[..n]), s[n]);
    }
  }

  // ------------------------------------------------------------ the operation

  function Fused(k: int, rankings: seq<seq<int>>): seq<Scored>
    requires k > 0
  {
    SortByScore(Items(CreditAll(k, rankings)))
  }

  method ReciprocalRankFusion(rankings: seq<seq<int>>, k: int) returns (r: Option<seq<Scored>>)
    ensures r == if k <= 0 then None else Some(Fused(k, rankings))
  {
    if k <= 0 {
      return None;
    }
    var b := BLANK;
    for i := 0 to |rankings|
      invariant b == CreditAll(k, rankings[..i])
    {
      ghost var before := b;
      var ranking := rankings[i];
      for j := 0 to |ranking|
        invariant b == CreditRanking(k, before, ranking[..j])
      {
        assert ranking[..j + 1][..j] == ranking[..j];
        b := Credit(b, ranking[j], Term(k, j + 1));
      }
      assert ranking[..|ranking|] == ranking;
      assert rankings[..i + 1][..i] == rankings[..i];
    }
    assert rankings[..|rankings|] == rankings;
    return Some(SortByScore(Items(b)));
  }

  // ----------------------------------------------------- what the scores mean

  /** The sum of 1/(k + rank) over the positions of `id` in one ranking. */
  function RankScore(k: int, ranking: seq<int>, id: int): (r: real)
    requires k > 0
    ensures r >= 0.0
    decreases |ranking|
  {
    if ranking == [] then 0.0 else
      var n := |ranking| - 1;
      RankScore(k, ranking[..n], id) + if ranking[n] == id then Term(k, n + 1) else 0.0
  }

  /** The RRF score: that sum over every ranking. */
  function Score(k: int, rankings: seq<seq<int>>, id: int): (r: real)
    requires k > 0
    ensures r >= 0.0
    decreases |rankings|
  {
    if rankings == [] then 0.0 else
      var n := |rankings| - 1;
      Score(k, rankings[..n], id) + RankScore(k, rankings[n], id)
  }

  lemma {:induction false} RankingAddsItsScore(k: int, b: Board, ranking: seq<int>, id: int)
    requires k > 0
    ensures Held(CreditRanking(k, b, ranking), id) == Held(b, id) + RankScore(k, ranking, id)
    ensures id in CreditRanking(k, b, ranking).scores <==> id in b.scores || id in ranking
    decreases |ranking|
  {
    if ranking != [] {
      SameWithLast(ranking, |ranking| - 1);
      RankingAddsItsScore(k, b, ranking[..|ranking| - 1], id);
    }
  }

  predicate Mentioned(rankings: seq<seq<int>>, id: int)
  {
    exists i :: 0 <= i < |rankings| && id in rankings[i]
  }

  lemma {:induction false} BoardHoldsScores(k: int, rankings: seq<seq<int>>, id: int)
    requires k > 0
    ensures Held(CreditAll(k, rankings), id) == Score(k, rankings, id)
    ensures id in CreditAll(k, rankings).scores <==> Mentioned(rankings, id)
    decreases |rankings|
  {
    if rankings != [] {
      var n := |rankings| - 1;
      BoardHoldsScores(k, rankings[..n], id);
      RankingAddsItsScore(k, CreditAll(k, rankings[..n]), rankings[n], id);
      assert Mentioned(rankings, id) <==> Mentioned(rankings[..n], id) || id in rankings[n];
    }
  }

  /** Rankings end to end. */
  function Joined(rankings: seq<seq<int>>): seq<int>
    decreases |rankings|
  {
    if rankings == [] then [] else Joined(rankings[..|rankings| - 1]) + rankings[|rankings| - 1]
  }

  /** Where `id` first appears in `s`; past the end if it does not. */
  function FirstAt(s: seq<int>, id: int): (r: int)
    ensures 0 <= r <= |s| && (r < |s| <==> id in s)
    ensures r < |s| ==> s[r] == id
    ensures forall i :: 0 <= i < r ==> s[i] != id
    decreases |s|
  {
    if s == [] then 0 else if s[0] == id then 0 else 1 + FirstAt(s[1..], id)
  }

  lemma {:induction false} OrderOfRanking(k: int, b: Board, ranking: seq<int>, before: seq<int>)
    requires k > 0 && Sound(b) && (forall id :: id in b.order <==> id in before)
    requires forall i, j :: 0 <= i < j < |b.order| ==> FirstAt(before, b.order[i]) < FirstAt(before, b.order[j])
    ensures var after := CreditRanking(k, b, ranking);
            && Sound(after) && (forall id :: id in after.order <==> id in before + ranking)
            && (forall i, j :: 0 <= i < j < |after.order| ==>
                  FirstAt(before + ranking, after.order[i]) < FirstAt(before + ranking, after.order[j]))
    decreases |ranking|
  {
    if ranking == [] {
      assert before + ranking == before;
    } else {
      var n := |ranking| - 1;
      OrderOfRanking(k, b, ranking[..n], before);
      assert before + ranking == (before + ranking[..n]) + [ranking[n]];
      OrderOfOne(CreditRanking(k, b, ranking[..n]), ranking[n], Term(k, n + 1), before + ranking[..n]);
    }
  }

  lemma OrderOfOne(b: Board, id: int, points: real, before: seq<int>)
    requires Sound(b) && (forall x :: x in b.order <==> x in before)
    requires forall i, j :: 0 <= i < j < |b.order| ==> FirstAt(before, b.order[i]) < FirstAt(before, b.order[j])
    ensures var after := Credit(b, id, points);
            && Sound(after) && (forall x :: x in after.order <==> x in before + [id])
            && (forall i, j :: 0 <= i < j < |after.order| ==>
                  FirstAt(before + [id], after.order[i]) < FirstAt(before + [id], after.order[j]))
  {
    forall x | x in before ensures FirstAt(before + [id], x) == FirstAt(before, x) {
      StaysFirst(before, id, x);
    }
  }

  lemma StaysFirst(s: seq<int>, y: int, x: int)
    requires x in s
    ensures FirstAt(s + [y], x) == FirstAt(s, x)
  {
    var a, b := FirstAt(s, x), FirstAt(s + [y], x);
    assert (s + [y])[a] == s[a];
    assert b < |s| ==> (s + [y])[b] == s[b];
  }

  lemma {:induction false} OrderIsFirstMention(k: int, rankings: seq<seq<int>>)
    requires k > 0
    ensures var b, all := CreditAll(k, rankings), Joined(rankings);
            && Sound(b) && (forall id :: id in b.order <==> id in all)
            && (forall i, j :: 0 <= i < j < |b.order| ==> FirstAt(all, b.order[i]) < FirstAt(all, b.order[j]))
    decreases |rankings|
  {
    if rankings != [] {
      var n := |rankings| - 1;
      OrderIsFirstMention(k, rankings[..n]);
      OrderOfRanking(k, CreditAll(k, rankings[..n]), rankings[n], Joined(rankings[..n]));
    }
  }

  lemma ItemsAreScored(k: int, rankings: seq<seq<int>>, x: Scored)
    requires k > 0
    ensures x in Items(CreditAll(k, rankings)) <==> Mentioned(rankings, x.id) && x.score == Score(k, rankings, x.id)
  {
    var b := CreditAll(k, rankings);
    OrderIsFirstMention(k, rankings);
    BoardHoldsScores(k, rankings, x.id);
    if x.id in b.order {
      var i :| 0 <= i < |b.order| && b.order[i] == x.id;
      assert Items(b)[i] == Scored(x.id, Held(b, x.id));
    }
  }

  /**
   What fusion returns: exactly the mentioned ids, each once and with its RRF score, by descending score, and equal
   scores in the order the ids are first mentioned.
   */
  lemma FusionMeaning(k: int, rankings: seq<seq<int>>)
    requires k > 0
    ensures var out := Fused(k, rankings);
            && (forall x :: x in out <==> Mentioned(rankings, x.id) && x.score == Score(k, rankings, x.id))
            && InOrder(id => FirstAt(Joined(rankings), id), out)
  {
    OrderIsFirstMention(k, rankings);
    SortedByScoreThenAge(id => FirstAt(Joined(rankings), id), Items(CreditAll(k, rankings)));
    forall x ensures x in Fused(k, rankings) <==> Mentioned(rankings, x.id) && x.score == Score(k, rankings, x.id) {
      ItemsAreScored(k, rankings, x);
    }
  }

  /** Ids in the result are distinct and scores never increase. */
  lemma FusedIdsAreDistinct(k: int, rankings: seq<seq<int>>, i: int, j: int)
    requires k > 0 && 0 <= i < j < |Fused(k, rankings)|
    ensures var out := Fused(k, rankings); out[i].id != out[j].id && out[i].score >= out[j].score
  {
    var out := Fused(k, rankings);
    FusionMeaning(k, rankings);
    assert Ahead(id => FirstAt(Joined(rankings), id), out[i], out[j]);
    assert out[i] in out && out[j] in out;
  }

  /** Of two fused ids the one with the higher score, or at equal scores the one mentioned first, comes first. */
  lemma PlacesFollowScores(k: int, rankings: seq<seq<int>>, i: int, j: int)
    requires k > 0 && 0 <= i < |Fused(k, rankings)| && 0 <= j < |Fused(k, rankings)|
    ensures var x, y := Fused(k, rankings)[i], Fused(k, rankings)[j];
            i < j <==>
            x.score > y.score ||
            (x.score == y.score && FirstAt(Joined(rankings), x.id) < FirstAt(Joined(rankings), y.id))
  {
    var out := Fused(k, rankings);
    FusionMeaning(k, rankings);
    var age := id => FirstAt(Joined(rankings), id);
    assert i < j ==> Ahead(age, out[i], out[j]);
    assert j < i ==> Ahead(age, out[j], out[i]);
  }

  // ----------------------------------------------------------- two rankers

  ghost predicate Distinct(s: seq<int>)
  {
    forall i, j :: 0 <= i < j < |s| ==> s[i] != s[j]
  }

  /** In a ranking of distinct ids the score is one term, at the id's place. */
  lemma {:induction false} OneTerm(k: int, ranking: seq<int>, id: int)
    requires k > 0 && Distinct(ranking)
    ensures RankScore(k, ranking, id) == if id in ranking then Term(k, FirstAt(ranking, id) + 1) else 0.0
    decreases |ranking|
  {
    if ranking != [] {
      var n := |ranking| - 1;
      var before := ranking[..n];
      OneTerm(k, before, id);
      SameWithLast(ranking, n);
      assert before + [ranking[n]] == ranking;
      if id in before {
        StaysFirst(before, ranking[n], id);
      }
    }
  }

  lemma ScoreOfTwo(k: int, a: seq<int>, b: seq<int>, id: int)
    requires k > 0
    ensures Score(k, [a, b], id) == RankScore(k, a, id) + RankScore(k, b, id)
    ensures Mentioned([a, b], id) <==> id in a || id in b
    ensures Joined([a, b]) == a + b
  {
    assert [a, b][..1] == [a] && [a][..0] == [];
    assert Score(k, [a], id) == RankScore(k, a, id);
    assert Joined([a]) == a;
    assert [a, b][0] == a && [a, b][1] == b;
  }

  /** `score` is the fraction `num / den`. */
  predicate IsFraction(score: real, num: int, den: int)
  {
    score * den as real == num as real
  }

  lemma TermTimesItsRank(k: int, rank: int)
    requires k > 0 && rank > 0
    ensures IsFraction(Term(k, rank), 1, k + rank)
  {
  }

  lemma PlaceIsFirst(s: seq<int>, id: int, p: int)
    requires Distinct(s) && 1 <= p <= |s| && s[p - 1] == id
    ensures id in s && FirstAt(s, id) + 1 == p
  {
  }

  lemma SumOfParts(s: real, t: real, x: int, y: int)
    requires IsFraction(s, 1, x) && IsFraction(t, 1, y)
    ensures IsFraction(s + t, x + y, x * y)
  {
    var v, w := x as real, y as real;
    assert (x * y) as real == v * w;
    assert (s + t) * (v * w) == (s * v) * w + (t * w) * v;
  }

  lemma RankScoreAt(k: int, ranking: seq<int>, id: int, p: int)
    requires k > 0 && Distinct(ranking) && 1 <= p <= |ranking| && ranking[p - 1] == id
    ensures IsFraction(RankScore(k, ranking, id), 1, k + p)
  {
    OneTerm(k, ranking, id);
    PlaceIsFirst(ranking, id, p);
    TermTimesItsRank(k, p);
  }

  lemma FusedScore(k: int, a: seq<int>, b: seq<int>, x: Scored)
    requires k > 0 && x in Fused(k, [a, b])
    ensures x.score == RankScore(k, a, x.id) + RankScore(k, b, x.id)
  {
    FusionMeaning(k, [a, b]);
    ScoreOfTwo(k, a, b, x.id);
  }

  /** An id that the first ranking has at rank `p`, and the second not at all, scores 1 / (k + p). */
  lemma FoundByFirst(k: int, a: seq<int>, b: seq<int>, x: Scored, p: int)
    requires k > 0 && Distinct(a) && Distinct(b) && x in Fused(k, [a, b])
    requires 1 <= p <= |a| && a[p - 1] == x.id && x.id !in b
    ensures IsFraction(x.score, 1, k + p)
  {
    FusedScore(k, a, b, x);
    OneTerm(k, b, x.id);
    RankScoreAt(k, a, x.id, p);
  }

  /** And the other way round. */
  lemma FoundBySecond(k: int, a: seq<int>, b: seq<int>, x: Scored, q: int)
    requires k > 0 && Distinct(a) && Distinct(b) && x in Fused(k, [a, b])
    requires 1 <= q <= |b| && b[q - 1] == x.id && x.id !in a
    ensures IsFraction(x.score, 1, k + q)
  {
    FusedScore(k, a, b, x);
    OneTerm(k, a, x.id);
    RankScoreAt(k, b, x.id, q);
  }

  /** An id at rank `p` of the one and `q` of the other scores (2k + p + q) / ((k + p)(k + q)). */
  lemma FoundByBothScores(k: int, a: seq<int>, b: seq<int>, x: Scored, p: int, q: int)
    requires k > 0 && Distinct(a) && Distinct(b) && x in Fused(k, [a, b])
    requires 1 <= p <= |a| && a[p - 1] == x.id && 1 <= q <= |b| && b[q - 1] == x.id
    ensures IsFraction(x.score, 2 * k + p + q, (k + p) * (k + q))
  {
    FusedScore(k, a, b, x);
    RankScoreAt(k, a, x.id, p);
    RankScoreAt(k, b, x.id, q);
    SumOfParts(RankScore(k, a, x.id), RankScore(k, b, x.id), k + p, k + q);
  }

  lemma TermShrinks(k: int, r: int, s: int)
    requires k > 0 && 0 < r <= s
    ensures Term(k, s) <= Term(k, r)
  {
    Reciprocal((k + r) as real, (k + s) as real);
  }

  lemma Reciprocal(x: real, y: real)
    requires 0.0 < x <= y
    ensures 1.0 / y <= 1.0 / x
  {
  }

  /** Two terms at rank `p` beat one at rank 1 exactly when p < k + 2. */
  lemma TwoBeatOne(k: int, p: int)
    requires k > 0 && p > 0
    ensures Term(k, p) + Term(k, p) > Term(k, 1) <==> p < k + 2
  {
    TwoReciprocals((k + p) as real, (k + 1) as real);
  }

  lemma TwoReciprocals(x: real, y: real)
    requires x > 0.0 && y > 0.0
    ensures 1.0 / x + 1.0 / x > 1.0 / y <==> x < 2.0 * y
  {
  }

  /** Whatever two rankers of distinct ids return, ids both found come before ids only one found. */
  ghost predicate SharedComeFirst(k: int, pool: int)
    requires k > 0
  {
    forall a, b, i, j ::
      Distinct(a) && Distinct(b) && |a| <= pool && |b| <= pool && 0 <= i < |Fused(k, [a, b])| &&
        0 <= j < |Fused(k, [a, b])| &&
      Fused(k, [a, b])[i].id in a && Fused(k, [a, b])[i].id in b &&
      !(Fused(k, [a, b])[j].id in a && Fused(k, [a, b])[j].id in b)
      ==> i < j
  }

  /** The score of an id in two rankings of distinct ids, by its places. */
  lemma ScoreByPlaces(k: int, a: seq<int>, b: seq<int>, id: int)
    requires k > 0 && Distinct(a) && Distinct(b)
    ensures Score(k, [a, b], id) ==
            (if id in a then Term(k, FirstAt(a, id) + 1) else 0.0) +
              (if id in b then Term(k, FirstAt(b, id) + 1) else 0.0)
  {
    ScoreOfTwo(k, a, b, id);
    OneTerm(k, a, id);
    OneTerm(k, b, id);
  }

  lemma SharedScoresAtLeast(k: int, pool: int, a: seq<int>, b: seq<int>, id: int)
    requires k > 0 && Distinct(a) && Distinct(b) && |a| <= pool && |b| <= pool && id in a && id in b
    ensures Score(k, [a, b], id) >= Term(k, pool) + Term(k, pool)
  {
    ScoreByPlaces(k, a, b, id);
    TermShrinks(k, FirstAt(a, id) + 1, pool);
    TermShrinks(k, FirstAt(b, id) + 1, pool);
  }

  lemma SingleScoresAtMost(k: int, a: seq<int>, b: seq<int>, id: int)
    requires k > 0 && Distinct(a) && Distinct(b) && !(id in a && id in b)
    ensures Score(k, [a, b], id) <= Term(k, 1)
  {
    ScoreByPlaces(k, a, b, id);
    if id in a {
      TermShrinks(k, 1, FirstAt(a, id) + 1);
    } else if id in b {
      TermShrinks(k, 1, FirstAt(b, id) + 1);
    }
  }

  lemma SharedBeatsSingle(k: int, pool: int, a: seq<int>, b: seq<int>, i: int, j: int)
    requires k > 0 && pool < k + 2 && Distinct(a) && Distinct(b) && |a| <= pool && |b| <= pool
    requires var out := Fused(k, [a, b]);
             && 0 <= i < |out| && 0 <= j < |out| && out[i].id in a && out[i].id in b &&
                  !(out[j].id in a && out[j].id in b)
    ensures i < j
  {
    var out := Fused(k, [a, b]);
    FusionMeaning(k, [a, b]);
    assert out[i] in out && out[j] in out;
    SharedScoresAtLeast(k, pool, a, b, out[i].id);
    SingleScoresAtMost(k, a, b, out[j].id);
    TwoBeatOne(k, pool);
    PlacesFollowScores(k, [a, b], i, j);
  }

  lemma PlaceOf(k: int, rankings: seq<seq<int>>, id: int) returns (i: int)
    requires k > 0 && Mentioned(rankings, id)
    ensures 0 <= i < |Fused(k, rankings)| && Fused(k, rankings)[i] == Scored(id, Score(k, rankings, id))
  {
    FusionMeaning(k, rankings);
    var out, x := Fused(k, rankings), Scored(id, Score(k, rankings, id));
    assert x in out;
    i :| 0 <= i < |out| && out[i] == x;
  }

  /** Two rankings of length `pool` that share only their last id. */
  lemma RankingsSharingTheLast(pool: int) returns (a: seq<int>, b: seq<int>)
    requires pool >= 2
    ensures |a| == |b| == pool && Distinct(a) && Distinct(b) && a[0] == 0 && 0 !in b
    ensures a[pool - 1] == b[pool - 1] == pool - 1 && forall id :: id in a && id in b ==> id == pool - 1
  {
    a := seq(pool, i => i);
    b := seq(pool, i => if i == pool - 1 then i else pool + i);
  }

  lemma SingleBeatsShared(k: int, pool: int)
    requires k > 0 && pool >= k + 2
    ensures !SharedComeFirst(k, pool)
  {
    var a, b := RankingsSharingTheLast(pool);
    var x := pool - 1;
    ScoreByPlaces(k, a, b, x);
    ScoreByPlaces(k, a, b, 0);
    TwoBeatOne(k, pool);
    ScoreOfTwo(k, a, b, x);
    ScoreOfTwo(k, a, b, 0);
    var i := PlaceOf(k, [a, b], x);
    var j := PlaceOf(k, [a, b], 0);
    assert (a + b)[0] == 0;
    PlacesFollowScores(k, [a, b], j, i);
  }

  /** Agreement of the two rankers decides exactly as long as the candidate pool is smaller than k + 2. */
  lemma AgreementWinsExactlyWhen(k: int, pool: nat)
    requires k > 0
    ensures SharedComeFirst(k, pool) <==> pool < k + 2
  {
    if pool < k + 2 {
      forall a, b, i, j | Distinct(a) && Distinct(b) && |a| <= pool && |b| <= pool &&
                          0 <= i < |Fused(k, [a, b])| && 0 <= j < |Fused(k, [a, b])| &&
                          Fused(k, [a, b])[i].id in a && Fused(k, [a, b])[i].id in b &&
                          !(Fused(k, [a, b])[j].id in a && Fused(k, [a, b])[j].id in b)
        ensures i < j
      {
        SharedBeatsSingle(k, pool, a, b, i, j);
      }
    } else {
      SingleBeatsShared(k, pool);
    }
  }

  // ---------------------------------------------------------- hybrid search

  datatype Row = Row(id: int, path: string, content: string)

  datatype Chunk = Chunk(id: int, path: string, content: string, score: real)

  /** How many rows each ranker is asked for. */
  function CandidatePool(topK: int): (r: nat)
    ensures r >= 20 && r >= 4 * topK && (r == 20 || r == 4 * topK)
  {
    if 4 * topK > 20 then 4 * topK else 20
  }

  /** `LIMIT n`. */
  function Limit(rows: seq<Row>, n: nat): seq<Row>
  {
    if |rows| <= n then rows else rows[..n]
  }

  function Ids(rows: seq<Row>): (r: seq<int>)
    ensures |r| == |rows| && forall i :: 0 <= i < |rows| ==> r[i] == rows[i].id
  {
    seq(|rows|, i requires 0 <= i < |rows| => rows[i].id)
  }

  /** A slice up to `n`, which counts from the end if negative. */
  function UpTo<T>(s: seq<T>, n: int): (r: seq<T>)
    ensures r <= s && (n >= 0 ==> |r| == if n <= |s| then n else |s|)
    ensures n < 0 ==> |r| == if |s| + n >= 0 then |s| + n else 0
  {
    if n > |s| then s else if n >= 0 then s[..n] else if |s| + n >= 0 then s[..|s| + n] else []
  }

  /** The last row with its id. */
  ghost predicate IsLast(rows: seq<Row>, row: Row)
  {
    exists i :: 0 <= i < |rows| && rows[i] == row && forall j :: i < j < |rows| ==> rows[j].id != row.id
  }

  /** Rows by id; of several with one id the last counts. */
  function RowsById(rows: seq<Row>): (m: map<int, Row>)
    ensures forall id :: id in m ==> m[id] in rows && m[id].id == id
    ensures forall row :: row in rows ==> row.id in m
    decreases |rows|
  {
    if rows == [] then map[] else RowsById(rows[..|rows| - 1])[rows[|rows| - 1].id := rows[|rows| - 1]]
  }

  lemma {:induction false} LastRowCounts(rows: seq<Row>, id: int)
    requires id in RowsById(rows)
    ensures IsLast(rows, RowsById(rows)[id])
    decreases |rows|
  {
    var n := |rows| - 1;
    if rows[n].id == id {
      assert rows[n] == RowsById(rows)[id];
    } else {
      LastRowCounts(rows[..n], id);
      LastOfLonger(rows, n, RowsById(rows)[id]);
    }
  }

  lemma LastOfLonger(rows: seq<Row>, n: nat, row: Row)
    requires n + 1 == |rows| && IsLast(rows[..n], row) && row.id != rows[n].id
    ensures IsLast(rows, row)
  {
    var i :| 0 <= i < n && rows[..n][i] == row && forall j :: i < j < n ==> rows[..n][j].id != row.id;
    assert rows[i] == row && forall j :: i < j < n ==> rows[j] == rows[..n][j];
  }

  /** A chunk is a fused id with its score and that id's row, from full text if full text found it. */
  ghost predicate IsChunkFor(v: seq<Row>, f: seq<Row>, x: Scored, c: Chunk)
  {
    && c.id == x.id && c.score == x.score
    && var row := Row(c.id, c.path, c.content);
       if c.id in Ids(f) then IsLast(f, row) else IsLast(v, row)
  }

  lemma FusedIdsHaveRows(k: int, v: seq<Row>, f: seq<Row>, x: Scored)
    requires k > 0 && x in Fused(k, [Ids(v), Ids(f)])
    ensures x.id in Ids(v) || x.id in Ids(f)
    ensures x.id in RowsById(v) || x.id in RowsById(f)
  {
    FusionMeaning(k, [Ids(v), Ids(f)]);
    ScoreOfTwo(k, Ids(v), Ids(f), x.id);
  }

  function ChunkFor(rows: map<int, Row>, x: Scored): Chunk
    requires x.id in rows
  {
    Chunk(x.id, rows[x.id].path, rows[x.id].content, x.score)
  }

  lemma {:induction false} LookupNeverMisses(k: int, v: seq<Row>, f: seq<Row>, x: Scored)
    requires k > 0 && x in Fused(k, [Ids(v), Ids(f)])
    ensures var rows := RowsById(v) + RowsById(f); x.id in rows && IsChunkFor(v, f, x, ChunkFor(rows, x))
  {
    FusedIdsHaveRows(k, v, f, x);
    FulltextRowCounts(v, f, x.id);
    var row := (RowsById(v) + RowsById(f))[x.id];
    assert row == Row(row.id, row.path, row.content);
  }

  lemma IdsInRows(rows: seq<Row>, id: int)
    ensures id in Ids(rows) <==> id in RowsById(rows)
  {
    if id in RowsById(rows) {
      var i :| 0 <= i < |rows| && rows[i] == RowsById(rows)[id];
      assert Ids(rows)[i] == id;
    }
    if i :| 0 <= i < |rows| && Ids(rows)[i] == id {
      assert rows[i] in rows;
    }
  }

  lemma {:induction false} FulltextRowCounts(v: seq<Row>, f: seq<Row>, id: int)
    requires id in RowsById(v) || id in RowsById(f)
    ensures var row := (RowsById(v) + RowsById(f))[id];
            row.id == id && if id in Ids(f) then IsLast(f, row) else IsLast(v, row)
  {
    IdsInRows(f, id);
    if id in RowsById(f) {
      LastRowCounts(f, id);
    } else {
      LastRowCounts(v, id);
    }
  }

  lemma AllLookupsHit(k: int, v: seq<Row>, f: seq<Row>, top: seq<Scored>)
    requires k > 0 && top <= Fused(k, [Ids(v), Ids(f)])
    ensures var rows := RowsById(v) + RowsById(f);
            forall i :: 0 <= i < |top| ==> top[i].id in rows && IsChunkFor(v, f, top[i], ChunkFor(rows, top[i]))
  {
    forall i | 0 <= i < |top|
      ensures var rows := RowsById(v) + RowsById(f);
              top[i].id in rows && IsChunkFor(v, f, top[i], ChunkFor(rows, top[i]))
    {
      assert top[i] == Fused(k, [Ids(v), Ids(f)])[i];
      LookupNeverMisses(k, v, f, top[i]);
    }
  }

  /** The fused ids that are kept. */
  function Top(vector: seq<Row>, fulltext: seq<Row>, n: int, k: int): (top: seq<Scored>)
    requires k > 0
    ensures n >= 0 ==> |top| <= n
  {
    UpTo(Fused(k, [Ids(Limit(vector, CandidatePool(n))), Ids(Limit(fulltext, CandidatePool(n)))]), n)
  }

  /** What a search for `n` results returns: the first ids of the fusion of both pools, each with its row and score. */
  function Search(vector: seq<Row>, fulltext: seq<Row>, n: int, k: int): (chunks: seq<Chunk>)
    requires k > 0
    ensures |chunks| == |Top(vector, fulltext, n, k)|
    ensures var v, f := Limit(vector, CandidatePool(n)), Limit(fulltext, CandidatePool(n));
            forall i :: 0 <= i < |chunks| ==> IsChunkFor(v, f, Top(vector, fulltext, n, k)[i], chunks[i])
  {
    var v, f := Limit(vector, CandidatePool(n)), Limit(fulltext, CandidatePool(n));
    var top, rows := Top(vector, fulltext, n, k), RowsById(v) + RowsById(f);
    AllLookupsHit(k, v, f, top);
    seq(|top|, i requires 0 <= i < |top| && top[i].id in rows => ChunkFor(rows, top[i]))
  }

  method ChunksFor(rows: map<int, Row>, top: seq<Scored>) returns (chunks: seq<Chunk>)
    requires forall i :: 0 <= i < |top| ==> top[i].id in rows
    ensures |chunks| == |top| && forall i :: 0 <= i < |top| ==> chunks[i] == ChunkFor(rows, top[i])
  {
    chunks := [];
    for i := 0 to |top|
      invariant |chunks| == i && forall j :: 0 <= j < i ==> chunks[j] == ChunkFor(rows, top[j])
    {
      chunks := chunks + [ChunkFor(rows, top[i])];
    }
  }

  /** `vector` and `fulltext` are all rows each ranker would return, in its order. */
  method HybridSearch(vector: seq<Row>, fulltext: seq<Row>, topK: Option<int>, defaultTopK: int, k: int)
    returns (r: Option<seq<Chunk>>)
    ensures var n := if topK.Some? then topK.value else defaultTopK;
            r == if k <= 0 then None else Some(Search(vector, fulltext, n, k))
  {
    var n := if topK.Some? then topK.value else defaultTopK;
    var pool := CandidatePool(n);
    var v, f := Limit(vector, pool), Limit(fulltext, pool);
    var fused := ReciprocalRankFusion([Ids(v), Ids(f)], k);
    if fused.None? {
      return None;
    }
    var top := UpTo(fused.value, n);
    AllLookupsHit(k, v, f, top);
    var chunks := ChunksFor(RowsById(v) + RowsById(f), top);
    assert chunks == Search(vector, fulltext, n, k);
    return Some(chunks);
  }

  // ------------------------------------------------- what a search returns

  /** The returned chunks are distinct, their scores never increase, and there are at most as many as asked for. */
  lemma ResultsAreDistinct(vector: seq<Row>, fulltext: seq<Row>, n: int, k: int, i: int, j: int)
    requires k > 0 && 0 <= i < j < |Search(vector, fulltext, n, k)|
    ensures var chunks := Search(vector, fulltext, n, k);
            chunks[i].id != chunks[j].id && chunks[i].score >= chunks[j].score && (n >= 0 ==> |chunks| <= n)
  {
    var top := Top(vector, fulltext, n, k);
    var v, f := Limit(vector, CandidatePool(n)), Limit(fulltext, CandidatePool(n));
    assert IsChunkFor(v, f, top[i], Search(vector, fulltext, n, k)[i]);
    assert IsChunkFor(v, f, top[j], Search(vector, fulltext, n, k)[j]);
    FusedIdsAreDistinct(k, [Ids(v), Ids(f)], i, j);
  }

  lemma FusedChunk(vector: seq<Row>, fulltext: seq<Row>, n: int, k: int, c: Chunk, v: seq<int>, f: seq<int>)
      returns (x: Scored)
    requires k > 0 && c in Search(vector, fulltext, n, k)
    requires v == Ids(Limit(vector, CandidatePool(n))) && f == Ids(Limit(fulltext, CandidatePool(n)))
    ensures x in Fused(k, [v, f]) && x.id == c.id && x.score == c.score
  {
    var i :| 0 <= i < |Search(vector, fulltext, n, k)| && Search(vector, fulltext, n, k)[i] == c;
    x := Top(vector, fulltext, n, k)[i];
    assert IsChunkFor(Limit(vector, CandidatePool(n)), Limit(fulltext, CandidatePool(n)), x, c);
    assert x == Fused(k, [v, f])[i];
  }

  /** Row `p` of the candidates, counted from 1, is the chunk's. */
  predicate IsCandidate(rows: seq<Row>, n: int, p: int, id: int)
  {
    1 <= p <= |rows| && (p <= 20 || p <= 4 * n) && rows[p - 1].id == id
  }

  lemma CandidateHasRank(rows: seq<Row>, n: int, p: int, id: int)
    requires IsCandidate(rows, n, p, id)
    ensures var ids := Ids(Limit(rows, CandidatePool(n))); p <= |ids| && ids[p - 1] == id
  {
  }

  lemma NotAmongCandidates(rows: seq<Row>, n: int, id: int)
    requires forall p :: !IsCandidate(rows, n, p, id)
    ensures id !in Ids(Limit(rows, CandidatePool(n)))
  {
    var ids := Ids(Limit(rows, CandidatePool(n)));
    if j :| 0 <= j < |ids| && ids[j] == id {
      assert IsCandidate(rows, n, j + 1, id);
    }
  }

  /** No candidate of the ranker is the chunk's. */
  ghost predicate Misses(rows: seq<Row>, n: int, id: int)
  {
    forall p :: !IsCandidate(rows, n, p, id)
  }

  /** Two rankers' rows, none of which lists an id twice. */
  ghost predicate IsCorpus(vector: seq<Row>, fulltext: seq<Row>)
  {
    Distinct(Ids(vector)) && Distinct(Ids(fulltext))
  }

  /** The ids of a ranker's candidates are distinct, with the chunk's at its rank, or nowhere. */
  lemma CandidateIds(rows: seq<Row>, n: int, p: int, id: int) returns (ids: seq<int>)
    requires Distinct(Ids(rows)) && (IsCandidate(rows, n, p, id) || Misses(rows, n, id))
    ensures ids == Ids(Limit(rows, CandidatePool(n))) && Distinct(ids)
    ensures IsCandidate(rows, n, p, id) <==> id in ids
    ensures id in ids ==> 1 <= p <= |ids| && ids[p - 1] == id
  {
    ids := Ids(Limit(rows, CandidatePool(n)));
    LimitKeepsDistinct(rows, CandidatePool(n));
    if IsCandidate(rows, n, p, id) {
      CandidateHasRank(rows, n, p, id);
    } else {
      NotAmongCandidates(rows, n, id);
    }
  }

  /**
   What a returned chunk scores: 1 / (k + p) if only the vector ranker has it, at rank `p` of its candidates,
   1 / (k + q) if only full text has it, at rank `q`, and the sum of the two if both have.
   */
  lemma ChunkScoreByRank(vector: seq<Row>, fulltext: seq<Row>, n: int, k: int, c: Chunk, p: int, q: int)
    requires k > 0 && IsCorpus(vector, fulltext) && c in Search(vector, fulltext, n, k)
    requires IsCandidate(vector, n, p, c.id) || Misses(vector, n, c.id)
    requires IsCandidate(fulltext, n, q, c.id) || Misses(fulltext, n, c.id)
    ensures if IsCandidate(vector, n, p, c.id) && IsCandidate(fulltext, n, q, c.id)
            then IsFraction(c.score, 2 * k + p + q, (k + p) * (k + q))
            else if IsCandidate(vector, n, p, c.id) then IsFraction(c.score, 1, k + p)
            else IsCandidate(fulltext, n, q, c.id) && IsFraction(c.score, 1, k + q)
  {
    var v := CandidateIds(vector, n, p, c.id);
    var f := CandidateIds(fulltext, n, q, c.id);
    var x := FusedChunk(vector, fulltext, n, k, c, v, f);
    ScoreByRank(k, v, f, x, p, q);
  }

  lemma ScoreByRank(k: int, v: seq<int>, f: seq<int>, x: Scored, p: int, q: int)
    requires k > 0 && Distinct(v) && Distinct(f) && x in Fused(k, [v, f])
    requires x.id in v ==> 1 <= p <= |v| && v[p - 1] == x.id
    requires x.id in f ==> 1 <= q <= |f| && f[q - 1] == x.id
    ensures if x.id in v && x.id in f then IsFraction(x.score, 2 * k + p + q, (k + p) * (k + q))
            else if x.id in v then IsFraction(x.score, 1, k + p)
            else x.id in f && IsFraction(x.score, 1, k + q)
  {
    if x.id in v && x.id in f {
      FoundByBothScores(k, v, f, x, p, q);
    } else if x.id in v {
      FoundByFirst(k, v, f, x, p);
    } else if x.id in f {
      FoundBySecond(k, v, f, x, q);
    } else {
      FusionMeaning(k, [v, f]);
      ScoreOfTwo(k, v, f, x.id);
    }
  }

  /** Both rankers return the chunk among their candidates. */
  predicate FoundByBoth(vector: seq<Row>, fulltext: seq<Row>, n: int, id: int)
  {
    id in Ids(Limit(vector, CandidatePool(n))) && id in Ids(Limit(fulltext, CandidatePool(n)))
  }

  /** Result `i` was found by both rankers, result `j` by one only. */
  ghost predicate SharedAndSingle(vector: seq<Row>, fulltext: seq<Row>, n: int, k: int, i: int, j: int)
    requires k > 0
  {
    var chunks := Search(vector, fulltext, n, k);
    && 0 <= i < |chunks| && 0 <= j < |chunks|
    && FoundByBoth(vector, fulltext, n, chunks[i].id) && !FoundByBoth(vector, fulltext, n, chunks[j].id)
  }

  /** Whatever the corpus, returned chunks that both rankers found come before those only one found. */
  ghost predicate AgreementComesFirst(n: int, k: int)
    requires k > 0
  {
    forall vector, fulltext, i, j ::
      Distinct(Ids(vector)) && Distinct(Ids(fulltext)) && SharedAndSingle(vector, fulltext, n, k, i, j) ==> i < j
  }

  lemma LimitKeepsDistinct(rows: seq<Row>, n: nat)
    requires Distinct(Ids(rows))
    ensures Distinct(Ids(Limit(rows, n))) && |Ids(Limit(rows, n))| <= n
  {
    forall i, j | 0 <= i < j < |Limit(rows, n)| ensures Ids(Limit(rows, n))[i] != Ids(Limit(rows, n))[j] {
      assert Ids(rows)[i] != Ids(rows)[j];
    }
  }

  lemma SharedResultsComeFirst(vector: seq<Row>, fulltext: seq<Row>, n: int, k: int, i: int, j: int)
    requires k > 0 && CandidatePool(n) < k + 2 && Distinct(Ids(vector)) && Distinct(Ids(fulltext))
    requires SharedAndSingle(vector, fulltext, n, k, i, j)
    ensures i < j
  {
    var v, f := Limit(vector, CandidatePool(n)), Limit(fulltext, CandidatePool(n));
    LimitKeepsDistinct(vector, CandidatePool(n));
    LimitKeepsDistinct(fulltext, CandidatePool(n));
    assert IsChunkFor(v, f, Top(vector, fulltext, n, k)[i], Search(vector, fulltext, n, k)[i]);
    assert IsChunkFor(v, f, Top(vector, fulltext, n, k)[j], Search(vector, fulltext, n, k)[j]);
    SharedBeatsSingle(k, CandidatePool(n), Ids(v), Ids(f), i, j);
  }

  lemma FirstTermIsLargest(k: int, r: int)
    requires k > 0 && r > 1
    ensures Term(k, r) < Term(k, 1)
  {
    SmallerReciprocal((k + 1) as real, (k + r) as real);
  }

  lemma SmallerReciprocal(x: real, y: real)
    requires 0.0 < x < y
    ensures 1.0 / y < 1.0 / x
  {
  }

  lemma TwoHalves(k: int)
    requires k > 0
    ensures Term(k, k + 2) + Term(k, k + 2) == Term(k, 1)
  {
    Halves((k + 1) as real);
    assert (k + (k + 2)) as real == 2.0 * (k + 1) as real;
  }

  lemma Halves(x: real)
    requires x > 0.0
    ensures 1.0 / (2.0 * x) + 1.0 / (2.0 * x) == 1.0 / x
  {
  }

  /** Two rankings of distinct ids, k + 2 long, sharing their last id and no other. */
  ghost predicate ShareTheLast(k: int, a: seq<int>, b: seq<int>)
    requires k > 0
  {
    && |a| == |b| == k + 2 && Distinct(a) && Distinct(b) && a[k + 1] == b[k + 1]
    && (forall z :: z in a && z in b ==> z == a[k + 1])
  }

  /**
   An id that is found once scores at most what the shared last id does, and as much only at the head of a ranking.
   */
  lemma OnlyHeadsTie(k: int, a: seq<int>, b: seq<int>, z: int)
    requires k > 0 && ShareTheLast(k, a, b) && z != a[k + 1]
    ensures Score(k, [a, b], a[k + 1]) == Term(k, 1) && Score(k, [a, b], z) <= Term(k, 1)
    ensures Score(k, [a, b], a[0]) == Term(k, 1)
    ensures Score(k, [a, b], z) == Term(k, 1) ==> z == a[0] || z == b[0]
  {
    ScoreByPlaces(k, a, b, a[k + 1]);
    ScoreByPlaces(k, a, b, a[0]);
    ScoreByPlaces(k, a, b, z);
    TwoHalves(k);
    SingleScoresAtMost(k, a, b, z);
    var place := if z in a then FirstAt(a, z) else FirstAt(b, z);
    if place > 0 {
      FirstTermIsLargest(k, place + 1);
    }
  }

  lemma FirstAtInJoined(a: seq<int>, b: seq<int>, id: int)
    ensures id in a ==> FirstAt(a + b, id) == FirstAt(a, id)
    ensures id !in a && id in b ==> FirstAt(a + b, id) >= |a|
  {
    var p, q := FirstAt(a, id), FirstAt(a + b, id);
    assert p < |a| ==> (a + b)[p] == a[p];
    assert q < |a| ==> (a + b)[q] == a[q];
    assert id in b ==> id in a + b;
  }

  /** Only the head of the first ranking goes ahead of the shared id. */
  lemma OnlyTheHeadIsAhead(k: int, a: seq<int>, b: seq<int>, m: int, i: int)
    requires k > 0 && ShareTheLast(k, a, b)
    requires 0 <= m < i < |Fused(k, [a, b])| && Fused(k, [a, b])[i].id == a[k + 1]
    ensures Fused(k, [a, b])[m].id == a[0]
  {
    var out := Fused(k, [a, b]);
    var z := out[m].id;
    FusionMeaning(k, [a, b]);
    FusedIdsAreDistinct(k, [a, b], m, i);
    PlacesFollowScores(k, [a, b], m, i);
    assert out[m] in out && out[i] in out;
    OnlyHeadsTie(k, a, b, z);
    ScoreOfTwo(k, a, b, z);
    FirstAtInJoined(a, b, z);
    FirstAtInJoined(a, b, a[k + 1]);
  }

  /** So that id comes second. */
  lemma SharedComesSecond(k: int, a: seq<int>, b: seq<int>)
    requires k > 0 && ShareTheLast(k, a, b)
    ensures var out := Fused(k, [a, b]); |out| >= 2 && out[0].id == a[0] && out[1].id == a[k + 1]
  {
    var x, y, out := a[k + 1], a[0], Fused(k, [a, b]);
    ScoreOfTwo(k, a, b, x);
    ScoreOfTwo(k, a, b, y);
    var i := PlaceOf(k, [a, b], x);
    var j := PlaceOf(k, [a, b], y);
    OnlyHeadsTie(k, a, b, y);
    FirstAtInJoined(a, b, x);
    FirstAtInJoined(a, b, y);
    PlacesFollowScores(k, [a, b], j, i);
    OnlyTheHeadIsAhead(k, a, b, 0, i);
    if i > 1 {
      OnlyTheHeadIsAhead(k, a, b, 1, i);
      FusedIdsAreDistinct(k, [a, b], 0, 1);
    }
  }

  function RowsOf(ids: seq<int>): (rows: seq<Row>)
    ensures Ids(rows) == ids
  {
    seq(|ids|, i requires 0 <= i < |ids| => Row(ids[i], "", ""))
  }

  /**
   The failing family: as soon as the pool reaches rank k + 2, a head can go before a chunk both rankers found there.
   */
  lemma HeadGoesBeforeShared(n: int, k: int)
    requires k > 0 && n >= 2 && CandidatePool(n) >= k + 2
    ensures !AgreementComesFirst(n, k)
  {
    var a, b := RankingsSharingTheLast(k + 2);
    var vector, fulltext := RowsOf(a), RowsOf(b);
    SharedComesSecond(k, a, b);
    assert Limit(vector, CandidatePool(n)) == vector && Limit(fulltext, CandidatePool(n)) == fulltext;
    var chunks := Search(vector, fulltext, n, k);
    assert IsChunkFor(vector, fulltext, Top(vector, fulltext, n, k)[0], chunks[0]);
    assert IsChunkFor(vector, fulltext, Top(vector, fulltext, n, k)[1], chunks[1]);
    assert SharedAndSingle(vector, fulltext, n, k, 1, 0);
  }

  /** For two or more results, agreement decides in what a search returns exactly while the pool stays below k + 2. */
  lemma SearchAgreesExactlyWhen(n: int, k: int)
    requires k > 0 && n >= 2
    ensures AgreementComesFirst(n, k) <==> CandidatePool(n) < k + 2
  {
    if CandidatePool(n) < k + 2 {
      forall vector, fulltext, i, j |
        Distinct(Ids(vector)) && Distinct(Ids(fulltext)) && SharedAndSingle(vector, fulltext, n, k, i, j)
        ensures i < j
      {
        SharedResultsComeFirst(vector, fulltext, n, k, i, j);
      }
    } else {
      HeadGoesBeforeShared(n, k);
    }
  }

  /** With the default constant 60 that holds for result sizes up to 15 and for none above. */
  lemma DefaultConstantCovers(n: int)
    ensures AgreementComesFirst(n, 60) <==> n <= 15
  {
    if n >= 2 {
      SearchAgreesExactlyWhen(n, 60);
    } else {
      forall vector, fulltext, i, j |
        Distinct(Ids(vector)) && Distinct(Ids(fulltext)) && SharedAndSingle(vector, fulltext, n, 60, i, j)
        ensures i < j
      {
        SharedResultsComeFirst(vector, fulltext, n, 60, i, j);
      }
    }
  }
}
