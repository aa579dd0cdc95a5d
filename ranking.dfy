/**
 * The recommendation rule shared by both programs: score every restaurant of
 * the corpus the user has not rated, order by score with a stable descending
 * sort (`OrderByDescending`) and keep the first k (`Take`).
 */
module Ranking {
  import opened Sequences

  datatype ScoredRestaurant = ScoredRestaurant(restaurantName: string, predictedRating: real)

  /** The predictor: the score of a (user id, restaurant name) pair. */
  type Predictor = (string, string) -> real

  function Names(s: seq<ScoredRestaurant>): seq<string>
  {
    seq(|s|, i requires 0 <= i < |s| => s[i].restaurantName)
  }

  /** Each name paired with its predicted score for the user, in order. */
  function ScoreAll(names: seq<string>, user: string, predict: Predictor): (scored: seq<ScoredRestaurant>)
    ensures Names(scored) == names
  {
    seq(|names|, i requires 0 <= i < |names| => ScoredRestaurant(names[i], predict(user, names[i])))
  }

  /** The scored entries are exactly the names paired with their own scores. */
  lemma ScoredNames(names: seq<string>, user: string, predict: Predictor)
    ensures forall e: ScoredRestaurant :: e in ScoreAll(names, user, predict) <==>
      e.restaurantName in names && e.predictedRating == predict(user, e.restaurantName)
  {
    var scored := ScoreAll(names, user, predict);
    forall e: ScoredRestaurant | e.restaurantName in names && e.predictedRating == predict(user, e.restaurantName)
      ensures e in scored
    {
      var i :| 0 <= i < |names| && names[i] == e.restaurantName;
      assert scored[i] == e;
    }
  }

  predicate SortedDescending(s: seq<ScoredRestaurant>)
  {
    forall i, j :: 0 <= i < j < |s| ==> s[i].predictedRating >= s[j].predictedRating
  }

  /** Equal scores appear in increasing `rank`. */
  predicate TiesOrderedBy(s: seq<ScoredRestaurant>, rank: ScoredRestaurant -> int)
  {
    forall i, j :: 0 <= i < j < |s| && s[i].predictedRating == s[j].predictedRating ==> rank(s[i]) < rank(s[j])
  }

  /** Where a stable descending insertion puts `x`: after every entry scoring at least as much. */
  function InsertionPoint(t: seq<ScoredRestaurant>, x: ScoredRestaurant): (p: nat)
    ensures p <= |t|
    ensures forall i :: 0 <= i < p ==> t[i].predictedRating >= x.predictedRating
    ensures p < |t| ==> t[p].predictedRating < x.predictedRating
  {
    if t == [] || t[0].predictedRating < x.predictedRating then 0
    else 1 + InsertionPoint(t[1..], x)
  }

  function Insert(t: seq<ScoredRestaurant>, x: ScoredRestaurant): (r: seq<ScoredRestaurant>)
    requires SortedDescending(t)
    ensures SortedDescending(r)
    ensures multiset(r) == multiset(t) + multiset{x}
  {
    var p := InsertionPoint(t, x);
    assert t == t[..p] + t[p..];
    InsertionKeepsSorted(t, x);
    t[..p] + [x] + t[p..]
  }

  lemma InsertionKeepsSorted(t: seq<ScoredRestaurant>, x: ScoredRestaurant)
    requires SortedDescending(t)
    ensures var p := InsertionPoint(t, x); SortedDescending(t[..p] + [x] + t[p..])
  {
    var p := InsertionPoint(t, x);
    var r := t[..p] + [x] + t[p..];
    InsertedAt(t, p, x);
    forall i, j | 0 <= i < j < |r|
      ensures r[i].predictedRating >= r[j].predictedRating
    {
      if i == p {
        assert t[j - 1].predictedRating <= t[p].predictedRating;
      }
    }
  }

  /** Where the entries of `t` land once `x` is put at position `p`. */
  lemma InsertedAt(t: seq<ScoredRestaurant>, p: nat, x: ScoredRestaurant)
    requires p <= |t|
    ensures var r := t[..p] + [x] + t[p..];
      && |r| == |t| + 1 && r[p] == x
      && (forall i :: 0 <= i < p ==> r[i] == t[i])
      && (forall i :: p < i < |r| ==> r[i] == t[i - 1])
  {
  }

  /**
   * The descending ordering by predicted rating: a permutation of `s`,
   * sorted by non-increasing score. Later entries are inserted after earlier ones of
   * equal score, so the sort is stable (`OrderByDescendingIsStable`).
   */
  function OrderByDescending(s: seq<ScoredRestaurant>): (r: seq<ScoredRestaurant>)
    ensures SortedDescending(r)
    ensures multiset(r) == multiset(s)
  {
    if s == [] then []
    else
      assert s == s[..|s| - 1] + [s[|s| - 1]];
      Insert(OrderByDescending(s[..|s| - 1]), s[|s| - 1])
  }

  /** The first k entries, or all of them when there are fewer. */
  function Take(s: seq<ScoredRestaurant>, k: nat): (r: seq<ScoredRestaurant>)
    ensures |r| <= k && |r| <= |s| && r == s[..|r|]
    ensures |s| <= k ==> r == s
    ensures |s| > k ==> |r| == k
  {
    s[..if k < |s| then k else |s|]
  }

  lemma InsertKeepsTieOrder(t: seq<ScoredRestaurant>, x: ScoredRestaurant, rank: ScoredRestaurant -> int)
    requires SortedDescending(t) && TiesOrderedBy(t, rank)
    requires forall y :: y in t ==> rank(y) < rank(x)
    ensures TiesOrderedBy(Insert(t, x), rank)
  {
    var p := InsertionPoint(t, x);
    var r := Insert(t, x);
    assert r == t[..p] + [x] + t[p..];
    InsertedAt(t, p, x);
    forall i, j | 0 <= i < j < |r| && r[i].predictedRating == r[j].predictedRating
      ensures rank(r[i]) < rank(r[j])
    {
      if j < p {
        assert r[i] == t[i] && r[j] == t[j];
      } else if j == p {
        assert r[i] == t[i] && t[i] in t;
      } else if i < p {
        assert r[i] == t[i] && r[j] == t[j - 1];
      } else if p < i {
        assert r[i] == t[i - 1] && r[j] == t[j - 1];
      }
    }
  }

  /** The sort is stable: entries of equal score keep their input order. */
  lemma {:induction false} OrderByDescendingIsStable(s: seq<ScoredRestaurant>, rank: ScoredRestaurant -> int)
    requires IncreasingBy(s, rank)
    ensures TiesOrderedBy(OrderByDescending(s), rank)
  {
    if s != [] {
      var init, last := s[..|s| - 1], s[|s| - 1];
      OrderByDescendingIsStable(init, rank);
      var t := OrderByDescending(init);
      forall y | y in t
        ensures rank(y) < rank(last)
      {
        assert y in multiset(t);
        assert y in init;
        var k :| 0 <= k < |init| && init[k] == y;
        assert s[k] == y;
      }
      InsertKeepsTieOrder(t, last, rank);
    }
  }

  /** The restaurant names of the corpus that are not among the rated ones. */
  function UnratedNames(corpusNames: seq<string>, ratedNames: seq<string>): set<string>
  {
    set n | n in corpusNames && n !in ratedNames
  }

  /**
   * The distinct corpus names minus the distinct rated names: the
   * restaurants left to recommend, in order of first appearance.
   */
  function Candidates(corpusNames: seq<string>, ratedNames: seq<string>): (candidates: seq<string>)
    ensures forall n :: n in candidates <==> n in corpusNames && n !in ratedNames
  {
    Without(Distinct(corpusNames), Distinct(ratedNames))
  }

  /**
   * The top-k rule: score the candidates, order them by descending score and
   * keep the first k.
   */
  function Recommend(corpusNames: seq<string>, ratedNames: seq<string>, user: string, predict: Predictor, k: nat)
    : (top: seq<ScoredRestaurant>)
    ensures |top| <= k
    ensures SortedDescending(top)
  {
    Take(OrderByDescending(ScoreAll(Candidates(corpusNames, ratedNames), user, predict)), k)
  }

  /**
   * The candidates are exactly the unrated names of the corpus, each once, in
   * order of first appearance in the corpus.
   */
  lemma CandidatesAreUnratedNames(corpusNames: seq<string>, ratedNames: seq<string>)
    ensures forall n :: n in Candidates(corpusNames, ratedNames) <==> n in corpusNames && n !in ratedNames
    ensures IncreasingBy(Candidates(corpusNames, ratedNames), n => FirstIndex(corpusNames, n))
    ensures NoDuplicates(Candidates(corpusNames, ratedNames))
    ensures |Candidates(corpusNames, ratedNames)| == |UnratedNames(corpusNames, ratedNames)|
  {
    var c := Candidates(corpusNames, ratedNames);
    var rank := n => FirstIndex(corpusNames, n);
    DistinctInFirstOccurrenceOrder(corpusNames);
    WithoutKeepsOrder(Distinct(corpusNames), Distinct(ratedNames), rank);
    IncreasingHasNoDuplicates(c, rank);
    CountElements(c);
    assert Elements(c) == UnratedNames(corpusNames, ratedNames);
  }

  /** With no rating by the user, every distinct restaurant is a candidate. */
  lemma NoRatingsMeansAllCandidates(corpusNames: seq<string>)
    ensures Candidates(corpusNames, []) == Distinct(corpusNames)
  {
    WithoutNothing(Distinct(corpusNames));
  }

  /** The sorted scores hold each candidate once, paired with its own score. */
  lemma SortedScoresAreCandidates(candidates: seq<string>, user: string, predict: Predictor)
    ensures var sorted := OrderByDescending(ScoreAll(candidates, user, predict));
      && |sorted| == |candidates|
      && forall e :: e in sorted <==> e.restaurantName in candidates && e.predictedRating == predict(user, e.restaurantName)
  {
    var scored := ScoreAll(candidates, user, predict);
    var sorted := OrderByDescending(scored);
    assert |sorted| == |multiset(sorted)| == |multiset(scored)| == |scored|;
    ScoredNames(candidates, user, predict);
    forall e
      ensures e in sorted <==> e in scored
    {
      assert e in sorted <==> e in multiset(sorted);
      assert e in scored <==> e in multiset(scored);
    }
  }

  /**
   * Every recommendation is a corpus restaurant the user has not rated,
   * paired with the predictor's score for the user and that restaurant.
   */
  lemma RecommendedAreUnratedCorpusNames(corpusNames: seq<string>, ratedNames: seq<string>, user: string, predict: Predictor, k: nat)
    ensures forall e :: e in Recommend(corpusNames, ratedNames, user, predict, k) ==>
      && e.restaurantName in corpusNames
      && e.restaurantName !in ratedNames
      && e.predictedRating == predict(user, e.restaurantName)
  {
    var candidates := Candidates(corpusNames, ratedNames);
    CandidatesAreUnratedNames(corpusNames, ratedNames);
    SortedScoresAreCandidates(candidates, user, predict);
  }

  /** Scoring and sorting distinct names gives distinct names. */
  lemma SortedNamesAreDistinct(candidates: seq<string>, user: string, predict: Predictor)
    requires NoDuplicates(candidates)
    ensures NoDuplicates(Names(OrderByDescending(ScoreAll(candidates, user, predict))))
  {
    var names := Names(OrderByDescending(ScoreAll(candidates, user, predict)));
    SortedNamesAreCandidates(candidates, user, predict);
    assert Elements(names) == Elements(candidates);
    CountElements(candidates);
    CountElements(names);
  }

  lemma SortedNamesAreCandidates(candidates: seq<string>, user: string, predict: Predictor)
    ensures var sorted := OrderByDescending(ScoreAll(candidates, user, predict));
      |Names(sorted)| == |candidates| && forall n :: n in Names(sorted) <==> n in candidates
  {
    var sorted := OrderByDescending(ScoreAll(candidates, user, predict));
    var names := Names(sorted);
    SortedScoresAreCandidates(candidates, user, predict);
    forall n | n in candidates
      ensures n in names
    {
      NameOfEntry(sorted, ScoredRestaurant(n, predict(user, n)));
    }
    forall n | n in names
      ensures n in candidates
    {
      var i :| 0 <= i < |names| && names[i] == n;
      assert sorted[i] in sorted;
    }
  }


  /** No restaurant is recommended twice. */
  lemma RecommendedAreDistinct(corpusNames: seq<string>, ratedNames: seq<string>, user: string, predict: Predictor, k: nat)
    ensures NoDuplicates(Names(Recommend(corpusNames, ratedNames, user, predict, k)))
  {
    var candidates := Candidates(corpusNames, ratedNames);
    var sorted := OrderByDescending(ScoreAll(candidates, user, predict));
    var top := Recommend(corpusNames, ratedNames, user, predict, k);
    CandidatesAreUnratedNames(corpusNames, ratedNames);
    SortedNamesAreDistinct(candidates, user, predict);
    forall i, j | 0 <= i < j < |top|
      ensures Names(top)[i] != Names(top)[j]
    {
      assert Names(top)[i] == Names(sorted)[i] && Names(top)[j] == Names(sorted)[j];
    }
  }

  /**
   * k recommendations, or every unrated restaurant when there are fewer
   * than k of them.
   */
  lemma RecommendedCount(corpusNames: seq<string>, ratedNames: seq<string>, user: string, predict: Predictor, k: nat)
    ensures var unrated := |UnratedNames(corpusNames, ratedNames)|;
      |Recommend(corpusNames, ratedNames, user, predict, k)| == if k < unrated then k else unrated
  {
    CandidatesAreUnratedNames(corpusNames, ratedNames);
    SortedScoresAreCandidates(Candidates(corpusNames, ratedNames), user, predict);
  }

  /** When at most k restaurants are unrated, every one of them is recommended. */
  lemma RecommendedAllWhenFew(corpusNames: seq<string>, ratedNames: seq<string>, user: string, predict: Predictor, k: nat)
    requires |UnratedNames(corpusNames, ratedNames)| <= k
    ensures forall n :: n in corpusNames && n !in ratedNames ==> n in Names(Recommend(corpusNames, ratedNames, user, predict, k))
  {
    var candidates := Candidates(corpusNames, ratedNames);
    var scored := ScoreAll(candidates, user, predict);
    var sorted := OrderByDescending(scored);
    CandidatesAreUnratedNames(corpusNames, ratedNames);
    SortedScoresAreCandidates(candidates, user, predict);
    assert Recommend(corpusNames, ratedNames, user, predict, k) == sorted;
    forall n | n in candidates
      ensures n in Names(sorted)
    {
      var e := ScoredRestaurant(n, predict(user, n));
      assert e in multiset(scored);
      NameOfEntry(sorted, e);
    }
  }

  lemma NameOfEntry(s: seq<ScoredRestaurant>, e: ScoredRestaurant)
    requires e in s
    ensures e.restaurantName in Names(s)
  {
    var i :| 0 <= i < |s| && s[i] == e;
    assert Names(s)[i] == e.restaurantName;
  }

  /** In a sorted sequence, an entry whose name is not in a prefix scores no higher than the prefix. */
  lemma LeftOutScoresNoHigher(sorted: seq<ScoredRestaurant>, m: nat, e: ScoredRestaurant)
    requires SortedDescending(sorted) && m <= |sorted|
    requires e in sorted && e.restaurantName !in Names(sorted[..m])
    ensures forall i :: 0 <= i < m ==> e.predictedRating <= sorted[i].predictedRating
  {
    var names := Names(sorted[..m]);
    assert forall i :: 0 <= i < m ==> names[i] in names && names[i] == sorted[i].restaurantName;
    var j :| 0 <= j < |sorted| && sorted[j] == e;
    assert m <= j;
  }

  /**
   * Top-k optimality: an unrated restaurant left out of the recommendations
   * scores no higher than any recommended one.
   */
  lemma RecommendedAreTopK(corpusNames: seq<string>, ratedNames: seq<string>, user: string, predict: Predictor, k: nat)
    ensures var top := Recommend(corpusNames, ratedNames, user, predict, k);
      forall n, i :: n in corpusNames && n !in ratedNames && n !in Names(top) && 0 <= i < |top| ==>
        predict(user, n) <= top[i].predictedRating
  {
    var candidates := Candidates(corpusNames, ratedNames);
    var sorted := OrderByDescending(ScoreAll(candidates, user, predict));
    var top := Recommend(corpusNames, ratedNames, user, predict, k);
    SortedScoresAreCandidates(candidates, user, predict);
    assert top == sorted[..|top|];
    forall n, i | n in corpusNames && n !in ratedNames && n !in Names(top) && 0 <= i < |top|
      ensures predict(user, n) <= top[i].predictedRating
    {
      var e := ScoredRestaurant(n, predict(user, n));
      assert e in sorted;
      LeftOutScoresNoHigher(sorted, |top|, e);
      assert top[i] == sorted[i];
    }
  }

  /** The position at which an entry's restaurant first appears in the corpus. */
  function CorpusRank(corpusNames: seq<string>): ScoredRestaurant -> int
  {
    (e: ScoredRestaurant) => FirstIndex(corpusNames, e.restaurantName)
  }

  /** The stable sort keeps the candidates' first-appearance order among equal scores. */
  lemma SortedTiesInCorpusOrder(corpusNames: seq<string>, ratedNames: seq<string>, user: string, predict: Predictor)
    ensures TiesOrderedBy(OrderByDescending(ScoreAll(Candidates(corpusNames, ratedNames), user, predict)), CorpusRank(corpusNames))
  {
    var candidates := Candidates(corpusNames, ratedNames);
    var scored := ScoreAll(candidates, user, predict);
    var rank := CorpusRank(corpusNames);
    CandidatesAreUnratedNames(corpusNames, ratedNames);
    assert IncreasingBy(scored, rank) by {
      forall i, j | 0 <= i < j < |scored|
        ensures rank(scored[i]) < rank(scored[j])
      {
        assert scored[i].restaurantName == candidates[i] && scored[j].restaurantName == candidates[j];
      }
    }
    OrderByDescendingIsStable(scored, rank);
  }

  /**
   * Recommendations of equal score appear in the order in which their
   * restaurants first appear in the corpus.
   */
  lemma RecommendedTiesInCorpusOrder(corpusNames: seq<string>, ratedNames: seq<string>, user: string, predict: Predictor, k: nat)
    ensures var top := Recommend(corpusNames, ratedNames, user, predict, k);
      forall i, j :: 0 <= i < j < |top| && top[i].predictedRating == top[j].predictedRating ==>
        FirstIndex(corpusNames, top[i].restaurantName) < FirstIndex(corpusNames, top[j].restaurantName)
  {
    var sorted := OrderByDescending(ScoreAll(Candidates(corpusNames, ratedNames), user, predict));
    var top := Recommend(corpusNames, ratedNames, user, predict, k);
    var rank := CorpusRank(corpusNames);
    SortedTiesInCorpusOrder(corpusNames, ratedNames, user, predict);
    assert top == sorted[..|top|];
    forall i, j | 0 <= i < j < |top| && top[i].predictedRating == top[j].predictedRating
      ensures FirstIndex(corpusNames, top[i].restaurantName) < FirstIndex(corpusNames, top[j].restaurantName)
    {
      assert top[i] == sorted[i] && top[j] == sorted[j];
      assert rank(sorted[i]) < rank(sorted[j]);
    }
  }

  /**
   * Ties across the cut keep corpus order too: an unrated restaurant left out
   * with the same score as a recommended one first appears after it.
   */
  lemma LeftOutTiesComeLater(corpusNames: seq<string>, ratedNames: seq<string>, user: string, predict: Predictor, k: nat)
    ensures var top := Recommend(corpusNames, ratedNames, user, predict, k);
      forall n, i ::
        n in corpusNames && n !in ratedNames && n !in Names(top) && 0 <= i < |top| && predict(user, n) == top[i].predictedRating
        ==> FirstIndex(corpusNames, top[i].restaurantName) < FirstIndex(corpusNames, n)
  {
    var candidates := Candidates(corpusNames, ratedNames);
    var sorted := OrderByDescending(ScoreAll(candidates, user, predict));
    var top := Recommend(corpusNames, ratedNames, user, predict, k);
    var rank := CorpusRank(corpusNames);
    SortedTiesInCorpusOrder(corpusNames, ratedNames, user, predict);
    SortedScoresAreCandidates(candidates, user, predict);
    assert top == sorted[..|top|];
    forall n, i |
      n in corpusNames && n !in ratedNames && n !in Names(top) && 0 <= i < |top| && predict(user, n) == top[i].predictedRating
      ensures FirstIndex(corpusNames, top[i].restaurantName) < FirstIndex(corpusNames, n)
    {
      var e := ScoredRestaurant(n, predict(user, n));
      assert e in sorted;
      LeftOutFollowsTies(sorted, |top|, e, rank);
      assert top[i] == sorted[i];
      assert rank(sorted[i]) < rank(e);
    }
  }

  /** In a sorted sequence whose ties follow `rank`, an entry left out of a prefix ranks after its ties in the prefix. */
  lemma LeftOutFollowsTies(sorted: seq<ScoredRestaurant>, m: nat, e: ScoredRestaurant, rank: ScoredRestaurant -> int)
    requires TiesOrderedBy(sorted, rank) && m <= |sorted|
    requires e in sorted && e.restaurantName !in Names(sorted[..m])
    ensures forall i :: 0 <= i < m && sorted[i].predictedRating == e.predictedRating ==> rank(sorted[i]) < rank(e)
  {
    var names := Names(sorted[..m]);
    assert forall i :: 0 <= i < m ==> names[i] in names && names[i] == sorted[i].restaurantName;
    var j :| 0 <= j < |sorted| && sorted[j] == e;
    assert m <= j;
  }
}
