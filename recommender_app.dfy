/**
 * The console application: load the training file, then recommend the k
 * best-scoring restaurants the target user has not rated, scored by the
 * persisted model's predictor.
 */
module RecommenderApp {
  import opened Results
  import opened TrainData
  import opened Sequences
  import opened Ranking

  /** Line `i` throws `e` and every line from `start` up to it parses. */
  predicate FirstFailure<R>(lines: seq<string>, parse: string -> Result<R>, start: nat, i: nat, e: Exception)
    requires start <= i < |lines|
  {
    parse(lines[i]) == Err(e) && forall j :: start <= j < i ==> parse(lines[j]).Ok?
  }

  /**
   * `Select(parse).ToList()`: every line parsed, in order; the first line
   * that throws ends the load with its exception.
   */
  function ParseLines<R>(lines: seq<string>, parse: string -> Result<R>): (r: Result<seq<R>>)
    ensures r.Ok? <==> forall i :: 0 <= i < |lines| ==> parse(lines[i]).Ok?
    ensures r.Ok? ==> |r.value| == |lines| && forall i :: 0 <= i < |lines| ==> Ok(r.value[i]) == parse(lines[i])
    ensures r.Err? ==> exists i :: 0 <= i < |lines| && FirstFailure(lines, parse, 0, i, r.error)
  {
    if lines == [] then Ok([])
    else
      match parse(lines[0])
      case Err(e) =>
        assert FirstFailure(lines, parse, 0, 0, e);
        Err(e)
      case Ok(v) =>
        match ParseLines(lines[1..], parse)
        case Err(e) =>
          var i :| 0 <= i < |lines| - 1 && FirstFailure(lines[1..], parse, 0, i, e);
          assert FirstFailure(lines, parse, 0, i + 1, e);
          Err(e)
        case Ok(vs) => Ok([v] + vs)
  }

  /**
   * The loader: the lines of the training file after the header, parsed
   * line by line with `FromCsv`. The header line is never parsed; every other
   * line gives one record, in file order, or the load fails with the first
   * failing line's exception.
   */
  function LoadTrainingData(fileLines: seq<string>): (r: Result<seq<TrainDataValue>>)
    ensures r.Ok? <==> forall i :: 1 <= i < |fileLines| ==> FromCsv(fileLines[i]).Ok?
    ensures r.Ok? ==> |r.value| == (if fileLines == [] then 0 else |fileLines| - 1)
    ensures r.Ok? ==> forall i :: 0 <= i < |r.value| ==> Ok(r.value[i]) == FromCsv(fileLines[i + 1])
    ensures r.Err? ==> exists i :: 1 <= i < |fileLines| && FirstFailure(fileLines, FromCsv, 1, i, r.error)
  {
    var body := if fileLines == [] then [] else fileLines[1..];
    assert forall i :: 1 <= i < |fileLines| ==> body[i - 1] == fileLines[i];
    var r := ParseLines(body, FromCsv);
    if r.Err? then
      var i :| 0 <= i < |body| && FirstFailure(body, FromCsv, 0, i, r.error);
      assert FirstFailure(fileLines, FromCsv, 1, i + 1, r.error);
      r
    else
    r
  }

  /** The restaurant names of the user's records, in record order, repeats kept. */
  function RatedBy(data: seq<TrainDataValue>, user: string): (names: seq<string>)
    ensures forall n :: n in names <==> HasRated(data, user, n)
  {
    if data == [] then []
    else
      var rest := RatedBy(data[1..], user);
      assert forall i :: 1 <= i < |data| ==> data[1..][i - 1] == data[i];
      assert HasRated(data[1..], user, data[0].restaurantName) ==> HasRated(data, user, data[0].restaurantName);
      (if data[0].userId == user then [data[0].restaurantName] else []) + rest
  }

  /** Some record of the user names restaurant `n`. */
  predicate HasRated(data: seq<TrainDataValue>, user: string, n: string)
  {
    exists i :: 0 <= i < |data| && data[i].userId == user && data[i].restaurantName == n
  }

  /** The restaurant name of every record, in record order. */
  function RestaurantNames(data: seq<TrainDataValue>): (names: seq<string>)
    ensures |names| == |data|
    ensures forall n :: n in names <==> exists v :: v in data && v.restaurantName == n
  {
    var names := seq(|data|, i requires 0 <= i < |data| => data[i].restaurantName);
    assert forall v :: v in data ==> v.restaurantName in names by {
      forall v | v in data
        ensures v.restaurantName in names
      {
        var i :| 0 <= i < |data| && data[i] == v;
        assert names[i] == v.restaurantName;
      }
    }
    names
  }

  /** The restaurants of the corpus the user has not rated. */
  function UnratedRestaurants(data: seq<TrainDataValue>, user: string): set<string>
  {
    set v | v in data && !HasRated(data, user, v.restaurantName) :: v.restaurantName
  }

  /** The k best-scoring restaurants `user` has not rated, best first. */
  function TopRestaurants(data: seq<TrainDataValue>, user: string, predict: Predictor, k: nat): (top: seq<ScoredRestaurant>)
    ensures |top| <= k
    ensures SortedDescending(top)
  {
    Recommend(RestaurantNames(data), RatedBy(data, user), user, predict, k)
  }

  /** The unrated restaurants are the names of the corpus the user's records do not name. */
  lemma NamesOfRecords(data: seq<TrainDataValue>, user: string)
    ensures UnratedRestaurants(data, user) == UnratedNames(RestaurantNames(data), RatedBy(data, user))
  {
    var names := RestaurantNames(data);
    forall n | n in names
      ensures exists v :: v in data && v.restaurantName == n
    {
      var i :| 0 <= i < |names| && names[i] == n;
      assert data[i] in data;
    }
  }

  /**
   * Every recommendation names a restaurant of some record, one that no
   * record of the user names, with the predictor's score for the user and
   * that restaurant.
   */
  lemma RecommendationsAreUnratedRestaurants(data: seq<TrainDataValue>, user: string, predict: Predictor, k: nat)
    ensures forall e :: e in TopRestaurants(data, user, predict, k) ==>
      && (exists v :: v in data && v.restaurantName == e.restaurantName)
      && (forall v :: v in data && v.userId == user ==> v.restaurantName != e.restaurantName)
      && e.predictedRating == predict(user, e.restaurantName)
  {
    NamesOfRecords(data, user);
    RecommendedAreUnratedCorpusNames(RestaurantNames(data), RatedBy(data, user), user, predict, k);
    forall e, v | e in TopRestaurants(data, user, predict, k) && v in data && v.userId == user
      ensures v.restaurantName != e.restaurantName
    {
      var i :| 0 <= i < |data| && data[i] == v;
      assert HasRated(data, user, v.restaurantName);
    }
  }

  /**
   * The recommendations are distinct, sorted best first, number
   * min(k, unrated restaurants), and beat every unrated restaurant left out.
   */
  lemma RecommendationsAreTopK(data: seq<TrainDataValue>, user: string, predict: Predictor, k: nat)
    ensures var top := TopRestaurants(data, user, predict, k);
      && NoDuplicates(Names(top))
      && SortedDescending(top)
      && |top| == (if k < |UnratedRestaurants(data, user)| then k else |UnratedRestaurants(data, user)|)
      && forall n, i :: n in UnratedRestaurants(data, user) && n !in Names(top) && 0 <= i < |top| ==>
           predict(user, n) <= top[i].predictedRating
  {
    var corpus, rated := RestaurantNames(data), RatedBy(data, user);
    NamesOfRecords(data, user);
    RecommendedAreDistinct(corpus, rated, user, predict, k);
    RecommendedCount(corpus, rated, user, predict, k);
    RecommendedAreTopK(corpus, rated, user, predict, k);
  }

  /** With at most k unrated restaurants, every one of them is recommended. */
  lemma RecommendationsCoverFewCandidates(data: seq<TrainDataValue>, user: string, predict: Predictor, k: nat)
    requires |UnratedRestaurants(data, user)| <= k
    ensures forall n :: n in UnratedRestaurants(data, user) ==> n in Names(TopRestaurants(data, user, predict, k))
  {
    NamesOfRecords(data, user);
    RecommendedAllWhenFew(RestaurantNames(data), RatedBy(data, user), user, predict, k);
  }

  /**
   * Recommendations of equal score appear in the order their restaurants
   * first occur in the file, and an unrated restaurant left out with the
   * score of a recommended one first occurs after it.
   */
  lemma RecommendationsKeepFileOrderOnTies(data: seq<TrainDataValue>, user: string, predict: Predictor, k: nat)
    ensures var top := TopRestaurants(data, user, predict, k);
      forall i, j :: 0 <= i < j < |top| && top[i].predictedRating == top[j].predictedRating ==>
        FirstIndex(RestaurantNames(data), top[i].restaurantName) < FirstIndex(RestaurantNames(data), top[j].restaurantName)
    ensures var top := TopRestaurants(data, user, predict, k);
      forall n, i ::
        n in UnratedRestaurants(data, user) && n !in Names(top) && 0 <= i < |top| && predict(user, n) == top[i].predictedRating
        ==> FirstIndex(RestaurantNames(data), top[i].restaurantName) < FirstIndex(RestaurantNames(data), n)
  {
    NamesOfRecords(data, user);
    RecommendedTiesInCorpusOrder(RestaurantNames(data), RatedBy(data, user), user, predict, k);
    LeftOutTiesComeLater(RestaurantNames(data), RatedBy(data, user), user, predict, k);
  }

  /** User U1 rated A and B; user U2 rated A and C. */
  const EXAMPLE_DATA: seq<TrainDataValue> := [
    TrainDataValue("U1", "A", 5), TrainDataValue("U1", "B", 3),
    TrainDataValue("U2", "A", 4), TrainDataValue("U2", "C", 2)]

  lemma ExampleDistinctRated()
    ensures Distinct(["A", "B"]) == ["A", "B"]
  {
    DistinctAppend([], "A");
    assert [] + ["A"] == ["A"];
    DistinctAppend(["A"], "B");
    assert ["A"] + ["B"] == ["A", "B"];
  }

  lemma ExampleDistinctNames()
    ensures Distinct(["A", "B", "A", "C"]) == ["A", "B", "C"]
  {
    var aba := ["A", "B", "A"];
    ExampleRepeatDropped();
    DistinctAppend(aba, "C");
    assert aba + ["C"] == ["A", "B", "A", "C"];
    assert "C" !in aba;
    assert ["A", "B"] + ["C"] == ["A", "B", "C"];
  }

  lemma ExampleRepeatDropped()
    ensures Distinct(["A", "B", "A"]) == ["A", "B"]
  {
    var ab := ["A", "B"];
    ExampleDistinctRated();
    DistinctAppend(ab, "A");
    assert ab + ["A"] == ["A", "B", "A"];
    assert "A" in ab;
  }

  lemma ExampleCandidates()
    ensures Candidates(RestaurantNames(EXAMPLE_DATA), RatedBy(EXAMPLE_DATA, "U1")) == ["C"]
  {
    ExampleColumns();
    ExampleDistinctRated();
    ExampleDistinctNames();
    ExampleWithout();
  }

  lemma ExampleColumns()
    ensures RestaurantNames(EXAMPLE_DATA) == ["A", "B", "A", "C"]
    ensures RatedBy(EXAMPLE_DATA, "U1") == ["A", "B"]
  {
  }

  lemma ExampleWithout()
    ensures Without(["A", "B", "C"], ["A", "B"]) == ["C"]
  {
    assert ["A", "B", "C"][1..] == ["B", "C"];
    assert ["B", "C"][1..] == ["C"];
    assert Without(["C"], ["A", "B"]) == ["C"];
  }

  /** Whatever the scores, U1 is recommended C alone: A and B are rated. */
  lemma SmallCorpusExample(predict: Predictor)
    ensures TopRestaurants(EXAMPLE_DATA, "U1", predict, 10) == [ScoredRestaurant("C", predict("U1", "C"))]
  {
    ExampleCandidates();
    var scored := ScoreAll(["C"], "U1", predict);
    assert |scored| == 1 && scored[0] == ScoredRestaurant("C", predict("U1", "C"));
    assert scored == [ScoredRestaurant("C", predict("U1", "C"))];
    assert OrderByDescending(scored) == scored by {
      assert scored[..0] == [];
    }
  }
}
