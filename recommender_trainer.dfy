/**
 * The training program's recommendation step: after fitting the model, it
 * recommends to the target user the k best-scoring restaurants of the
 * training view that the user has not rated, scored by the fitted model.
 */
module RecommenderTrainer {
  import opened Sequences
  import opened Ranking

  /** A row of the training view: user id, restaurant name and rating label. */
  datatype ModelInput = ModelInput(userId: string, restaurantName: string, totalRating: real)

  /** Some row of the user names restaurant `n`. */
  predicate HasRated(view: seq<ModelInput>, user: string, n: string)
  {
    exists i :: 0 <= i < |view| && view[i].userId == user && view[i].restaurantName == n
  }

  /** The restaurant names of the user's rows, in row order, repeats kept. */
  function RatedBy(view: seq<ModelInput>, user: string): (names: seq<string>)
    ensures forall n :: n in names <==> HasRated(view, user, n)
  {
    if view == [] then []
    else
      var rest := RatedBy(view[1..], user);
      assert forall i :: 1 <= i < |view| ==> view[1..][i - 1] == view[i];
      assert HasRated(view[1..], user, view[0].restaurantName) ==> HasRated(view, user, view[0].restaurantName);
      (if view[0].userId == user then [view[0].restaurantName] else []) + rest
  }

  /** The restaurant name column of the view: one entry per row, in row order. */
  function RestaurantNameColumn(view: seq<ModelInput>): (column: seq<string>)
    ensures |column| == |view|
    ensures forall n :: n in column <==> exists v :: v in view && v.restaurantName == n
  {
    var column := seq(|view|, i requires 0 <= i < |view| => view[i].restaurantName);
    assert forall v :: v in view ==> v.restaurantName in column by {
      forall v | v in view
        ensures v.restaurantName in column
      {
        var i :| 0 <= i < |view| && view[i] == v;
        assert column[i] == v.restaurantName;
      }
    }
    column
  }

  /** The restaurants of the view the user has not rated. */
  function UnratedRestaurants(view: seq<ModelInput>, user: string): set<string>
  {
    set v | v in view && !HasRated(view, user, v.restaurantName) :: v.restaurantName
  }

  /** The k best-scoring restaurants `user` has not rated, best first. */
  function TopRestaurants(view: seq<ModelInput>, user: string, predict: Predictor, k: nat): (top: seq<ScoredRestaurant>)
    ensures |top| <= k
    ensures SortedDescending(top)
  {
    Recommend(RestaurantNameColumn(view), RatedBy(view, user), user, predict, k)
  }

  /** The unrated restaurants are the names of the column the user's rows do not name. */
  lemma ColumnOfRows(view: seq<ModelInput>, user: string)
    ensures UnratedRestaurants(view, user) == UnratedNames(RestaurantNameColumn(view), RatedBy(view, user))
  {
    var names := RestaurantNameColumn(view);
    forall n | n in names
      ensures exists v :: v in view && v.restaurantName == n
    {
      var i :| 0 <= i < |names| && names[i] == n;
      assert view[i] in view;
    }
  }

  /**
   * What the step promises: every recommendation is a restaurant of the
   * view that no row of the user names, scored once with its own name; the
   * recommendations are distinct, sorted best first, number min(k, unrated
   * restaurants), beat every unrated restaurant left out, and list equal
   * scores in the order their restaurants first occur in the column, also
   * across the cut.
   */
  lemma TopRestaurantsContract(view: seq<ModelInput>, user: string, predict: Predictor, k: nat)
    ensures var top := TopRestaurants(view, user, predict, k);
      var unrated := UnratedRestaurants(view, user);
      && (forall e :: e in top ==>
            && (exists v :: v in view && v.restaurantName == e.restaurantName)
            && (forall v :: v in view && v.userId == user ==> v.restaurantName != e.restaurantName)
            && e.predictedRating == predict(user, e.restaurantName))
      && NoDuplicates(Names(top))
      && SortedDescending(top)
      && |top| == (if k < |unrated| then k else |unrated|)
      && (forall n, i :: n in unrated && n !in Names(top) && 0 <= i < |top| ==>
            predict(user, n) <= top[i].predictedRating)
      && (forall i, j :: 0 <= i < j < |top| && top[i].predictedRating == top[j].predictedRating ==>
            FirstIndex(RestaurantNameColumn(view), top[i].restaurantName)
              < FirstIndex(RestaurantNameColumn(view), top[j].restaurantName))
      && (forall n, i ::
            n in unrated && n !in Names(top) && 0 <= i < |top| && predict(user, n) == top[i].predictedRating
            ==> FirstIndex(RestaurantNameColumn(view), top[i].restaurantName) < FirstIndex(RestaurantNameColumn(view), n))
  {
    var column, rated := RestaurantNameColumn(view), RatedBy(view, user);
    ColumnOfRows(view, user);
    RecommendedAreUnratedCorpusNames(column, rated, user, predict, k);
    forall e, v | e in TopRestaurants(view, user, predict, k) && v in view && v.userId == user
      ensures v.restaurantName != e.restaurantName
    {
      var i :| 0 <= i < |view| && view[i] == v;
      assert HasRated(view, user, v.restaurantName);
    }
    RecommendedAreDistinct(column, rated, user, predict, k);
    RecommendedCount(column, rated, user, predict, k);
    RecommendedAreTopK(column, rated, user, predict, k);
    RecommendedTiesInCorpusOrder(column, rated, user, predict, k);
    LeftOutTiesComeLater(column, rated, user, predict, k);
  }
}
