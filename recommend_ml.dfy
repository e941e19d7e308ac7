/**
 * Top-N recommendation with a personalized predictor of the machine
 * learning algorithm: every movie the user has not rated is predicted, a
 * movie whose title has no year is skipped, and the `count` best
 * predictions are kept in a bounded heap and returned from the best down.
 */
module RecommendML {
  import opened Exceptions
  import opened Tables
  import opened Constants
  import opened PredictCommon
  import opened TopN
  import opened PredictML
  import Read

  /** The predictions `recommend` collects for the given movies, in order:
      a NoMovieYearError skips the movie, and any other failure ends the
      call with that failure. */
  function Predictions(t: Tables, fit: Fit, predictor: Predictor, movies: seq<MovieId>)
    : (r: Result<seq<Prediction>>)
    requires GraphContract(fit)
    ensures r.Ok? <==> forall m :: m in movies ==>
                         Predict(t, fit, predictor, m).Ok? || Predict(t, fit, predictor, m) == Err(NoMovieYear)
    ensures r.Err? ==> r.error != NoMovieYear
    ensures r.Ok? ==> forall x :: x in r.value ==>
                        x.movie in movies && x.reason == NoReason && Predict(t, fit, predictor, x.movie) == Ok(x.predRating)
    ensures r.Ok? ==> forall m :: m in movies && Predict(t, fit, predictor, m).Ok? ==>
                        Prediction(Predict(t, fit, predictor, m).value, m, NoReason) in r.value
    decreases |movies|
  {
    if movies == [] then Ok([])
    else
      var init, last := movies[..|movies| - 1], movies[|movies| - 1];
      assert forall m :: m in movies <==> m in init || m == last;
      match Predictions(t, fit, predictor, init)
      case Err(e) => Err(e)
      case Ok(ps) =>
        match Predict(t, fit, predictor, last)
        case Err(e) => if e == NoMovieYear then Ok(ps) else Err(e)
        case Ok(rating) => Ok(ps + [Prediction(rating, last, NoReason)])
  }

  /** A failure among the first movies is the failure of the whole call. */
  lemma {:induction false} PredictionsPrefixErr(t: Tables, fit: Fit, predictor: Predictor,
                                                movies: seq<MovieId>, j: nat)
    requires GraphContract(fit) && j <= |movies|
    requires Predictions(t, fit, predictor, movies[..j]).Err?
    ensures Predictions(t, fit, predictor, movies) == Predictions(t, fit, predictor, movies[..j])
    decreases |movies| - j
  {
    if j < |movies| {
      assert movies[..j + 1][..j] == movies[..j];
      PredictionsPrefixErr(t, fit, predictor, movies, j + 1);
    } else {
      assert movies[..j] == movies;
    }
  }

  /** `recommend`: the predictions for the unrated movies pass through the
      bounded heap, and `nlargest` returns the best `count` of them from the
      best down. A failure other than NoMovieYearError is raised. */
  method Recommend(t: Tables, user: UserId, count: int, predictor: Predictor, fit: Fit)
    returns (r: Result<seq<Prediction>>)
    requires GraphContract(fit)
    ensures var all := Predictions(t, fit, predictor, Read.UnratedMovies(t, user));
            && (r.Err? <==> all.Err?)
            && (r.Err? ==> r.error == all.error)
            && (r.Ok? ==> TopOf(r.value, multiset(all.value), count))
  {
    var movies := Read.UnratedMovies(t, user);
    var heap: seq<Prediction> := [];
    ghost var dropped: multiset<Prediction> := multiset{};
    KeepsEmpty(count);
    for i := 0 to |movies|
      invariant Predictions(t, fit, predictor, movies[..i]).Ok?
      invariant Keeps(heap, dropped, multiset(Predictions(t, fit, predictor, movies[..i]).value), count)
    {
      assert movies[..i + 1][..i] == movies[..i];
      ghost var before := Predictions(t, fit, predictor, movies[..i]).value;
      var rating := Predict(t, fit, predictor, movies[i]);
      if rating.Err? {
        if rating.error == NoMovieYear {
          continue;
        }
        PredictionsPrefixErr(t, fit, predictor, movies, i + 1);
        return Err(rating.error);
      }
      var prediction := Prediction(rating.value, movies[i], NoReason);
      assert Predictions(t, fit, predictor, movies[..i + 1]).value == before + [prediction];
      dropped := OfferKeeps(heap, dropped, multiset(before), count, prediction);
      heap := Offer(heap, count, prediction);
    }
    assert movies[..|movies|] == movies;
    KeepsTop(heap, dropped, multiset(Predictions(t, fit, predictor, movies).value), count);
    r := Ok(NLargest(heap, count));
  }

  /** Every recommendation is a clamped prediction, with no reason, for a
      movie of the database the user has not rated. */
  lemma RecommendedUnrated(t: Tables, user: UserId, count: int, predictor: Predictor, fit: Fit,
                           out: seq<Prediction>)
    requires GraphContract(fit)
    requires Predictions(t, fit, predictor, Read.UnratedMovies(t, user)).Ok?
    requires TopOf(out, multiset(Predictions(t, fit, predictor, Read.UnratedMovies(t, user)).value), count)
    ensures forall x :: x in out ==>
              && x.movie in Read.AllMovies(t) && !Read.HasRated(t, user, x.movie)
              && x.reason == NoReason
              && MinRating <= x.predRating <= MaxRating
  {
    var pool := Predictions(t, fit, predictor, Read.UnratedMovies(t, user)).value;
    forall x | x in out
      ensures x.movie in Read.AllMovies(t) && !Read.HasRated(t, user, x.movie)
      ensures x.reason == NoReason && MinRating <= x.predRating <= MaxRating
    {
      assert x in multiset(out);
      assert x in multiset(pool);
    }
  }
}
