/**
 * Rating prediction with the item-item algorithm: a weighted sum of the
 * user's normalised ratings of the movies similar to the target, weighted
 * by their similarity scores, and the two fallback chains built on it.
 */
module PredictII {
  import opened Exceptions
  import opened Tables
  import opened Constants
  import opened PredictCommon
  import opened RealArith
  import Read
  import Calc

  // ------------------------------------------------------- normalisation

  /** `normalize_rating`: the affine map of the rating scale onto [-1, 1],
      which `denormalize_rating` undoes. */
  function Normalize(rating: real): (n: real)
    ensures MinRating <= rating <= MaxRating ==> -1.0 <= n <= 1.0
    ensures Denormalize(n) == rating
  {
    (2.0 * (rating - MinRating) - (MaxRating - MinRating)) / (MaxRating - MinRating)
  }

  /** `denormalize_rating`: the affine map of [-1, 1] back onto the rating
      scale. */
  function Denormalize(n: real): (rating: real)
    ensures -1.0 <= n <= 1.0 ==> MinRating <= rating <= MaxRating
  {
    ((n + 1.0) * (MaxRating - MinRating)) / 2.0 + MinRating
  }

  /** The lowest, middle and highest ratings land on -1, 0 and 1. */
  lemma NormalizeExamples()
    ensures Normalize(0.5) == -1.0 && Normalize(2.75) == 0.0 && Normalize(5.0) == 1.0
    ensures Denormalize(-1.0) == 0.5 && Denormalize(0.0) == 2.75 && Denormalize(1.0) == 5.0
  {
  }

  /** Normalising a denormalised value gives it back. */
  lemma DenormalizeRoundTrip(n: real)
    ensures Normalize(Denormalize(n)) == n
  {
  }

  /** Both maps are strictly increasing. */
  lemma NormalizeMonotone(a: real, b: real)
    ensures a < b ==> Normalize(a) < Normalize(b)
    ensures a < b ==> Denormalize(a) < Denormalize(b)
  {
  }

  // ------------------------------------------------------- weighted sum

  /** The two running sums of `predict_rating`: Σ s·normalize(rating) and
      Σ |s|. */
  datatype WeightedSum = WeightedSum(numerator: real, denominator: real)

  /** The sums over the similar movies, in the order they are read; a rating
      lookup that fails stops the loop with its error. */
  function WeightedSums(t: Tables, user: UserId, similar: seq<(MovieId, real)>): (r: Result<WeightedSum>)
    decreases |similar|
  {
    if similar == [] then Ok(WeightedSum(0.0, 0.0))
    else
      match WeightedSums(t, user, similar[..|similar| - 1])
      case Err(e) => Err(e)
      case Ok(sums) => AddTerm(t, user, sums, similar[|similar| - 1])
  }

  /** One iteration of the loop: look up the user's rating of the similar
      movie and add its weighted, normalised value and its weight. */
  function AddTerm(t: Tables, user: UserId, sums: WeightedSum, p: (MovieId, real)): Result<WeightedSum> {
    match Read.Rating(t, user, p.0)
    case Err(e) => Err(e)
    case Ok(rating) =>
      Ok(WeightedSum(sums.numerator + Mul(p.1, Normalize(rating)), sums.denominator + Abs(p.1)))
  }

  /** Over movies the user rated with non-zero weights, the sums exist, the
      denominator is positive exactly when there is a movie, and with
      ratings in range the numerator is bounded by the denominator. */
  lemma {:induction false} WeightedSumsFacts(t: Tables, user: UserId, similar: seq<(MovieId, real)>)
    requires Valid(t)
    requires forall p :: p in similar ==> Read.HasRated(t, user, p.0) && p.1 != 0.0
    ensures WeightedSums(t, user, similar).Ok?
    ensures var w := WeightedSums(t, user, similar).value;
            && !(w.denominator < 0.0)
            && (similar == [] <==> !(0.0 < w.denominator))
            && (RatingsInRange(t) ==> -w.denominator <= w.numerator <= w.denominator)
    decreases |similar|
  {
    if similar != [] {
      var prefix := similar[..|similar| - 1];
      var (m, s) := similar[|similar| - 1];
      assert forall p :: p in prefix ==> p in similar;
      WeightedSumsFacts(t, user, prefix);
      assert similar[|similar| - 1] in similar;
      var rating := Read.Rating(t, user, m).value;
      if RatingsInRange(t) {
        MulBounded(s, Normalize(rating));
      }
    }
  }

  /** Once the sums over a prefix fail, the sums over the whole sequence
      fail with the same error. */
  lemma {:induction false} WeightedSumsPrefixErr(t: Tables, user: UserId, similar: seq<(MovieId, real)>, j: nat)
    requires j <= |similar| && WeightedSums(t, user, similar[..j]).Err?
    ensures WeightedSums(t, user, similar) == WeightedSums(t, user, similar[..j])
    decreases |similar|
  {
    if j == |similar| {
      assert similar[..j] == similar;
    } else {
      var prefix := similar[..|similar| - 1];
      assert prefix[..j] == similar[..j];
      WeightedSumsPrefixErr(t, user, prefix, j);
    }
  }

  /** The value `predict_rating` computes: the denormalised weighted sum,
      or NoSimilarMoviesError when the denominator is zero. */
  function PredictedRating(t: Tables, user: UserId, movie: MovieId): Result<real> {
    match WeightedSums(t, user, Read.SimilarMoviesForUser(t, movie, user))
    case Err(e) => Err(e)
    case Ok(w) =>
      if w.denominator == 0.0 then Err(NoSimilarMovies)
      else Ok(Denormalize(w.numerator / w.denominator))
  }

  /** `predict_rating`: the loop over the similar movies. */
  method PredictRating(t: Tables, user: UserId, movie: MovieId) returns (r: Result<real>)
    ensures r == PredictedRating(t, user, movie)
  {
    var similar := Read.SimilarMoviesForUser(t, movie, user);
    var numerator, denominator := 0.0, 0.0;
    for i := 0 to |similar|
      invariant WeightedSums(t, user, similar[..i]) == Ok(WeightedSum(numerator, denominator))
    {
      assert similar[..i + 1][..i] == similar[..i];
      var next := AddTerm(t, user, WeightedSum(numerator, denominator), similar[i]);
      if next.Err? {
        WeightedSumsPrefixErr(t, user, similar, i + 1);
        return Err(next.error);
      }
      numerator, denominator := next.value.numerator, next.value.denominator;
    }
    assert similar[..|similar|] == similar;
    if denominator == 0.0 {
      return Err(NoSimilarMovies);
    }
    return Ok(Denormalize(numerator / denominator));
  }

  /** On a valid database the prediction fails only with
      NoSimilarMoviesError, and it does exactly when the user rated no
      movie whose stored similarity to the target, in either orientation,
      is non-zero. */
  lemma PredictedRatingFails(t: Tables, user: UserId, movie: MovieId)
    requires Valid(t)
    ensures PredictedRating(t, user, movie).Err? ==> PredictedRating(t, user, movie).error == NoSimilarMovies
    ensures PredictedRating(t, user, movie).Err? <==>
              forall m :: Read.HasRated(t, user, m) ==>
                && !((m, movie) in t.similarities && t.similarities[(m, movie)] != 0.0)
                && !((movie, m) in t.similarities && t.similarities[(movie, m)] != 0.0)
  {
    var similar := Read.SimilarMoviesForUser(t, movie, user);
    WeightedSumsFacts(t, user, similar);
    if similar != [] {
      var p := similar[0];
      assert p in similar;
    } else {
      forall m | Read.HasRated(t, user, m)
        ensures !((m, movie) in t.similarities && t.similarities[(m, movie)] != 0.0)
        ensures !((movie, m) in t.similarities && t.similarities[(movie, m)] != 0.0)
      {
        Read.SimilarMoviesForUserComplete(t, movie, user, m);
      }
    }
  }

  /** With ratings in range, a successful prediction is a rating in range. */
  lemma PredictedRatingInRange(t: Tables, user: UserId, movie: MovieId)
    requires Valid(t) && RatingsInRange(t)
    ensures PredictedRating(t, user, movie).Ok? ==>
              MinRating <= PredictedRating(t, user, movie).value <= MaxRating
  {
    var similar := Read.SimilarMoviesForUser(t, movie, user);
    WeightedSumsFacts(t, user, similar);
    var w := WeightedSums(t, user, similar).value;
    if 0.0 < w.denominator {
      QuotientInUnit(w.numerator, w.denominator);
    }
  }

  // ------------------------------------------------------- fallbacks

  /** `predict_rating_for_recommend`: the weighted sum with reason SIMILAR,
      or MinRating with no reason when there are no similar movies. Any
      other error passes through. */
  function PredictRatingForRecommend(t: Tables, user: UserId, movie: MovieId): (r: Result<Prediction>)
    ensures r.Ok? ==> r.value.movie == movie
    ensures r.Ok? ==> (r.value.reason == SimilarReason <==> PredictedRating(t, user, movie).Ok?)
    ensures r.Ok? && r.value.reason == SimilarReason ==> r.value.predRating == PredictedRating(t, user, movie).value
    ensures r.Ok? && r.value.reason != SimilarReason ==>
              r.value.predRating == MinRating && r.value.reason == NoReason
    ensures r.Err? <==> PredictedRating(t, user, movie).Err? && PredictedRating(t, user, movie).error != NoSimilarMovies
  {
    match PredictedRating(t, user, movie)
    case Ok(rating) => Ok(Prediction(rating, movie, SimilarReason))
    case Err(NoSimilarMovies) => Ok(Prediction(MinRating, movie, NoReason))
    case Err(e) => Err(e)
  }

  /** On a valid database the recommend wrapper never fails, and with
      ratings in range its rating is in range. */
  lemma PredictRatingForRecommendTotal(t: Tables, user: UserId, movie: MovieId)
    requires Valid(t)
    ensures PredictRatingForRecommend(t, user, movie).Ok?
    ensures RatingsInRange(t) ==>
              MinRating <= PredictRatingForRecommend(t, user, movie).value.predRating <= MaxRating
  {
    PredictedRatingFails(t, user, movie);
    if RatingsInRange(t) {
      PredictedRatingInRange(t, user, movie);
    }
  }

  /** `predict_rating_for_predict`: the weighted sum with reason SIMILAR;
      failing that for lack of similar movies, the movie's average rating
      with reason AVG_RATING; failing that for lack of ratings of the movie,
      the user's stored average with no reason. */
  function PredictRatingForPredict(t: Tables, user: UserId, movie: MovieId): (r: Result<Prediction>)
    ensures r.Ok? ==> r.value.movie == movie
    ensures r.Ok? ==> (r.value.reason == SimilarReason <==> PredictedRating(t, user, movie).Ok?)
    ensures r.Ok? && r.value.reason == SimilarReason ==> r.value.predRating == PredictedRating(t, user, movie).value
    ensures r.Ok? && r.value.reason == AvgRatingReason ==>
              PredictedRating(t, user, movie) == Err(NoSimilarMovies)
              && Calc.AvgMovieRating(t, movie).Ok?
              && r.value.predRating == Calc.AvgMovieRating(t, movie).value
    ensures r.Ok? && r.value.reason == NoReason ==>
              PredictedRating(t, user, movie) == Err(NoSimilarMovies)
              && Calc.AvgMovieRating(t, movie).Err?
              && user in t.avgRatings && r.value.predRating == t.avgRatings[user]
    ensures PredictedRating(t, user, movie) == Err(NoSimilarMovies) ==>
              (r.Err? <==> Calc.AvgMovieRating(t, movie).Err? && user !in t.avgRatings)
  {
    match PredictedRating(t, user, movie)
    case Ok(rating) => Ok(Prediction(rating, movie, SimilarReason))
    case Err(NoSimilarMovies) =>
      (match Calc.AvgMovieRating(t, movie)
       case Ok(avg) => Ok(Prediction(avg, movie, AvgRatingReason))
       case Err(NoMovieRatings) =>
         (match Read.AvgRating(t, user)
          case Ok(avg) => Ok(Prediction(avg, movie, NoReason))
          case Err(e) => Err(e))
       case Err(e) => Err(e))
    case Err(e) => Err(e)
  }

  /** On a valid database with ratings in range the predict wrapper fails
      only when no fallback applies, with MissingAverageRatingError, and
      otherwise yields a rating in range. */
  lemma PredictRatingForPredictInRange(t: Tables, user: UserId, movie: MovieId)
    requires Valid(t) && RatingsInRange(t)
    ensures PredictRatingForPredict(t, user, movie).Err? ==>
              PredictRatingForPredict(t, user, movie).error == MissingAverageRating
    ensures PredictRatingForPredict(t, user, movie).Ok? ==>
              MinRating <= PredictRatingForPredict(t, user, movie).value.predRating <= MaxRating
  {
    PredictedRatingFails(t, user, movie);
    PredictedRatingInRange(t, user, movie);
    Calc.AveragesInRange(t, movie, user);
  }
}
