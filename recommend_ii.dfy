/**
 * Top-N recommendation with the item-item algorithm: a prediction for
 * every movie the user has not rated, of which the `count` best are kept in
 * a bounded heap and returned from the best down.
 */
module RecommendII {
  import opened Exceptions
  import opened Tables
  import opened Constants
  import opened PredictCommon
  import opened TopN
  import Read
  import Count
  import Progress
  import PredictII

  /** `_gen_prfr_args`: yields the user's unrated movies one by one and,
      with a reporter, sends `yielded / num_unrated` after every 256th and
      1 at the end. */
  method GenPrfrArgs(t: Tables, user: UserId, reporter: bool)
    returns (movies: seq<MovieId>, sent: seq<real>)
    requires Valid(t)
    ensures movies == Read.UnratedMovies(t, user)
    ensures sent == Progress.Sent(reporter, |movies|, |movies|)
  {
    var numUnrated := 0;
    if reporter {
      numUnrated := Count.UnratedMovies(t, user);
    }
    movies, sent := YieldAll(Read.UnratedMovies(t, user), reporter, numUnrated);
  }

  /** The loop of `_gen_prfr_args` over the unrated movies, counting them
      against `numUnrated`. */
  method YieldAll(unrated: seq<MovieId>, reporter: bool, numUnrated: nat)
    returns (movies: seq<MovieId>, sent: seq<real>)
    requires reporter ==> numUnrated == |unrated|
    ensures movies == unrated
    ensures sent == Progress.Sent(reporter, |movies|, |movies|)
  {
    movies, sent := [], [];
    for i := 0 to |unrated|
      invariant movies == unrated[..i]
      invariant reporter ==> sent == Progress.Checkpoints(i, numUnrated)
      invariant !reporter ==> sent == []
    {
      movies := movies + [unrated[i]];
      if reporter {
        var yielded := i + 1;
        Progress.CheckpointsNext(i, numUnrated);
        if yielded % JobsPerProcessPerBatch == 0 {
          sent := sent + [yielded as real / numUnrated as real];
        }
      }
    }
    assert unrated[..|unrated|] == unrated;
    if reporter {
      sent := sent + [1.0];
    }
  }

  /** `_call_prfr` over the arguments: one prediction per movie, in order.
      On a valid database none of them fails. */
  function Predictions(t: Tables, user: UserId, movies: seq<MovieId>): (ps: seq<Prediction>)
    requires Valid(t)
    ensures |ps| == |movies|
    ensures forall i :: 0 <= i < |movies| ==> Ok(ps[i]) == PredictII.PredictRatingForRecommend(t, user, movies[i])
  {
    var ps := seq(|movies|, i requires 0 <= i < |movies| =>
      PredictII.PredictRatingForRecommendTotal(t, user, movies[i]);
      PredictII.PredictRatingForRecommend(t, user, movies[i]).value);
    assert forall i :: 0 <= i < |movies| ==> Ok(ps[i]) == PredictII.PredictRatingForRecommend(t, user, movies[i]) by {
      forall i | 0 <= i < |movies| {
        PredictII.PredictRatingForRecommendTotal(t, user, movies[i]);
      }
    }
    ps
  }

  /** `recommend`: the pool fails on fewer than one process; otherwise the
      predictions for the unrated movies pass through the bounded heap, and
      `nlargest` returns the best `count` of them from the best down. The
      result depends on the predictions only as a multiset, so the order in
      which the pool delivers them does not matter. */
  method Recommend(t: Tables, user: UserId, count: int, jobs: int, reporter: bool)
    returns (r: Result<seq<Prediction>>, sent: seq<real>)
    requires Valid(t)
    ensures jobs < 1 ==> r == Err(ValueError) && sent == []
    ensures jobs >= 1 ==> r.Ok?
    ensures r.Ok? ==>
              && sent == Progress.Sent(reporter, |Read.UnratedMovies(t, user)|, |Read.UnratedMovies(t, user)|)
              && TopOf(r.value, multiset(Predictions(t, user, Read.UnratedMovies(t, user))), count)
  {
    if jobs < 1 {
      return Err(ValueError), [];
    }
    var movies;
    movies, sent := GenPrfrArgs(t, user, reporter);
    ghost var preds := Predictions(t, user, movies);
    var heap: seq<Prediction> := [];
    ghost var dropped: multiset<Prediction> := multiset{};
    KeepsEmpty(count);
    for i := 0 to |movies|
      invariant Keeps(heap, dropped, multiset(preds[..i]), count)
    {
      PredictII.PredictRatingForRecommendTotal(t, user, movies[i]);
      var prediction := PredictII.PredictRatingForRecommend(t, user, movies[i]).value;
      assert prediction == preds[i];
      ArrivedStep(preds, i);
      dropped := OfferKeeps(heap, dropped, multiset(preds[..i]), count, prediction);
      heap := Offer(heap, count, prediction);
    }
    assert preds[..|movies|] == preds;
    KeepsTop(heap, dropped, multiset(preds), count);
    r := Ok(NLargest(heap, count));
  }

  /** Every recommendation is a prediction for a movie of the database the
      user has not rated, made by the weighted sum or by the MinRating
      fallback. */
  lemma RecommendedUnrated(t: Tables, user: UserId, count: int, out: seq<Prediction>)
    requires Valid(t)
    requires TopOf(out, multiset(Predictions(t, user, Read.UnratedMovies(t, user))), count)
    ensures forall x :: x in out ==>
              && x.movie in Read.AllMovies(t) && !Read.HasRated(t, user, x.movie)
              && (x.reason == SimilarReason || (x.reason == NoReason && x.predRating == MinRating))
  {
    var movies := Read.UnratedMovies(t, user);
    var preds := Predictions(t, user, movies);
    forall x | x in out
      ensures x.movie in Read.AllMovies(t) && !Read.HasRated(t, user, x.movie)
      ensures x.reason == SimilarReason || (x.reason == NoReason && x.predRating == MinRating)
    {
      assert x in multiset(out);
      assert x in multiset(preds);
      var k :| 0 <= k < |preds| && preds[k] == x;
      assert movies[k] in movies;
    }
  }
}
