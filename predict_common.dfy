/** The record every predictor returns, and the order the top-N heaps
    compare predictions by. */
module PredictCommon {
  import opened Tables
  import opened Constants

  /** `Prediction(pred_rating, movie, reason)`: the rating comes first so
      that the tuple order ranks predictions by rating. */
  datatype Prediction = Prediction(predRating: real, movie: MovieId, reason: Reason)

  /** Tuple order on (predRating, movie): `a` sorts at or before `b`. The
      heaps only ever hold predictions for distinct movies, so the third
      field is never reached. */
  predicate AtMost(a: Prediction, b: Prediction) {
    a.predRating < b.predRating || (a.predRating == b.predRating && a.movie <= b.movie)
  }

  /** The order is total, transitive, and antisymmetric on (rating, movie). */
  lemma AtMostOrder(a: Prediction, b: Prediction, c: Prediction)
    ensures AtMost(a, b) || AtMost(b, a)
    ensures AtMost(a, b) && AtMost(b, c) ==> AtMost(a, c)
    ensures AtMost(a, b) && AtMost(b, a) ==> a.predRating == b.predRating && a.movie == b.movie
  {
  }
}
