/** The AVG aggregates of the movie recommender. */
module Calc {
  import opened Exceptions
  import opened Tables

  /** The sum of `xs`, accumulated from the left. */
  function Sum(xs: seq<real>): real
    decreases |xs|
  {
    if xs == [] then 0.0 else Sum(xs[..|xs| - 1]) + xs[|xs| - 1]
  }

  /** SQL's AVG over a non-empty column. */
  function Mean(xs: seq<real>): real
    requires |xs| > 0
  {
    Sum(xs) / |xs| as real
  }

  /** Bounds on every element bound the sum. */
  lemma {:induction false} SumBounds(xs: seq<real>, lo: real, hi: real)
    requires forall k :: 0 <= k < |xs| ==> lo <= xs[k] <= hi
    ensures |xs| as real * lo <= Sum(xs) <= |xs| as real * hi
    decreases |xs|
  {
    if xs != [] {
      SumBounds(xs[..|xs| - 1], lo, hi);
    }
  }

  /** A sum of elements all above `m` is above `|xs| * m`. */
  lemma {:induction false} SumAbove(xs: seq<real>, m: real)
    requires |xs| > 0 && forall k :: 0 <= k < |xs| ==> m < xs[k]
    ensures |xs| as real * m < Sum(xs)
    decreases |xs|
  {
    if |xs| > 1 {
      SumAbove(xs[..|xs| - 1], m);
    }
  }

  /** A sum of elements all below `m` is below `|xs| * m`. */
  lemma {:induction false} SumBelow(xs: seq<real>, m: real)
    requires |xs| > 0 && forall k :: 0 <= k < |xs| ==> xs[k] < m
    ensures Sum(xs) < |xs| as real * m
    decreases |xs|
  {
    if |xs| > 1 {
      SumBelow(xs[..|xs| - 1], m);
    }
  }

  /** A non-empty mean lies between the smallest and the largest element. */
  lemma MeanBetween(xs: seq<real>)
    requires |xs| > 0
    ensures exists k :: 0 <= k < |xs| && xs[k] <= Mean(xs)
    ensures exists k :: 0 <= k < |xs| && Mean(xs) <= xs[k]
  {
    var m := Mean(xs);
    var n := |xs| as real;
    assert Sum(xs) == n * m;
    if forall k :: 0 <= k < |xs| ==> m < xs[k] {
      SumAbove(xs, m);
    }
    if forall k :: 0 <= k < |xs| ==> xs[k] < m {
      SumBelow(xs, m);
    }
  }

  /** A mean of values in [lo, hi] is in [lo, hi]. */
  lemma MeanBounds(xs: seq<real>, lo: real, hi: real)
    requires |xs| > 0 && forall k :: 0 <= k < |xs| ==> lo <= xs[k] <= hi
    ensures lo <= Mean(xs) <= hi
  {
    MeanBetween(xs);
  }

  /** The rating column of the rows that `keep` selects, in row order. */
  function Column(rows: seq<RatingRow>, keep: RatingRow -> bool): (xs: seq<real>)
    ensures |xs| <= |rows|
    ensures forall x :: x in xs ==> exists r :: r in rows && keep(r) && r.rating == x
    ensures |xs| == 0 <==> forall r :: r in rows ==> !keep(r)
    decreases |rows|
  {
    if rows == [] then []
    else
      var prefix := rows[..|rows| - 1];
      var last := rows[|rows| - 1];
      assert rows == prefix + [last];
      Column(prefix, keep) + (if keep(last) then [last.rating] else [])
  }

  /** The mean of a non-empty column lies between two of its rows. */
  lemma ColumnMeanBetween(rows: seq<RatingRow>, keep: RatingRow -> bool)
    requires |Column(rows, keep)| > 0
    ensures exists r :: r in rows && keep(r) && r.rating <= Mean(Column(rows, keep))
    ensures exists r :: r in rows && keep(r) && Mean(Column(rows, keep)) <= r.rating
  {
    var xs := Column(rows, keep);
    MeanBetween(xs);
    var i :| 0 <= i < |xs| && xs[i] <= Mean(xs);
    var j :| 0 <= j < |xs| && Mean(xs) <= xs[j];
    assert xs[i] in xs && xs[j] in xs;
  }

  /** The ratings the movie received. */
  function MovieRatings(t: Tables, movie: MovieId): seq<real> {
    Column(t.ratings, (r: RatingRow) => r.movie == movie)
  }

  /** The ratings the user gave. */
  function UserRatings(t: Tables, user: UserId): seq<real> {
    Column(t.ratings, (r: RatingRow) => r.user == user)
  }

  /** `avg_movie_rating`: NoMovieRatingsError when the movie has no rating
      (AVG is NULL); otherwise the mean of its ratings, which lies between
      its lowest and its highest rating. */
  function AvgMovieRating(t: Tables, movie: MovieId): (r: Result<real>)
    ensures r.Err? <==> forall row :: row in t.ratings ==> row.movie != movie
    ensures r.Err? ==> r.error == NoMovieRatings
    ensures r.Ok? ==> |MovieRatings(t, movie)| > 0 && r.value == Mean(MovieRatings(t, movie))
    ensures r.Ok? ==> (exists row :: row in t.ratings && row.movie == movie && row.rating <= r.value)
                      && (exists row :: row in t.ratings && row.movie == movie && r.value <= row.rating)
  {
    var xs := MovieRatings(t, movie);
    if |xs| == 0 then Err(NoMovieRatings)
    else
      ColumnMeanBetween(t.ratings, (r: RatingRow) => r.movie == movie);
      Ok(Mean(xs))
  }

  /** `avg_user_rating`: the mean of the user's ratings; SQL NULL (None)
      when the user has none, which the source does not guard against. */
  function AvgUserRating(t: Tables, user: UserId): (r: Option<real>)
    ensures r.None? <==> forall row :: row in t.ratings ==> row.user != user
    ensures r.Some? ==> |UserRatings(t, user)| > 0 && r.value == Mean(UserRatings(t, user))
    ensures r.Some? ==> (exists row :: row in t.ratings && row.user == user && row.rating <= r.value)
                        && (exists row :: row in t.ratings && row.user == user && r.value <= row.rating)
  {
    var xs := UserRatings(t, user);
    if |xs| == 0 then None
    else
      ColumnMeanBetween(t.ratings, (r: RatingRow) => r.user == user);
      Some(Mean(xs))
  }

  /** The only caller passes users drawn from `ratings`, for whom the
      average exists. */
  lemma AvgUserRatingOfRater(t: Tables, user: UserId)
    requires exists row :: row in t.ratings && row.user == user
    ensures AvgUserRating(t, user).Some?
  {
  }

  /** With ratings in range, both averages are ratings in range too. */
  lemma AveragesInRange(t: Tables, movie: MovieId, user: UserId)
    requires RatingsInRange(t)
    ensures AvgMovieRating(t, movie).Ok? ==>
              Constants.MinRating <= AvgMovieRating(t, movie).value <= Constants.MaxRating
    ensures AvgUserRating(t, user).Some? ==>
              Constants.MinRating <= AvgUserRating(t, user).value <= Constants.MaxRating
  {
  }
}
