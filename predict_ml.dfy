/**
 * The univariate predictors of the machine learning algorithm. A predictor
 * is made for one user from the (feature, rating) points of the movies the
 * user has rated, where the feature is the movie's year or a 0/1 flag for one
 * genre; it predicts a rating for a movie from the line of best fit through
 * those points, and clamps the prediction to the rating range.
 *
 * `Graph` (least squares over the points) is not part of this model: it is
 * the parameter `fit`, of which only `GraphContract` is assumed.
 */
module PredictML {
  import opened Exceptions
  import opened Tables
  import opened Constants
  import Read
  import Calc

  // ------------------------------------------------------------ clamping

  /** `clamp_rating`: `max(0.5, min(5, rating))`. */
  function ClampRating(rating: real): (r: real)
    ensures MinRating <= r <= MaxRating
    ensures MinRating <= rating <= MaxRating ==> r == rating
    ensures rating < MinRating ==> r == MinRating
    ensures MaxRating < rating ==> r == MaxRating
  {
    var upper := if rating < 5.0 then rating else 5.0;
    if 0.5 < upper then upper else 0.5
  }

  /** Clamping twice is clamping once, and clamping keeps the order. */
  lemma ClampIdempotent(a: real, b: real)
    ensures ClampRating(ClampRating(a)) == ClampRating(a)
    ensures a <= b ==> ClampRating(a) <= ClampRating(b)
  {
  }

  // ---------------------------------------------------- predictor names

  /** The predictor factories: the year predictor, and one genre predictor
      per genre. */
  datatype PredictorKind = YearPredictor | GenrePredictor(genre: string)

  /** The key under which `get_predictor_factory` files a factory. */
  function Name(kind: PredictorKind): string {
    match kind
    case YearPredictor => "year"
    case GenrePredictor(g) => "genre:" + g
  }

  /** Every name `get_predictor_factory` resolves. */
  ghost predicate IsPredictorName(name: string) {
    name == "year" || exists g :: g in Genres && name == "genre:" + g
  }

  /** `get_predictor_factory`: 'year' and 'genre:G' for every G in GENRES
      resolve; every other name raises NoSuchPredictorError. */
  function GetPredictorFactory(name: string): (r: Result<PredictorKind>)
    ensures r.Ok? ==> Name(r.value) == name
    ensures r.Ok? && r.value.GenrePredictor? ==> r.value.genre in Genres
    ensures r.Err? ==> r.error == NoSuchPredictor
  {
    if name == "year" then Ok(YearPredictor)
    else if 6 <= |name| && name[..6] == "genre:" && name[6..] in Genres then
      assert name == "genre:" + name[6..];
      Ok(GenrePredictor(name[6..]))
    else
      Err(NoSuchPredictor)
  }

  /** Exactly the names of the factories resolve. */
  lemma FactoryResolves(name: string)
    ensures GetPredictorFactory(name).Ok? <==> IsPredictorName(name)
  {
    if IsPredictorName(name) && name != "year" {
      var g :| g in Genres && name == "genre:" + g;
      assert name[..6] == "genre:" && name[6..] == g;
    }
  }

  /** The name of every factory resolves back to that factory. */
  lemma FactoryNames(kind: PredictorKind)
    requires kind.GenrePredictor? ==> kind.genre in Genres
    ensures GetPredictorFactory(Name(kind)) == Ok(kind)
  {
    match kind
    case YearPredictor =>
    case GenrePredictor(g) =>
      assert ("genre:" + g)[6..] == g;
  }

  // ------------------------------------------------------------- points

  /** `Point(x, y)` of the graph module. */
  datatype Point = Point(x: real, y: real)

  /** `if forbidden_movie:` adds `AND movieId != ?` to the query; the test
      is truthiness, so a forbidden movie of 0 excludes nothing. */
  predicate Excluded(forbidden: Option<MovieId>, movie: MovieId) {
    forbidden.Some? && forbidden.value != 0 && movie == forbidden.value
  }

  /** The `movies` rows with the given id. */
  function MatchingMovies(movies: seq<MovieRow>, id: MovieId): (ms: seq<MovieRow>)
    ensures forall m :: m in ms <==> m in movies && m.id == id
    decreases |movies|
  {
    if movies == [] then []
    else
      var init := movies[..|movies| - 1];
      var last := movies[|movies| - 1];
      assert movies == init + [last];
      MatchingMovies(init, id) + (if last.id == id then [last] else [])
  }

  /** The rows of `movies JOIN ratings USING (movieId) WHERE ratings.userId
      == user [AND movieId != forbidden]`, as (movie row, rating) pairs,
      one per matching pair of rows, in the order of `ratings`. */
  function JoinRows(movies: seq<MovieRow>, ratings: seq<RatingRow>, user: UserId,
                    forbidden: Option<MovieId>): (rows: seq<(MovieRow, real)>)
    ensures forall m, v :: (m, v) in rows <==>
              exists r :: r in ratings && r.user == user && !Excluded(forbidden, r.movie)
                          && m in movies && m.id == r.movie && v == r.rating
    decreases |ratings|
  {
    if ratings == [] then []
    else
      var init := ratings[..|ratings| - 1];
      var r := ratings[|ratings| - 1];
      assert ratings == init + [r];
      var here := if r.user == user && !Excluded(forbidden, r.movie) then
                    MatchingMovies(movies, r.movie)
                  else [];
      var mine := seq(|here|, i requires 0 <= i < |here| => (here[i], r.rating));
      assert forall m, v :: (m, v) in mine <==> m in here && v == r.rating by {
        forall m, v | (m, v) in mine ensures m in here && v == r.rating {
          var i :| 0 <= i < |mine| && mine[i] == (m, v);
        }
        forall m, v | m in here && v == r.rating ensures (m, v) in mine {
          var i :| 0 <= i < |here| && here[i] == m;
          assert mine[i] == (m, v);
        }
      }
      JoinRows(movies, init, user, forbidden) + mine
  }

  /** The query of a predictor factory on the database. */
  function Joined(t: Tables, user: UserId, forbidden: Option<MovieId>): seq<(MovieRow, real)> {
    JoinRows(t.movies, t.ratings, user, forbidden)
  }

  /** A forbidden movie of 0 gives the same query as no forbidden movie. */
  lemma {:induction false} ForbiddenZeroExcludesNothing(movies: seq<MovieRow>, ratings: seq<RatingRow>,
                                                         user: UserId)
    ensures JoinRows(movies, ratings, user, Some(0)) == JoinRows(movies, ratings, user, None)
    decreases |ratings|
  {
    if ratings != [] {
      ForbiddenZeroExcludesNothing(movies, ratings[..|ratings| - 1], user);
    }
  }

  /** The year predictor's points: `(year, rating)` for each row whose
      title holds a year; the other rows are skipped. */
  function YearPoints(rows: seq<(MovieRow, real)>): (ps: seq<Point>)
    ensures |ps| <= |rows|
    ensures forall p :: p in ps <==>
              exists i :: 0 <= i < |rows| && Read.Year(rows[i].0.title).Ok?
                          && p == Point(Read.Year(rows[i].0.title).value as real, rows[i].1)
    decreases |rows|
  {
    if rows == [] then []
    else
      var init := rows[..|rows| - 1];
      var last := rows[|rows| - 1];
      var ps := YearPoints(init);
      assert forall i :: 0 <= i < |init| ==> rows[i] == init[i];
      match Read.Year(last.0.title)
      case Ok(y) => ps + [Point(y as real, last.1)]
      case Err(_) => ps
  }

  /** One more row adds its year point, if its title holds a year. */
  lemma YearPointsStep(rows: seq<(MovieRow, real)>, i: nat)
    requires i < |rows|
    ensures YearPoints(rows[..i + 1]) == match Read.Year(rows[i].0.title)
                                          case Ok(y) => YearPoints(rows[..i]) + [Point(y as real, rows[i].1)]
                                          case Err(_) => YearPoints(rows[..i])
  {
    assert rows[..i + 1][..i] == rows[..i];
  }

  /** The 0/1 feature of a genre predictor. */
  function GenreFlag(genre: string, genres: seq<string>): (x: real)
    ensures x == 0.0 || x == 1.0
    ensures x == 1.0 <==> genre in genres
  {
    if genre in genres then 1.0 else 0.0
  }

  /** The genre predictor's points: one `(flag, rating)` per row, where the
      flag says whether the genre is among the row's '|'-separated genres. */
  function GenrePoints(genre: string, rows: seq<(MovieRow, real)>): (ps: seq<Point>)
    ensures |ps| == |rows|
    ensures forall i :: 0 <= i < |rows| ==>
              ps[i].y == rows[i].1 && (ps[i].x == 1.0 <==> genre in Read.Split(rows[i].0.genres, '|'))
              && (ps[i].x == 0.0 || ps[i].x == 1.0)
    decreases |rows|
  {
    if rows == [] then []
    else
      var init := rows[..|rows| - 1];
      var last := rows[|rows| - 1];
      GenrePoints(genre, init) + [Point(GenreFlag(genre, Read.Split(last.0.genres, '|')), last.1)]
  }

  // ---------------------------------------------------------- predictors

  /** A predictor: the closure returned by a factory, represented by its
      kind and the points of its graph. */
  datatype Predictor = Predictor(kind: PredictorKind, points: seq<Point>)

  function Points(kind: PredictorKind, rows: seq<(MovieRow, real)>): seq<Point> {
    match kind
    case YearPredictor => YearPoints(rows)
    case GenrePredictor(g) => GenrePoints(g, rows)
  }

  /** The predictor a factory makes for the user. */
  function PredictorFor(t: Tables, user: UserId, kind: PredictorKind, forbidden: Option<MovieId>): Predictor {
    Predictor(kind, Points(kind, Joined(t, user, forbidden)))
  }

  /** `make_year_predictor`: walks the query rows and appends a point for
      every row whose title holds a year. */
  method MakeYearPredictor(t: Tables, user: UserId, forbidden: Option<MovieId>) returns (p: Predictor)
    ensures p == PredictorFor(t, user, YearPredictor, forbidden)
  {
    var rows := Joined(t, user, forbidden);
    var points: seq<Point> := [];
    for i := 0 to |rows|
      invariant points == YearPoints(rows[..i])
    {
      YearPointsStep(rows, i);
      match Read.Year(rows[i].0.title)
      case Ok(year) =>
        points := points + [Point(year as real, rows[i].1)];
      case Err(_) =>
    }
    assert rows[..|rows|] == rows;
    p := Predictor(YearPredictor, points);
  }

  /** `make_genre_predictor`: walks the query rows and appends one point per
      row. */
  method MakeGenrePredictor(genre: string, t: Tables, user: UserId, forbidden: Option<MovieId>)
    returns (p: Predictor)
    ensures p == PredictorFor(t, user, GenrePredictor(genre), forbidden)
  {
    var rows := Joined(t, user, forbidden);
    var points: seq<Point> := [];
    for i := 0 to |rows|
      invariant points == GenrePoints(genre, rows[..i])
    {
      assert rows[..i + 1][..i] == rows[..i];
      var genres := Read.Split(rows[i].0.genres, '|');
      var genrePresent := if genre in genres then 1.0 else 0.0;
      points := points + [Point(genrePresent, rows[i].1)];
    }
    assert rows[..|rows|] == rows;
    p := Predictor(GenrePredictor(genre), points);
  }

  /** `make_predictor`: resolves the name, then runs the factory without a
      forbidden movie. */
  method MakePredictor(t: Tables, user: UserId, name: string) returns (r: Result<Predictor>)
    ensures r.Err? <==> !IsPredictorName(name)
    ensures r.Err? ==> r.error == NoSuchPredictor
    ensures r.Ok? ==> Name(r.value.kind) == name
                      && r.value == PredictorFor(t, user, r.value.kind, None)
  {
    var factory := GetPredictorFactory(name);
    FactoryResolves(name);
    match factory
    case Err(e) =>
      r := Err(e);
    case Ok(YearPredictor) =>
      var p := MakeYearPredictor(t, user, None);
      r := Ok(p);
    case Ok(GenrePredictor(g)) =>
      var p := MakeGenrePredictor(g, t, user, None);
      r := Ok(p);
  }

  // ---------------------------------------------------------- prediction

  /** `graph.predict_y` on the graph through the given points. */
  type Fit = (seq<Point>, real) -> Result<real>

  /** What the predictors rely on of `Graph`: it fails only with
      EmptyGraphError or VerticalLineOfBestFitGraphError, and a graph
      without points cannot predict. */
  ghost predicate GraphContract(fit: Fit) {
    && (forall ps, x :: fit(ps, x).Err? ==>
          fit(ps, x).error == EmptyGraph || fit(ps, x).error == VerticalLineOfBestFitGraph)
    && (forall x :: fit([], x) == Err(EmptyGraph))
  }

  /** `graph.avg_point.y`: the mean rating of the points. */
  function MeanY(points: seq<Point>): real
    requires points != []
  {
    Calc.Mean(seq(|points|, i requires 0 <= i < |points| => points[i].y))
  }

  /** The mean rating lies between the lowest and highest rating. */
  lemma MeanYBounds(points: seq<Point>, lo: real, hi: real)
    requires points != [] && forall p :: p in points ==> lo <= p.y <= hi
    ensures lo <= MeanY(points) <= hi
  {
    var ys := seq(|points|, i requires 0 <= i < |points| => points[i].y);
    assert forall k :: 0 <= k < |ys| ==> points[k] in points;
    Calc.MeanBounds(ys, lo, hi);
  }

  /** The feature a predictor looks up for the movie it is asked about: the
      year in the title (ValueError for an unknown movie, NoMovieYearError
      for a title without a year), or the genre flag of the movie's genres
      (AssertionFailed unless exactly one movie row matches). */
  function Feature(t: Tables, kind: PredictorKind, movie: MovieId): (r: Result<real>)
    ensures kind.YearPredictor? ==>
              (r.Ok? <==> Read.Title(t, movie).Ok? && Read.Year(Read.Title(t, movie).value).Ok?)
              && (r == Err(NoMovieYear) <==> Read.Title(t, movie).Ok? && Read.Year(Read.Title(t, movie).value).Err?)
              && (r.Err? ==> r.error == ValueError || r.error == NoMovieYear)
    ensures kind.GenrePredictor? ==>
              (r.Ok? <==> Read.Genres(t, movie).Ok?)
              && (r.Ok? ==> (r.value == 1.0 <==> kind.genre in Read.Genres(t, movie).value))
              && (r.Err? ==> r.error == AssertionFailed)
  {
    match kind
    case YearPredictor =>
      (match Read.Title(t, movie)
       case Err(e) => Err(e)
       case Ok(title) =>
         match Read.Year(title)
         case Err(e) => Err(e)
         case Ok(year) => Ok(year as real))
    case GenrePredictor(g) =>
      match Read.Genres(t, movie)
      case Err(e) => Err(e)
      case Ok(genres) => Ok(GenreFlag(g, genres))
  }

  /** The predictor closure: look up the feature, predict from the line of
      best fit, fall back to the mean rating when the line is vertical, and
      clamp. */
  function Predict(t: Tables, fit: Fit, p: Predictor, movie: MovieId): (r: Result<real>)
    requires GraphContract(fit)
    ensures r.Ok? ==> MinRating <= r.value <= MaxRating
    ensures Feature(t, p.kind, movie).Err? ==> r == Err(Feature(t, p.kind, movie).error)
    ensures Feature(t, p.kind, movie).Ok? ==>
              var y := fit(p.points, Feature(t, p.kind, movie).value);
              && (y.Ok? ==> r == Ok(ClampRating(y.value)))
              && (y == Err(VerticalLineOfBestFitGraph) ==> p.points != [] && r == Ok(ClampRating(MeanY(p.points))))
              && (y == Err(EmptyGraph) ==> r == Err(EmptyGraph))
    ensures p.points == [] ==> r.Err?
  {
    match Feature(t, p.kind, movie)
    case Err(e) => Err(e)
    case Ok(x) =>
      match fit(p.points, x)
      case Ok(y) => Ok(ClampRating(y))
      case Err(e) =>
        if e == VerticalLineOfBestFitGraph && p.points != [] then Ok(ClampRating(MeanY(p.points)))
        else Err(e)
  }

  /** The kinds of failure a predictor can raise. */
  lemma PredictErrors(t: Tables, fit: Fit, p: Predictor, movie: MovieId)
    requires GraphContract(fit)
    ensures var r := Predict(t, fit, p, movie);
            r.Err? ==> r.error in {ValueError, NoMovieYear, AssertionFailed, EmptyGraph}
    ensures var r := Predict(t, fit, p, movie);
            p.kind.YearPredictor? && r.Err? ==> r.error in {ValueError, NoMovieYear, EmptyGraph}
    ensures var r := Predict(t, fit, p, movie);
            p.kind.GenrePredictor? && r.Err? ==> r.error in {AssertionFailed, EmptyGraph}
  {
  }

  /** On a valid database a genre predictor fails for a movie of the
      database only when its graph is empty; a year predictor also fails
      when the title has no year. */
  lemma PredictOnValid(t: Tables, fit: Fit, p: Predictor, movie: MovieId)
    requires GraphContract(fit) && Valid(t) && movie in Read.AllMovies(t)
    ensures var r := Predict(t, fit, p, movie);
            r.Err? ==> r.error == EmptyGraph || (p.kind.YearPredictor? && r.error == NoMovieYear)
  {
  }
}
