/**
 * The analysis of the machine learning algorithm: for each user, every
 * predictor is scored by leave-one-out cross-validation (each rated movie in
 * turn is the control, predicted from the user's other ratings), and the
 * predictor with the smallest sum of squared errors (SSE) is stored in the
 * `predictors` table.
 */
module AnalyzeML {
  import opened Exceptions
  import opened Tables
  import opened Constants
  import opened PredictML
  import opened Upsert
  import Read
  import Sets
  import RealArith

  // ----------------------------------------------------------------- SSEs

  /** A sum of squared errors, or `float('inf')`. */
  datatype Sse = Finite(value: real) | Infinite

  /** `a < b` on SSEs; infinity is above every finite sum. */
  predicate Below(a: Sse, b: Sse) {
    a.Finite? && (b.Infinite? || a.value < b.value)
  }

  /** `Below` is a strict total order. */
  lemma BelowOrder(a: Sse, b: Sse, c: Sse)
    ensures !Below(a, a)
    ensures Below(a, b) && Below(b, c) ==> Below(a, c)
    ensures a == b || Below(a, b) || Below(b, a)
  {
  }

  /** `sse += e` on an SSE. */
  function Plus(v: Sse, e: real): Sse {
    match v
    case Finite(x) => Finite(x + e)
    case Infinite => Infinite
  }

  // ------------------------------------------------------- the SSE dict

  /** The `{predictor_name: sse}` dict, as its items in insertion order. */
  type SseDict = seq<(string, Sse)>

  /** The keys of the dict. */
  function Names(d: SseDict): set<string> {
    set e | e in d :: e.0
  }

  /** `d.get(k)`. */
  function Get(d: SseDict, k: string): (v: Option<Sse>)
    ensures v.Some? <==> k in Names(d)
    ensures v.Some? ==> (k, v.value) in d
    decreases |d|
  {
    if d == [] then None
    else if d[0].0 == k then Some(d[0].1)
    else
      assert forall e :: e in d && e.0 == k ==> e in d[1..];
      Get(d[1..], k)
  }

  /** Looking a key up after an item was appended. */
  lemma {:induction false} GetAppend(d: SseDict, x: (string, Sse), k: string)
    ensures Get(d + [x], k) == if k in Names(d) then Get(d, k) else if x.0 == k then Some(x.1) else None
    decreases |d|
  {
    if d != [] {
      assert (d + [x])[1..] == d[1..] + [x];
      assert d[0].0 != k ==> (k in Names(d) <==> k in Names(d[1..])) by {
        assert forall e :: e in d <==> e == d[0] || e in d[1..];
      }
      GetAppend(d[1..], x, k);
    }
  }

  /** An item in front of a dict. */
  lemma ConsFacts(x: (string, Sse), rest: SseDict)
    ensures ([x] + rest)[0] == x && ([x] + rest)[1..] == rest
    ensures forall y :: y in [x] + rest <==> y == x || y in rest
    ensures Names([x] + rest) == {x.0} + Names(rest)
    ensures DistinctKeys([x] + rest) <==> DistinctKeys(rest) && x.0 !in Names(rest)
  {
    var d := [x] + rest;
    assert d[1..] == rest;
    assert forall y :: y in d <==> y == x || y in rest;
    if DistinctKeys(d) {
      forall i, j | 0 <= i < j < |rest| ensures rest[i].0 != rest[j].0 {
        assert d[i + 1] == rest[i] && d[j + 1] == rest[j];
      }
      forall y | y in rest ensures y.0 != x.0 {
        var j :| 0 <= j < |rest| && rest[j] == y;
        assert d[0] == x && d[j + 1] == y && d[0].0 != d[j + 1].0;
      }
    }
    if DistinctKeys(rest) && x.0 !in Names(rest) {
      forall i, j | 0 <= i < j < |d| ensures d[i].0 != d[j].0 {
        assert d[j] == rest[j - 1] && rest[j - 1] in rest;
        if i > 0 {
          assert d[i] == rest[i - 1];
        }
      }
    }
  }

  /** Looking a key up in a dict with an item in front. */
  lemma GetCons(x: (string, Sse), rest: SseDict, k: string)
    ensures Get([x] + rest, k) == if x.0 == k then Some(x.1) else Get(rest, k)
  {
    assert ([x] + rest)[1..] == rest;
  }

  /** `sses.setdefault(name, 0)` followed by `sses[name] += e`: the item
      of that name is updated where it stands, or appended. */
  function Accumulate(d: SseDict, name: string, e: real): (r: SseDict)
    ensures |r| == if name in Names(d) then |d| else |d| + 1
    decreases |d|
  {
    if d == [] then [(name, Finite(0.0 + e))]
    else
      ConsFacts(d[0], d[1..]);
      assert d == [d[0]] + d[1..];
      if d[0].0 == name then [(name, Plus(d[0].1, e))] + d[1..]
      else [d[0]] + Accumulate(d[1..], name, e)
  }

  /** Accumulating adds the name to the keys and keeps them distinct. */
  lemma {:induction false} AccumulateNames(d: SseDict, name: string, e: real)
    ensures Names(Accumulate(d, name, e)) == Names(d) + {name}
    ensures DistinctKeys(d) ==> DistinctKeys(Accumulate(d, name, e))
    decreases |d|
  {
    if d != [] {
      ConsFacts(d[0], d[1..]);
      assert d == [d[0]] + d[1..];
      if d[0].0 == name {
        ConsFacts((name, Plus(d[0].1, e)), d[1..]);
      } else {
        AccumulateNames(d[1..], name, e);
        ConsFacts(d[0], Accumulate(d[1..], name, e));
      }
    }
  }

  /** After accumulating, the name holds its old sum plus the error (from
      zero when it was absent), and every other key is unchanged. */
  lemma {:induction false} AccumulateGet(d: SseDict, name: string, e: real, k: string)
    ensures Get(Accumulate(d, name, e), k) ==
              if k != name then Get(d, k)
              else if name in Names(d) then Some(Plus(Get(d, name).value, e))
              else Some(Finite(e))
    decreases |d|
  {
    if d != [] {
      ConsFacts(d[0], d[1..]);
      assert d == [d[0]] + d[1..];
      GetCons(d[0], d[1..], k);
      GetCons(d[0], d[1..], name);
      if d[0].0 == name {
        GetCons((name, Plus(d[0].1, e)), d[1..], k);
      } else {
        AccumulateGet(d[1..], name, e, k);
        GetCons(d[0], Accumulate(d[1..], name, e), k);
      }
    }
  }

  /** Every item after accumulating was there before, or is the updated
      item of the name. */
  lemma {:induction false} AccumulateItems(d: SseDict, name: string, e: real)
    ensures forall x :: x in Accumulate(d, name, e) ==> x in d || x.0 == name
    decreases |d|
  {
    if d != [] {
      ConsFacts(d[0], d[1..]);
      assert d == [d[0]] + d[1..];
      if d[0].0 == name {
        ConsFacts((name, Plus(d[0].1, e)), d[1..]);
      } else {
        AccumulateItems(d[1..], name, e);
        ConsFacts(d[0], Accumulate(d[1..], name, e));
      }
    }
  }

  /** `sses.setdefault(k, v)`. */
  function SetDefault(d: SseDict, k: string, v: Sse): (r: SseDict)
    ensures Names(r) == Names(d) + {k}
    ensures DistinctKeys(d) ==> DistinctKeys(r)
    ensures Get(r, k) == if k in Names(d) then Get(d, k) else Some(v)
    ensures forall k' :: k' != k ==> Get(r, k') == Get(d, k')
    ensures forall x :: x in r ==> x in d || x == (k, v)
  {
    if k in Names(d) then d
    else
      forall k' ensures Get(d + [(k, v)], k') == if k' in Names(d) then Get(d, k') else if k == k' then Some(v) else None {
        GetAppend(d, (k, v), k');
      }
      var r := d + [(k, v)];
      assert DistinctKeys(d) ==> DistinctKeys(r) by {
        if DistinctKeys(d) {
          forall i, j | 0 <= i < j < |r| ensures r[i].0 != r[j].0 {
            if j == |d| { assert r[i] in d; }
          }
        }
      }
      r
  }

  /** The dict while it is being filled: distinct predictor names, each with
      a finite, non-negative sum. */
  ghost predicate Accumulated(d: SseDict) {
    && DistinctKeys(d)
    && (forall x :: x in d ==> IsPredictorName(x.0))
    && (forall x :: x in d ==> x.1.Finite? && !(x.1.value < 0.0))
  }

  /** Adding a non-negative error under a predictor name keeps the dict
      accumulated. */
  lemma AccumulateKeeps(d: SseDict, name: string, e: real)
    requires Accumulated(d) && IsPredictorName(name) && !(e < 0.0)
    ensures Accumulated(Accumulate(d, name, e))
  {
    var r := Accumulate(d, name, e);
    AccumulateNames(d, name, e);
    AccumulateItems(d, name, e);
    AccumulateGet(d, name, e, name);
    forall x | x in r ensures x.1.Finite? && !(x.1.value < 0.0) {
      if x !in d {
        assert (x.0, Get(r, x.0).value) in r;
        if name in Names(d) {
          assert (name, Get(d, name).value) in d;
        }
      }
    }
  }

  // ------------------------------------------------------------ calc_sse

  /** The predictors of `calc_sse`, in the order of its dict: the year
      predictor, then one per genre in the fixed order of `GenreList`
      (Python's own order for the GENRES set depends on string hashing, and
      changes only which of equal SSEs `min_sse` names). */
  function PredictorKinds(): (kinds: seq<PredictorKind>)
    ensures |kinds| == |GenreList| + 1
    ensures kinds[0] == YearPredictor
    ensures forall i :: 0 <= i < |GenreList| ==> kinds[i + 1] == GenrePredictor(GenreList[i])
    ensures forall k :: k in kinds ==> IsPredictorName(Name(k))
  {
    var kinds := [YearPredictor] + seq(|GenreList|, i requires 0 <= i < |GenreList| => GenrePredictor(GenreList[i]));
    forall k | k in kinds ensures IsPredictorName(Name(k)) {
      var i :| 0 <= i < |kinds| && kinds[i] == k;
      if i > 0 {
        assert GenreList[i - 1] in GenreList;
      }
    }
    kinds
  }

  /** The predictor of the given kind, made without the control movie,
      predicts the control movie. */
  ghost predicate Produces(t: Tables, fit: Fit, user: UserId, movie: MovieId, kind: PredictorKind)
    requires GraphContract(fit)
  {
    Predict(t, fit, PredictorFor(t, user, kind, Some(movie)), movie).Ok?
  }

  /** One (control movie, predictor) step of `calc_sse`, given the
      prediction and the actual rating: the squared error is added under
      the predictor's name; NoMovieYearError and EmptyGraphError skip the
      step; any other failure ends the analysis. */
  function AddPrediction(d: SseDict, name: string, predicted: Result<real>, actual: Result<real>): Result<SseDict> {
    match predicted
    case Err(e) => if e == NoMovieYear || e == EmptyGraph then Ok(d) else Err(e)
    case Ok(p) =>
      match actual
      case Err(e) => Err(e)
      case Ok(a) => Ok(Accumulate(d, name, RealArith.Square(p - a)))
  }

  /** A step either skips, adds a non-negative error under the predictor's
      name, or fails. */
  lemma AddPredictionFacts(d: SseDict, name: string, predicted: Result<real>, actual: Result<real>)
    requires Accumulated(d) && IsPredictorName(name)
    ensures var r := AddPrediction(d, name, predicted, actual);
            r.Ok? ==> Accumulated(r.value)
                      && Names(r.value) == Names(d) + (if predicted.Ok? then {name} else {})
  {
    if predicted.Ok? && actual.Ok? {
      var e := RealArith.Square(predicted.value - actual.value);
      RealArith.SquareNonnegative(predicted.value - actual.value);
      AccumulateKeeps(d, name, e);
      AccumulateNames(d, name, e);
    }
  }

  /** One step of `calc_sse`: the predictor of the given kind, made without
      the control movie, predicts it, and the user's rating of it is read. */
  function SseStep(t: Tables, fit: Fit, user: UserId, movie: MovieId, kind: PredictorKind,
                   d: SseDict): Result<SseDict>
    requires GraphContract(fit)
  {
    AddPrediction(d, Name(kind), Predict(t, fit, PredictorFor(t, user, kind, Some(movie)), movie),
                  Read.Rating(t, user, movie))
  }

  /** The steps of one control movie, over the predictors in order. */
  function MovieSses(t: Tables, fit: Fit, user: UserId, movie: MovieId, kinds: seq<PredictorKind>,
                     d: SseDict): Result<SseDict>
    requires GraphContract(fit)
    decreases |kinds|
  {
    if kinds == [] then Ok(d)
    else
      match MovieSses(t, fit, user, movie, kinds[..|kinds| - 1], d)
      case Err(e) => Err(e)
      case Ok(d') => SseStep(t, fit, user, movie, kinds[|kinds| - 1], d')
  }

  /** The steps of all control movies, in order. */
  function AllSses(t: Tables, fit: Fit, user: UserId, movies: seq<MovieId>): Result<SseDict>
    requires GraphContract(fit)
    decreases |movies|
  {
    if movies == [] then Ok([])
    else
      match AllSses(t, fit, user, movies[..|movies| - 1])
      case Err(e) => Err(e)
      case Ok(d) => MovieSses(t, fit, user, movies[|movies| - 1], PredictorKinds(), d)
  }

  /** `calc_sse` over the rated movies in the given order: the SSE dict,
      with 'year' set to infinity if the year predictor never predicted. */
  function CalcSseSpec(t: Tables, fit: Fit, user: UserId, movies: seq<MovieId>): (r: Result<SseDict>)
    requires GraphContract(fit)
    ensures r.Ok? ==> "year" in Names(r.value) && r.value != []
  {
    match AllSses(t, fit, user, movies)
    case Err(e) => Err(e)
    case Ok(d) =>
      var r := SetDefault(d, "year", Infinite);
      assert r != [] by { assert "year" in Names(r); }
      Ok(r)
  }

  /** An item list of the set: each element once. */
  ghost predicate IsListing(movies: seq<MovieId>, s: set<MovieId>) {
    && (forall m :: m in movies <==> m in s)
    && (forall i, j :: 0 <= i < j < |movies| ==> movies[i] != movies[j])
  }

  /** One step either skips, adds a non-negative error under the
      predictor's name, or fails. */
  lemma SseStepFacts(t: Tables, fit: Fit, user: UserId, movie: MovieId, kind: PredictorKind, d: SseDict)
    requires GraphContract(fit) && Accumulated(d) && IsPredictorName(Name(kind))
    ensures var r := SseStep(t, fit, user, movie, kind, d);
            r.Ok? ==> Accumulated(r.value)
                      && Names(r.value) == Names(d) + (if Produces(t, fit, user, movie, kind) then {Name(kind)} else {})
  {
    AddPredictionFacts(d, Name(kind), Predict(t, fit, PredictorFor(t, user, kind, Some(movie)), movie),
                       Read.Rating(t, user, movie));
  }

  /** The names one control movie adds: those of the predictors that
      predicted it. */
  lemma {:induction false} MovieSsesFacts(t: Tables, fit: Fit, user: UserId, movie: MovieId,
                                          kinds: seq<PredictorKind>, d: SseDict)
    requires GraphContract(fit) && Accumulated(d)
    requires forall k :: k in kinds ==> IsPredictorName(Name(k))
    ensures var r := MovieSses(t, fit, user, movie, kinds, d);
            r.Ok? ==> Accumulated(r.value)
                      && forall n :: n in Names(r.value) <==>
                           n in Names(d) || exists k :: k in kinds && Produces(t, fit, user, movie, k) && n == Name(k)
    decreases |kinds|
  {
    if kinds != [] {
      var init, last := kinds[..|kinds| - 1], kinds[|kinds| - 1];
      assert forall k :: k in kinds <==> k in init || k == last;
      MovieSsesFacts(t, fit, user, movie, init, d);
      var r := MovieSses(t, fit, user, movie, init, d);
      if r.Ok? {
        SseStepFacts(t, fit, user, movie, last, r.value);
      }
    }
  }

  /** The names of the accumulated dict: those of the predictors that
      predicted at least one control movie. */
  lemma {:induction false} AllSsesFacts(t: Tables, fit: Fit, user: UserId, movies: seq<MovieId>)
    requires GraphContract(fit)
    ensures var r := AllSses(t, fit, user, movies);
            r.Ok? ==> Accumulated(r.value)
                      && forall n :: n in Names(r.value) <==>
                           exists m, k :: m in movies && k in PredictorKinds() && Produces(t, fit, user, m, k) && n == Name(k)
    decreases |movies|
  {
    if movies != [] {
      var init, last := movies[..|movies| - 1], movies[|movies| - 1];
      assert forall m :: m in movies <==> m in init || m == last;
      AllSsesFacts(t, fit, user, init);
      var r := AllSses(t, fit, user, init);
      if r.Ok? {
        MovieSsesFacts(t, fit, user, last, PredictorKinds(), r.value);
      }
    }
  }

  /** The dict `calc_sse` returns has distinct predictor names, always
      holds 'year', and holds a finite, non-negative sum under every name
      except possibly an infinite one under 'year'. */
  lemma CalcSseShape(t: Tables, fit: Fit, user: UserId, movies: seq<MovieId>)
    requires GraphContract(fit)
    ensures var r := CalcSseSpec(t, fit, user, movies);
            r.Ok? ==>
              && DistinctKeys(r.value)
              && (forall x :: x in r.value ==> IsPredictorName(x.0))
              && "year" in Names(r.value)
              && (forall x :: x in r.value ==>
                    (x.1.Finite? && !(x.1.value < 0.0)) || (x.0 == "year" && x.1 == Infinite))
  {
    AllSsesFacts(t, fit, user, movies);
    assert IsPredictorName("year");
  }

  /** 'year' maps to infinity exactly when the year predictor predicted no
      control movie. */
  lemma CalcSseYear(t: Tables, fit: Fit, user: UserId, movies: seq<MovieId>)
    requires GraphContract(fit)
    ensures var r := CalcSseSpec(t, fit, user, movies);
            r.Ok? ==> (Get(r.value, "year") == Some(Infinite) <==>
                         forall m :: m in movies ==> !Produces(t, fit, user, m, YearPredictor))
  {
    AllSsesFacts(t, fit, user, movies);
    var a := AllSses(t, fit, user, movies);
    if a.Ok? {
      var d := a.value;
      assert "year" in Names(d) ==> Get(d, "year").value.Finite? by {
        if "year" in Names(d) { assert ("year", Get(d, "year").value) in d; }
      }
      if "year" in Names(d) {
        var m, k :| m in movies && k in PredictorKinds() && Produces(t, fit, user, m, k) && "year" == Name(k);
        NameInjective(k, YearPredictor);
      }
      if exists m :: m in movies && Produces(t, fit, user, m, YearPredictor) {
        assert PredictorKinds()[0] == YearPredictor;
      }
    }
  }

  /** A genre's key is present exactly when that genre's predictor predicted
      some control movie. */
  lemma CalcSseGenre(t: Tables, fit: Fit, user: UserId, movies: seq<MovieId>, g: string)
    requires GraphContract(fit) && g in Genres
    ensures var r := CalcSseSpec(t, fit, user, movies);
            r.Ok? ==> ("genre:" + g in Names(r.value) <==>
                         exists m :: m in movies && Produces(t, fit, user, m, GenrePredictor(g)))
  {
    AllSsesFacts(t, fit, user, movies);
    var a := AllSses(t, fit, user, movies);
    if a.Ok? {
      var d := a.value;
      var n := "genre:" + g;
      if n in Names(d) {
        var m, k :| m in movies && k in PredictorKinds() && Produces(t, fit, user, m, k) && n == Name(k);
        NameInjective(k, GenrePredictor(g));
      }
      if exists m :: m in movies && Produces(t, fit, user, m, GenrePredictor(g)) {
        GenreKindListed(g);
      }
    }
  }

  /** On a valid database, a control movie the user rated and the database
      lists never makes a step fail: a predictor either predicts it or
      skips it. */
  lemma {:induction false} MovieSsesTotal(t: Tables, fit: Fit, user: UserId, movie: MovieId,
                                          kinds: seq<PredictorKind>, d: SseDict)
    requires GraphContract(fit) && Valid(t)
    requires movie in Read.AllMovies(t) && Read.HasRated(t, user, movie)
    ensures MovieSses(t, fit, user, movie, kinds, d).Ok?
    decreases |kinds|
  {
    if kinds != [] {
      var init, last := kinds[..|kinds| - 1], kinds[|kinds| - 1];
      MovieSsesTotal(t, fit, user, movie, init, d);
      PredictOnValid(t, fit, PredictorFor(t, user, last, Some(movie)), movie);
    }
  }

  /** On a valid database whose rated movies are all listed in `movies`,
      `calc_sse` does not fail. */
  lemma {:induction false} CalcSseTotal(t: Tables, fit: Fit, user: UserId, movies: seq<MovieId>)
    requires GraphContract(fit) && Valid(t)
    requires forall m :: m in movies ==> m in Read.AllMovies(t) && Read.HasRated(t, user, m)
    ensures CalcSseSpec(t, fit, user, movies).Ok?
    decreases |movies|
  {
    if movies != [] {
      var init := movies[..|movies| - 1];
      assert forall m :: m in init ==> m in movies;
      CalcSseTotal(t, fit, user, init);
      MovieSsesTotal(t, fit, user, movies[|movies| - 1], PredictorKinds(), AllSses(t, fit, user, init).value);
    }
  }

  /** Every genre of GENRES has its predictor among the factories. */
  lemma GenreKindListed(g: string)
    requires g in Genres
    ensures GenrePredictor(g) in PredictorKinds()
  {
    var i :| 0 <= i < |GenreList| && GenreList[i] == g;
    assert PredictorKinds()[i + 1] == GenrePredictor(g);
  }

  /** Different predictors have different names. */
  lemma NameInjective(a: PredictorKind, b: PredictorKind)
    requires Name(a) == Name(b)
    ensures a == b
  {
    if a.GenrePredictor? && b.GenrePredictor? {
      assert a.genre == Name(a)[6..] && b.genre == Name(b)[6..];
    }
  }

  // -------------------------------------------------------------- methods

  /** `for movie_id in rated_movies`: the set's elements, each once, in an
      order the model leaves open. */
  method ListRated(rated: set<MovieId>) returns (movies: seq<MovieId>)
    ensures IsListing(movies, rated)
  {
    movies := [];
    var remaining := rated;
    while remaining != {}
      invariant remaining <= rated
      invariant forall m :: m in movies <==> m in rated && m !in remaining
      invariant forall i, j :: 0 <= i < j < |movies| ==> movies[i] != movies[j]
      decreases |remaining|
    {
      ghost var some := Sets.Element(remaining);
      var m :| m in remaining;
      forall i | 0 <= i < |movies| ensures movies[i] != m {
        assert movies[i] in movies;
      }
      movies := movies + [m];
      remaining := remaining - {m};
    }
  }

  /** The `predictors` dict of one control movie: every predictor made
      without that movie. */
  method MakePredictors(t: Tables, user: UserId, movie: MovieId) returns (predictors: seq<Predictor>)
    ensures |predictors| == |PredictorKinds()|
    ensures forall i :: 0 <= i < |predictors| ==>
              predictors[i] == PredictorFor(t, user, PredictorKinds()[i], Some(movie))
  {
    var year := MakeYearPredictor(t, user, Some(movie));
    var genres := MakeGenrePredictors(t, user, movie, GenreList);
    predictors := [year] + genres;
    forall i | 0 <= i < |predictors|
      ensures predictors[i] == PredictorFor(t, user, PredictorKinds()[i], Some(movie))
    {
      if i > 0 {
        assert predictors[i] == genres[i - 1];
      }
    }
  }

  /** The genre predictors, one per genre in order, each made without the
      control movie. */
  method MakeGenrePredictors(t: Tables, user: UserId, movie: MovieId, genres: seq<string>)
    returns (predictors: seq<Predictor>)
    ensures |predictors| == |genres|
    ensures forall i :: 0 <= i < |genres| ==>
              predictors[i] == PredictorFor(t, user, GenrePredictor(genres[i]), Some(movie))
  {
    predictors := [];
    for i := 0 to |genres|
      invariant |predictors| == i
      invariant forall k :: 0 <= k < i ==> predictors[k] == PredictorFor(t, user, GenrePredictor(genres[k]), Some(movie))
    {
      var p := MakeGenrePredictor(genres[i], t, user, Some(movie));
      predictors := predictors + [p];
    }
  }

  /** A failure part way through a control movie is the failure of the
      whole movie. */
  lemma {:induction false} MovieSsesPrefixErr(t: Tables, fit: Fit, user: UserId, movie: MovieId,
                                              kinds: seq<PredictorKind>, j: nat, d: SseDict)
    requires GraphContract(fit) && j <= |kinds|
    requires MovieSses(t, fit, user, movie, kinds[..j], d).Err?
    ensures MovieSses(t, fit, user, movie, kinds, d) == MovieSses(t, fit, user, movie, kinds[..j], d)
    decreases |kinds| - j
  {
    if j < |kinds| {
      assert kinds[..j + 1][..j] == kinds[..j];
      MovieSsesPrefixErr(t, fit, user, movie, kinds, j + 1, d);
    } else {
      assert kinds[..j] == kinds;
    }
  }

  /** A failure at one control movie is the failure of the analysis. */
  lemma {:induction false} AllSsesPrefixErr(t: Tables, fit: Fit, user: UserId, movies: seq<MovieId>, j: nat)
    requires GraphContract(fit) && j <= |movies|
    requires AllSses(t, fit, user, movies[..j]).Err?
    ensures AllSses(t, fit, user, movies) == AllSses(t, fit, user, movies[..j])
    decreases |movies| - j
  {
    if j < |movies| {
      assert movies[..j + 1][..j] == movies[..j];
      AllSsesPrefixErr(t, fit, user, movies, j + 1);
    } else {
      assert movies[..j] == movies;
    }
  }

  /** One pass of the inner loop of `calc_sse`: call the predictor on the
      control movie and, unless it skips, read the actual rating and add the
      squared error. */
  method PredictorStep(t: Tables, fit: Fit, user: UserId, movie: MovieId, pred: Predictor, sses: SseDict)
    returns (r: Result<SseDict>)
    requires GraphContract(fit)
    ensures r == AddPrediction(sses, Name(pred.kind), Predict(t, fit, pred, movie), Read.Rating(t, user, movie))
  {
    var predicted := Predict(t, fit, pred, movie);
    if predicted.Err? {
      if predicted.error == NoMovieYear || predicted.error == EmptyGraph {
        return Ok(sses);
      }
      return Err(predicted.error);
    }
    var actual := Read.Rating(t, user, movie);
    if actual.Err? {
      return Err(actual.error);
    }
    r := Ok(Accumulate(sses, Name(pred.kind), RealArith.Square(predicted.value - actual.value)));
  }

  /** The inner loop of `calc_sse` for one control movie. */
  method MovieStep(t: Tables, fit: Fit, user: UserId, movie: MovieId, d: SseDict) returns (r: Result<SseDict>)
    requires GraphContract(fit)
    ensures r == MovieSses(t, fit, user, movie, PredictorKinds(), d)
  {
    var predictors := MakePredictors(t, user, movie);
    r := PredictorSteps(t, fit, user, movie, predictors, PredictorKinds(), d);
  }

  /** The predictors called in order on the control movie, stopping at the
      first failure. */
  method PredictorSteps(t: Tables, fit: Fit, user: UserId, movie: MovieId, predictors: seq<Predictor>,
                        ghost kinds: seq<PredictorKind>, d: SseDict) returns (r: Result<SseDict>)
    requires GraphContract(fit) && |predictors| == |kinds|
    requires forall i :: 0 <= i < |kinds| ==> predictors[i] == PredictorFor(t, user, kinds[i], Some(movie))
    ensures r == MovieSses(t, fit, user, movie, kinds, d)
  {
    var sses := d;
    for j := 0 to |predictors|
      invariant MovieSses(t, fit, user, movie, kinds[..j], d) == Ok(sses)
    {
      assert kinds[..j + 1][..j] == kinds[..j] && kinds[..j + 1][j] == kinds[j];
      var step := PredictorStep(t, fit, user, movie, predictors[j], sses);
      assert step == SseStep(t, fit, user, movie, kinds[j], sses);
      assert MovieSses(t, fit, user, movie, kinds[..j + 1], d) == step;
      if step.Err? {
        MovieSsesPrefixErr(t, fit, user, movie, kinds, j + 1, d);
        return step;
      }
      sses := step.value;
    }
    assert kinds[..|kinds|] == kinds;
    r := Ok(sses);
  }


  /** `calc_sse`: the SSE of every predictor over the user's rated movies,
      in the order the set of rated movies is iterated. */
  method CalcSse(t: Tables, fit: Fit, user: UserId) returns (r: Result<SseDict>, ghost movies: seq<MovieId>)
    requires GraphContract(fit)
    ensures IsListing(movies, Read.RatedMovies(t, {user}))
    ensures r == CalcSseSpec(t, fit, user, movies)
    ensures r.Ok? ==> "year" in Names(r.value)
  {
    var rated := ListRated(Read.RatedMovies(t, {user}));
    movies := rated;
    var sses: SseDict := [];
    for i := 0 to |rated|
      invariant AllSses(t, fit, user, rated[..i]) == Ok(sses)
    {
      assert rated[..i + 1][..i] == rated[..i];
      var step := MovieStep(t, fit, user, rated[i], sses);
      if step.Err? {
        AllSsesPrefixErr(t, fit, user, rated, i + 1);
        r := Err(step.error);
        return;
      }
      sses := step.value;
    }
    assert rated[..|rated|] == rated;
    sses := SetDefault(sses, "year", Infinite);
    assert "year" in Names(sses);
    r := Ok(sses);
  }

  // ------------------------------------------------------------- min_sse

  /** The item `min_sse` picks: popping from the most recent item, a later
      pop replaces the best only when its SSE is strictly smaller, so the
      pick is the most recently inserted item of smallest SSE. */
  function BestOf(items: SseDict): (best: (string, Sse))
    requires items != []
    ensures best in items
    ensures forall j :: 0 <= j < |items| ==> !Below(items[j].1, best.1)
    ensures exists i :: 0 <= i < |items| && items[i] == best
                        && forall j :: i < j < |items| ==> Below(best.1, items[j].1)
    decreases |items|
  {
    if |items| == 1 then items[0]
    else
      var rest := items[1..];
      var b := BestOf(rest);
      var i :| 0 <= i < |rest| && rest[i] == b && forall j :: i < j < |rest| ==> Below(b.1, rest[j].1);
      assert forall j :: 1 <= j < |items| ==> items[j] == rest[j - 1];
      if Below(items[0].1, b.1) then
        forall j | 0 < j < |items| ensures Below(items[0].1, items[j].1) {
          BelowOrder(items[0].1, b.1, items[j].1);
          BelowOrder(items[j].1, b.1, items[j].1);
        }
        items[0]
      else
        assert items[i + 1] == b;
        b
  }

  /** The SSE `min_sse` picks does not depend on the insertion order of the
      dict: reordering the items (as another iteration order of GENRES
      would) can change only which of several equal SSEs is named. */
  lemma BestOfOrderFree(a: SseDict, b: SseDict)
    requires a != [] && multiset(a) == multiset(b)
    ensures b != [] && BestOf(a).1 == BestOf(b).1
    ensures BestOf(b) in a
  {
    assert a[0] in multiset(b);
    var x, y := BestOf(a), BestOf(b);
    assert x in multiset(b) && y in multiset(a);
    BelowOrder(x.1, y.1, x.1);
  }

  /** Popping one more item, the earlier one, replaces the best only when
      its SSE is strictly smaller. */
  lemma BestOfStep(all: SseDict, k: nat)
    requires 0 < k < |all|
    ensures all[k - 1..][1..] == all[k..]
    ensures BestOf(all[k - 1..]) == if Below(all[k - 1].1, BestOf(all[k..]).1) then all[k - 1] else BestOf(all[k..])
  {
    assert all[k - 1..][1..] == all[k..];
  }

  /** The dict `min_sse` is given, which it empties. */
  class SseTable {
    var items: SseDict

    constructor (items: SseDict)
      ensures this.items == items
    {
      this.items := items;
    }

    /** `popitem`: removes and returns the most recently inserted item;
        KeyError on an empty dict. */
    method PopItem() returns (r: Result<(string, Sse)>)
      modifies this
      ensures old(items) == [] ==> r == Err(KeyError) && items == []
      ensures old(items) != [] ==> r == Ok(old(items)[|old(items)| - 1]) && items == old(items)[..|old(items)| - 1]
    {
      if items == [] {
        r := Err(KeyError);
      } else {
        r := Ok(items[|items| - 1]);
        items := items[..|items| - 1];
      }
    }
  }

  /** `min_sse`: pops every item and keeps the one with the smallest SSE;
      KeyError on an empty dict, which is left empty in every case. */
  method MinSse(sses: SseTable) returns (r: Result<string>)
    modifies sses
    ensures sses.items == []
    ensures old(sses.items) == [] ==> r == Err(KeyError)
    ensures old(sses.items) != [] ==> r == Ok(BestOf(old(sses.items)).0)
  {
    ghost var all := sses.items;
    var first := sses.PopItem();
    if first.Err? {
      return Err(first.error);
    }
    var best := first.value;
    ghost var n := |all| - 1;
    assert all[n..] == [best];
    while sses.items != []
      invariant 0 <= n < |all| && sses.items == all[..n]
      invariant best == BestOf(all[n..])
      decreases n
    {
      var item := sses.PopItem();
      assert item.value == all[n - 1] && sses.items == all[..n - 1] by {
        assert all[..n][..n - 1] == all[..n - 1];
      }
      var name, sse := item.value.0, item.value.1;
      BestOfStep(all, n);
      if Below(sse, best.1) {
        best := (name, sse);
      }
      n := n - 1;
    }
    assert all[0..] == all;
    r := Ok(best.0);
  }

  // --------------------------------------------------------- analyze_user

  /** `calc_sse` reads ratings and movies, never `predictors`, so a write of
      another user's predictor does not change it. */
  lemma {:induction false} CalcSseIgnoresPredictors(t: Tables, p: map<UserId, string>, fit: Fit, user: UserId,
                                                    movies: seq<MovieId>)
    requires GraphContract(fit)
    ensures CalcSseSpec(t.(predictors := p), fit, user, movies) == CalcSseSpec(t, fit, user, movies)
  {
    AllSsesIgnoresPredictors(t, p, fit, user, movies);
  }

  lemma {:induction false} AllSsesIgnoresPredictors(t: Tables, p: map<UserId, string>, fit: Fit, user: UserId,
                                                    movies: seq<MovieId>)
    requires GraphContract(fit)
    ensures AllSses(t.(predictors := p), fit, user, movies) == AllSses(t, fit, user, movies)
    decreases |movies|
  {
    if movies != [] {
      AllSsesIgnoresPredictors(t, p, fit, user, movies[..|movies| - 1]);
      match AllSses(t, fit, user, movies[..|movies| - 1])
      case Err(_) =>
      case Ok(d) => MovieSsesIgnoresPredictors(t, p, fit, user, movies[|movies| - 1], PredictorKinds(), d);
    }
  }

  lemma {:induction false} MovieSsesIgnoresPredictors(t: Tables, p: map<UserId, string>, fit: Fit, user: UserId,
                                                      movie: MovieId, kinds: seq<PredictorKind>, d: SseDict)
    requires GraphContract(fit)
    ensures MovieSses(t.(predictors := p), fit, user, movie, kinds, d) == MovieSses(t, fit, user, movie, kinds, d)
    decreases |kinds|
  {
    if kinds != [] {
      MovieSsesIgnoresPredictors(t, p, fit, user, movie, kinds[..|kinds| - 1], d);
      match MovieSses(t, fit, user, movie, kinds[..|kinds| - 1], d)
      case Err(_) =>
      case Ok(d') => SseStepIgnoresPredictors(t, p, fit, user, movie, kinds[|kinds| - 1], d');
    }
  }

  lemma SseStepIgnoresPredictors(t: Tables, p: map<UserId, string>, fit: Fit, user: UserId,
                                 movie: MovieId, kind: PredictorKind, d: SseDict)
    requires GraphContract(fit)
    ensures SseStep(t.(predictors := p), fit, user, movie, kind, d) == SseStep(t, fit, user, movie, kind, d)
  {
    var t' := t.(predictors := p);
    assert PredictorFor(t', user, kind, Some(movie)) == PredictorFor(t, user, kind, Some(movie));
    assert Read.Title(t', movie) == Read.Title(t, movie);
    assert Read.Genres(t', movie) == Read.Genres(t, movie);
    assert Feature(t', kind, movie) == Feature(t, kind, movie);
    assert Read.Rating(t', user, movie) == Read.Rating(t, user, movie);
  }

  /** The predictor `analyze_user` picks is one `make_predictor` resolves. */
  lemma ChosenPredictorResolves(t: Tables, fit: Fit, user: UserId, movies: seq<MovieId>)
    requires GraphContract(fit) && CalcSseSpec(t, fit, user, movies).Ok?
    ensures IsPredictorName(BestOf(CalcSseSpec(t, fit, user, movies).value).0)
    ensures GetPredictorFactory(BestOf(CalcSseSpec(t, fit, user, movies).value).0).Ok?
  {
    CalcSseShape(t, fit, user, movies);
  }

  /** `analyze_user`: without `overwrite` a user who already has a
      predictor is left alone; otherwise the predictor of smallest SSE is
      upserted for this user, and no other row changes. */
  method AnalyzeUser(db: Database, user: UserId, overwrite: bool, fit: Fit)
    returns (r: Result<()>, ghost movies: seq<MovieId>)
    requires GraphContract(fit)
    modifies db
    ensures !overwrite && user in old(db.tables.predictors) ==> r.Ok? && db.tables == old(db.tables)
    ensures overwrite || user !in old(db.tables.predictors) ==>
              && IsListing(movies, Read.RatedMovies(old(db.tables), {user}))
              && (CalcSseSpec(old(db.tables), fit, user, movies).Err? ==>
                    r == Err(CalcSseSpec(old(db.tables), fit, user, movies).error) && db.tables == old(db.tables))
              && (CalcSseSpec(old(db.tables), fit, user, movies).Ok? ==>
                    r.Ok? && db.tables == old(db.tables).(predictors := old(db.tables.predictors)[
                               user := BestOf(CalcSseSpec(old(db.tables), fit, user, movies).value).0]))
  {
    if !overwrite && user in db.tables.predictors {
      return Ok(()), [];
    }
    var sses;
    sses, movies := CalcSse(db.tables, fit, user);
    if sses.Err? {
      return Err(sses.error), movies;
    }
    var table := new SseTable(sses.value);
    var predictor := MinSse(table);
    db.tables := db.tables.(predictors := db.tables.predictors[user := predictor.value]);
    r := Ok(());
  }

  /** The row `analyze_user` writes for a user it analyses: the predictor
      of smallest SSE over a listing of the user's rated movies in `t`. */
  ghost predicate Analysed(t: Tables, fit: Fit, user: UserId, movies: seq<MovieId>, predictors: map<UserId, string>)
    requires GraphContract(fit)
  {
    && IsListing(movies, Read.RatedMovies(t, {user}))
    && CalcSseSpec(t, fit, user, movies).Ok?
    && user in predictors
    && predictors[user] == BestOf(CalcSseSpec(t, fit, user, movies).value).0
  }

  /** The predictors after `analyze_user` has run for each of `reached`,
      starting from `t0`: rows of users not reached are untouched, a user
      skipped keeps the row it had, and a user analysed holds its
      `min_sse(calc_sse(user))` over `t0`. */
  ghost predicate UsersAnalysed(t0: Tables, fit: Fit, overwrite: bool, reached: seq<UserId>,
                                listing: map<UserId, seq<MovieId>>, predictors: map<UserId, string>)
    requires GraphContract(fit)
  {
    && (forall u :: u !in reached ==>
          (u in predictors <==> u in t0.predictors)
          && (u in t0.predictors ==> predictors[u] == t0.predictors[u]))
    && (forall u :: u in reached && !overwrite && u in t0.predictors ==>
          u in predictors && predictors[u] == t0.predictors[u])
    && (forall u :: u in reached && (overwrite || u !in t0.predictors) ==>
          u in listing && Analysed(t0, fit, u, listing[u], predictors))
  }

  /** Analysing one more user writes its `min_sse` and keeps every other row. */
  lemma AnalysedStep(t0: Tables, fit: Fit, overwrite: bool, reached: seq<UserId>,
                     listing: map<UserId, seq<MovieId>>, predictors: map<UserId, string>,
                     user: UserId, movies: seq<MovieId>)
    requires GraphContract(fit)
    requires UsersAnalysed(t0, fit, overwrite, reached, listing, predictors)
    requires overwrite || user !in predictors
    requires IsListing(movies, Read.RatedMovies(t0, {user})) && CalcSseSpec(t0, fit, user, movies).Ok?
    ensures UsersAnalysed(t0, fit, overwrite, reached + [user], listing[user := movies],
                          predictors[user := BestOf(CalcSseSpec(t0, fit, user, movies).value).0])
  {
    var after := predictors[user := BestOf(CalcSseSpec(t0, fit, user, movies).value).0];
    var listing' := listing[user := movies];
    forall u | u in reached + [user] && (overwrite || u !in t0.predictors)
      ensures u in listing' && Analysed(t0, fit, u, listing'[u], after)
    {
      if u != user {
        assert u in reached;
      }
    }
    forall u | u in reached + [user] && !overwrite && u in t0.predictors
      ensures u in after && after[u] == t0.predictors[u]
    {
      if u == user {
        assert false;
      }
      assert u in reached;
    }
  }

  /** Skipping a user that already has a row changes nothing. */
  lemma SkippedStep(t0: Tables, fit: Fit, overwrite: bool, reached: seq<UserId>,
                    listing: map<UserId, seq<MovieId>>, predictors: map<UserId, string>, user: UserId)
    requires GraphContract(fit)
    requires UsersAnalysed(t0, fit, overwrite, reached, listing, predictors)
    requires !overwrite && user in predictors
    ensures UsersAnalysed(t0, fit, overwrite, reached + [user], listing, predictors)
  {
    forall u | u in reached + [user] && !overwrite && u in t0.predictors
      ensures u in predictors && predictors[u] == t0.predictors[u]
    {
      if u !in reached {
        assert u == user;
      }
    }
    forall u | u in reached + [user] && (overwrite || u !in t0.predictors)
      ensures u in listing && Analysed(t0, fit, u, listing[u], predictors)
    {
      if u !in reached {
        assert false;
      }
    }
  }

  /** Every user reached has a row, and every analysed user's row names a
      predictor. */
  lemma UsersAnalysedFacts(t0: Tables, fit: Fit, overwrite: bool, reached: seq<UserId>,
                           listing: map<UserId, seq<MovieId>>, predictors: map<UserId, string>)
    requires GraphContract(fit)
    requires UsersAnalysed(t0, fit, overwrite, reached, listing, predictors)
    ensures forall u :: u in reached ==> u in predictors
    ensures forall u :: u in reached && (overwrite || u !in t0.predictors) ==> IsPredictorName(predictors[u])
  {
    forall u | u in reached && (overwrite || u !in t0.predictors) ensures IsPredictorName(predictors[u]) {
      ChosenPredictorResolves(t0, fit, u, listing[u]);
    }
  }

  /** `analyze_users`: a pool of `jobs` processes (ValueError below one)
      analyses each user in turn. Only `predictors` changes, and only the
      rows of the users reached: the first `done`, or all on success. A user
      analysed holds `min_sse(calc_sse(user))` over the tables as they were
      at the start, a user skipped keeps the row it had, and on failure the
      user at `done` is the one whose analysis failed. */
  method AnalyzeUsers(db: Database, users: seq<UserId>, overwrite: bool, jobs: int, fit: Fit)
    returns (r: Result<()>, ghost done: nat, ghost listing: map<UserId, seq<MovieId>>, ghost failed: seq<MovieId>)
    requires GraphContract(fit)
    modifies db
    ensures jobs < 1 ==> r == Err(ValueError) && db.tables == old(db.tables)
    ensures db.tables == old(db.tables).(predictors := db.tables.predictors)
    ensures done <= |users| && (r.Ok? ==> done == |users|)
    ensures forall u :: u !in users[..done] ==>
              (u in db.tables.predictors <==> u in old(db.tables.predictors))
              && (u in old(db.tables.predictors) ==> db.tables.predictors[u] == old(db.tables.predictors)[u])
    ensures forall u :: u in users[..done] && !overwrite && u in old(db.tables.predictors) ==>
              u in db.tables.predictors && db.tables.predictors[u] == old(db.tables.predictors)[u]
    ensures forall u :: u in users[..done] && (overwrite || u !in old(db.tables.predictors)) ==>
              u in listing && Analysed(old(db.tables), fit, u, listing[u], db.tables.predictors)
    ensures r.Err? && jobs >= 1 ==>
              && done < |users| && (overwrite || users[done] !in db.tables.predictors)
              && IsListing(failed, Read.RatedMovies(old(db.tables), {users[done]}))
              && CalcSseSpec(old(db.tables), fit, users[done], failed) == Err(r.error)
    ensures r.Ok? ==> forall u :: u in users ==> u in db.tables.predictors
    ensures r.Ok? ==> forall u :: u in users && (overwrite || u !in old(db.tables.predictors)) ==>
                        IsPredictorName(db.tables.predictors[u])
  {
    listing := map[];
    if jobs < 1 {
      return Err(ValueError), 0, listing, [];
    }
    ghost var t0 := db.tables;
    var i := 0;
    while i < |users|
      invariant i <= |users|
      invariant db.tables == t0.(predictors := db.tables.predictors)
      invariant UsersAnalysed(t0, fit, overwrite, users[..i], listing, db.tables.predictors)
    {
      var user := users[i];
      assert users[..i + 1] == users[..i] + [user];
      ghost var before := db.tables;
      var step;
      ghost var movies;
      step, movies := AnalyzeUser(db, user, overwrite, fit);
      if overwrite || user !in before.predictors {
        CalcSseIgnoresPredictors(t0, before.predictors, fit, user, movies);
        assert Read.RatedMovies(before, {user}) == Read.RatedMovies(t0, {user});
      }
      if step.Err? {
        UsersAnalysedFacts(t0, fit, overwrite, users[..i], listing, db.tables.predictors);
        return Err(step.error), i, listing, movies;
      }
      if overwrite || user !in before.predictors {
        AnalysedStep(t0, fit, overwrite, users[..i], listing, before.predictors, user, movies);
        listing := listing[user := movies];
      } else {
        SkippedStep(t0, fit, overwrite, users[..i], listing, before.predictors, user);
      }
      i := i + 1;
    }
    assert users[..|users|] == users;
    UsersAnalysedFacts(t0, fit, overwrite, users, listing, db.tables.predictors);
    done, failed := i, [];
    r := Ok(());
  }
}
