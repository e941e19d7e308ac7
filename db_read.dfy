/**
 * The read queries of the movie recommender, as functions of the tables.
 * A query's rows come out in table-row order, which is one of the orders
 * SQLite may produce for a statement without ORDER BY.
 */
module Read {
  import opened Exceptions
  import opened Tables
  import opened DbCommon

  // ---------------------------------------------------------------- sets

  /** `users`: every user who has rated a movie. */
  function Users(t: Tables): set<UserId> {
    set r | r in t.ratings :: r.user
  }

  /** `users_in_avg_ratings`. */
  function UsersInAvgRatings(t: Tables): set<UserId> {
    t.avgRatings.Keys
  }

  /** `all_movies`. */
  function AllMovies(t: Tables): set<MovieId> {
    set m | m in t.movies :: m.id
  }

  /** `rated_movies`: the movies that any of `users` has rated. */
  function RatedMovies(t: Tables, users: set<UserId>): set<MovieId> {
    set r | r in t.ratings && r.user in users :: r.movie
  }

  /** The user has a row in `ratings` for the movie. */
  predicate HasRated(t: Tables, user: UserId, movie: MovieId) {
    exists r :: r in t.ratings && r.user == user && r.movie == movie
  }

  // ------------------------------------------------------- single values

  /** The number of rows in `rows` for the (user, movie) key. */
  function KeyCount(rows: seq<RatingRow>, user: UserId, movie: MovieId): nat
    decreases |rows|
  {
    if rows == [] then 0
    else KeyCount(rows[..|rows| - 1], user, movie)
         + (if rows[|rows| - 1].user == user && rows[|rows| - 1].movie == movie then 1 else 0)
  }

  /** `rating`: the query must return exactly one row; the source asserts it. */
  function Rating(t: Tables, user: UserId, movie: MovieId): (r: Result<real>)
    ensures r.Ok? ==> RatingRow(user, movie, r.value) in t.ratings
    ensures Valid(t) ==> (r.Ok? <==> HasRated(t, user, movie))
    ensures r.Err? ==> r.error == AssertionFailed
  {
    RatingCountFacts(t.ratings, user, movie);
    if KeyCount(t.ratings, user, movie) != 1 then Err(AssertionFailed)
    else Ok(FindRating(t.ratings, user, movie))
  }

  /** The rating of the first row for (user, movie). */
  function FindRating(rows: seq<RatingRow>, user: UserId, movie: MovieId): (v: real)
    requires exists r :: r in rows && r.user == user && r.movie == movie
    ensures RatingRow(user, movie, v) in rows
  {
    if rows[0].user == user && rows[0].movie == movie then rows[0].rating
    else FindRating(rows[1..], user, movie)
  }

  /** A key has a row iff its count is positive, and under the primary key
      the count is at most one. */
  lemma {:induction false} RatingCountFacts(rows: seq<RatingRow>, user: UserId, movie: MovieId)
    ensures KeyCount(rows, user, movie) > 0 <==> exists r :: r in rows && r.user == user && r.movie == movie
    ensures UniqueKeys(rows) ==> KeyCount(rows, user, movie) <= 1
    decreases |rows|
  {
    if rows != [] {
      var prefix := rows[..|rows| - 1];
      var last := rows[|rows| - 1];
      RatingCountFacts(prefix, user, movie);
      assert forall r :: r in rows <==> r in prefix || r == last by {
        assert rows == prefix + [last];
      }
    }
  }

  /** `avg_rating`: raises MissingAverageRatingError when there is no row. */
  function AvgRating(t: Tables, user: UserId): (r: Result<real>)
    ensures r.Ok? <==> user in t.avgRatings
    ensures r.Ok? ==> r.value == t.avgRatings[user]
    ensures r.Err? ==> r.error == MissingAverageRating
  {
    if user in t.avgRatings then Ok(t.avgRatings[user]) else Err(MissingAverageRating)
  }

  /** `predictor_name`: raises NoPersonalizedPredictorError when there is no row. */
  function PredictorName(t: Tables, user: UserId): (r: Result<string>)
    ensures r.Ok? <==> user in t.predictors
    ensures r.Ok? ==> r.value == t.predictors[user]
    ensures r.Err? ==> r.error == NoPersonalizedPredictor
  {
    if user in t.predictors then Ok(t.predictors[user]) else Err(NoPersonalizedPredictor)
  }

  /** The first `movies` row with the given id, if any. */
  function FindMovie(rows: seq<MovieRow>, movie: MovieId): (r: Option<MovieRow>)
    ensures r.Some? <==> exists m :: m in rows && m.id == movie
    ensures r.Some? ==> r.value in rows && r.value.id == movie
  {
    if rows == [] then None
    else if rows[0].id == movie then Some(rows[0])
    else FindMovie(rows[1..], movie)
  }

  /** `title`: raises ValueError when the movie is not in the database. */
  function Title(t: Tables, movie: MovieId): (r: Result<string>)
    ensures r.Ok? <==> movie in AllMovies(t)
    ensures r.Ok? ==> exists m :: m in t.movies && m.id == movie && m.title == r.value
    ensures r.Err? ==> r.error == ValueError
  {
    match FindMovie(t.movies, movie)
    case Some(row) => Ok(row.title)
    case None => Err(ValueError)
  }

  /** The number of `movies` rows with the given id. */
  function MovieCount(rows: seq<MovieRow>, movie: MovieId): nat
    decreases |rows|
  {
    if rows == [] then 0
    else MovieCount(rows[..|rows| - 1], movie) + (if rows[|rows| - 1].id == movie then 1 else 0)
  }

  lemma {:induction false} MovieCountFacts(rows: seq<MovieRow>, movie: MovieId)
    ensures MovieCount(rows, movie) > 0 <==> exists m :: m in rows && m.id == movie
    ensures (forall i, j :: 0 <= i < j < |rows| ==> rows[i].id != rows[j].id)
            ==> MovieCount(rows, movie) <= 1
    decreases |rows|
  {
    if rows != [] {
      var prefix := rows[..|rows| - 1];
      var last := rows[|rows| - 1];
      MovieCountFacts(prefix, movie);
      assert forall m :: m in rows <==> m in prefix || m == last by {
        assert rows == prefix + [last];
      }
    }
  }

  // -------------------------------------------------------------- genres

  /** Python's `str.split(sep)`: the pieces between occurrences of `sep`. */
  function Split(s: string, sep: char): (parts: seq<string>)
    ensures |parts| >= 1
    ensures forall k :: 0 <= k < |parts| ==> sep !in parts[k]
    decreases |s|
  {
    if s == [] then [""]
    else
      var rest := Split(s[1..], sep);
      if s[0] == sep then [""] + rest
      else [[s[0]] + rest[0]] + rest[1..]
  }

  /** Python's `sep.join(parts)`. */
  function Join(parts: seq<string>, sep: char): string
    requires |parts| >= 1
    decreases |parts|
  {
    if |parts| == 1 then parts[0] else parts[0] + [sep] + Join(parts[1..], sep)
  }

  /** Splitting loses nothing: joining the pieces gives the string back. */
  lemma {:induction false} JoinSplit(s: string, sep: char)
    ensures Join(Split(s, sep), sep) == s
    decreases |s|
  {
    if s != [] {
      var rest := Split(s[1..], sep);
      JoinSplit(s[1..], sep);
      if s[0] == sep {
        assert Split(s, sep) == [""] + rest;
        assert ([""] + rest)[1..] == rest;
      } else {
        var parts := [[s[0]] + rest[0]] + rest[1..];
        assert Split(s, sep) == parts;
        if |rest| == 1 {
          assert Join(rest, sep) == rest[0];
        } else {
          assert parts[1..] == rest[1..];
          assert Join(rest, sep) == rest[0] + [sep] + Join(rest[1..], sep);
        }
      }
    }
  }

  /** A string without the separator splits into itself alone. */
  lemma {:induction false} SplitNoSep(p: string, sep: char)
    requires sep !in p
    ensures Split(p, sep) == [p]
    decreases |p|
  {
    if p != [] {
      SplitNoSep(p[1..], sep);
      assert [p[0]] + p[1..] == p;
    }
  }

  /** Splitting at a separator after a separator-free prefix. */
  lemma {:induction false} SplitAfterPiece(p: string, sep: char, s: string)
    requires sep !in p
    ensures Split(p + [sep] + s, sep) == [p] + Split(s, sep)
    decreases |p|
  {
    if p == [] {
      assert p + [sep] + s == [sep] + s;
      assert ([sep] + s)[1..] == s;
    } else {
      var w := p + [sep] + s;
      assert w[0] == p[0] && w[1..] == p[1..] + [sep] + s;
      SplitAfterPiece(p[1..], sep, s);
      assert [p[0]] + p[1..] == p;
    }
  }

  /** Separator-free pieces survive a join followed by a split. */
  lemma {:induction false} SplitJoin(parts: seq<string>, sep: char)
    requires |parts| >= 1
    requires forall k :: 0 <= k < |parts| ==> sep !in parts[k]
    ensures Split(Join(parts, sep), sep) == parts
    decreases |parts|
  {
    if |parts| == 1 {
      SplitNoSep(parts[0], sep);
    } else {
      SplitJoin(parts[1..], sep);
      SplitAfterPiece(parts[0], sep, Join(parts[1..], sep));
      assert [parts[0]] + parts[1..] == parts;
    }
  }

  /** `genres`: the genres column of the movie, split on '|'. The source
      asserts that the query returns exactly one row. */
  function Genres(t: Tables, movie: MovieId): (r: Result<seq<string>>)
    ensures Valid(t) ==> (r.Ok? <==> movie in AllMovies(t))
    ensures r.Ok? ==> |r.value| >= 1
                      && exists m :: m in t.movies && m.id == movie && Join(r.value, '|') == m.genres
    ensures r.Ok? ==> forall k :: 0 <= k < |r.value| ==> '|' !in r.value[k]
    ensures r.Err? ==> r.error == AssertionFailed
  {
    MovieCountFacts(t.movies, movie);
    if MovieCount(t.movies, movie) != 1 then Err(AssertionFailed)
    else
      var row := FindMovie(t.movies, movie).value;
      JoinSplit(row.genres, '|');
      Ok(Split(row.genres, '|'))
  }

  // ---------------------------------------------------------------- year

  predicate IsDigit(c: char) {
    '0' <= c <= '9'
  }

  /** `\((\d{4})\)` matches at index i. */
  predicate YearAt(s: string, i: int) {
    0 <= i && i + 6 <= |s| && s[i] == '(' && s[i + 5] == ')'
    && IsDigit(s[i + 1]) && IsDigit(s[i + 2]) && IsDigit(s[i + 3]) && IsDigit(s[i + 4])
  }

  /** The value of the four digits of a match at index i. */
  function YearValue(s: string, i: int): (y: int)
    requires YearAt(s, i)
    ensures 0 <= y <= 9999
  {
    ((s[i + 1] as int - '0' as int) * 1000) + ((s[i + 2] as int - '0' as int) * 100)
    + ((s[i + 3] as int - '0' as int) * 10) + (s[i + 4] as int - '0' as int)
  }

  /** The leftmost match at or after index `from`. */
  function FindYear(s: string, from: nat): (r: Option<nat>)
    ensures r.Some? ==> from <= r.value && YearAt(s, r.value)
                        && forall j :: from <= j < r.value ==> !YearAt(s, j)
    ensures r.None? ==> forall j :: from <= j ==> !YearAt(s, j)
    decreases |s| - from
  {
    if from + 6 > |s| then None
    else if YearAt(s, from) then Some(from)
    else FindYear(s, from + 1)
  }

  /** `year`: the value of the leftmost parenthesised four-digit group of
      the title; NoMovieYearError when there is none. */
  function Year(title: string): (r: Result<int>)
    ensures r.Ok? <==> exists i :: YearAt(title, i)
    ensures r.Ok? ==> exists i :: YearAt(title, i) && r.value == YearValue(title, i)
                                  && forall j :: 0 <= j < i ==> !YearAt(title, j)
    ensures r.Err? ==> r.error == NoMovieYear
  {
    match FindYear(title, 0)
    case Some(i) => Ok(YearValue(title, i))
    case None => Err(NoMovieYear)
  }

  /** The two titles used as examples by the unit tests. */
  lemma YearExamples()
    ensures Year("\"White Balloon, The (Badkonake sefid) (1995)\"") == Ok(1995)
    ensures Year("Babylon 5") == Err(NoMovieYear)
  {
    var s := "\"White Balloon, The (Badkonake sefid) (1995)\"";
    assert YearAt(s, 38);
    forall j | 0 <= j < 38 ensures !YearAt(s, j) {
    }
  }

  // ------------------------------------------------------------ pairs

  /** The stored orientation of an unordered pair of movies. */
  function SimilarityKey(a: MovieId, b: MovieId): (k: (MovieId, MovieId))
    ensures {k.0, k.1} == {a, b} && k.0 <= k.1
  {
    if a <= b then (a, b) else (b, a)
  }

  /** The ratings in `rows` for (user, movie), in row order. */
  function Matches(rows: seq<RatingRow>, user: UserId, movie: MovieId): (ms: seq<real>)
    ensures |ms| == KeyCount(rows, user, movie)
    ensures forall x :: x in ms ==> RatingRow(user, movie, x) in rows
    decreases |rows|
  {
    if rows == [] then []
    else
      var last := rows[|rows| - 1];
      Matches(rows[..|rows| - 1], user, movie)
      + (if last.user == user && last.movie == movie then [last.rating] else [])
  }

  /** The pairs one `lo` row contributes to the join: one per `hi` row of
      the same user in `all`. */
  function RowPairs(r: RatingRow, lo: MovieId, hi: MovieId, all: seq<RatingRow>): (ps: seq<RatingPair>)
    ensures |ps| == (if r.movie == lo then KeyCount(all, r.user, hi) else 0)
    ensures forall p :: p in ps ==>
              p.userId == r.user && r.movie == lo && p.ratingA == r.rating
              && RatingRow(r.user, hi, p.ratingB) in all
  {
    var ms := if r.movie == lo then Matches(all, r.user, hi) else [];
    seq(|ms|, k requires 0 <= k < |ms| => RatingPair(r.user, r.rating, ms[k]))
  }

  /** The join of the `lo` rows among `rows` with the `hi` rows of `all`
      on userId. */
  function JoinPairs(rows: seq<RatingRow>, lo: MovieId, hi: MovieId, all: seq<RatingRow>)
    : (ps: seq<RatingPair>)
    ensures forall p :: p in ps ==>
              RatingRow(p.userId, lo, p.ratingA) in rows && RatingRow(p.userId, hi, p.ratingB) in all
    decreases |rows|
  {
    if rows == [] then []
    else
      var prefix := rows[..|rows| - 1];
      var last := rows[|rows| - 1];
      assert forall r :: r in prefix ==> r in rows;
      JoinPairs(prefix, lo, hi, all) + RowPairs(last, lo, hi, all)
  }

  /** `rating_pairs`: ValueError for a movie paired with itself; otherwise
      the join, on userId, of the ratings of the smaller id with those of
      the larger, with ratingA from the smaller id. */
  function RatingPairs(t: Tables, a: MovieId, b: MovieId): (r: Result<seq<RatingPair>>)
    ensures r.Err? <==> a == b
    ensures r.Err? ==> r.error == ValueError
    ensures r.Ok? ==> forall p :: p in r.value ==>
              var k := SimilarityKey(a, b);
              RatingRow(p.userId, k.0, p.ratingA) in t.ratings
              && RatingRow(p.userId, k.1, p.ratingB) in t.ratings
  {
    if a == b then Err(ValueError)
    else
      var k := SimilarityKey(a, b);
      Ok(JoinPairs(t.ratings, k.0, k.1, t.ratings))
  }

  /** The arguments are sorted first, so their order does not matter. */
  lemma RatingPairsSymmetric(t: Tables, a: MovieId, b: MovieId)
    ensures RatingPairs(t, a, b) == RatingPairs(t, b, a)
  {
  }

  /** The users who rated movie `hi` and have a `lo` row among `rows`. */
  function BothUsers(rows: seq<RatingRow>, lo: MovieId, hi: MovieId, all: seq<RatingRow>): set<UserId> {
    set r | r in rows && r.movie == lo && KeyCount(all, r.user, hi) > 0 :: r.user
  }

  /** The users a single row adds to `BothUsers`. */
  lemma BothUsersSnoc(rows: seq<RatingRow>, lo: MovieId, hi: MovieId, all: seq<RatingRow>)
    requires rows != []
    ensures var last := rows[|rows| - 1];
            BothUsers(rows, lo, hi, all)
            == BothUsers(rows[..|rows| - 1], lo, hi, all)
               + (if last.movie == lo && KeyCount(all, last.user, hi) > 0 then {last.user} else {})
  {
    var prefix := rows[..|rows| - 1];
    assert rows == prefix + [rows[|rows| - 1]];
  }

  /** A user has a pair in the join iff the user has a `lo` row among
      `rows` and a `hi` row in `all`. */
  lemma {:induction false} JoinPairsUsers(rows: seq<RatingRow>, lo: MovieId, hi: MovieId, all: seq<RatingRow>)
    ensures forall u :: u in BothUsers(rows, lo, hi, all) <==>
              exists p :: p in JoinPairs(rows, lo, hi, all) && p.userId == u
    decreases |rows|
  {
    if rows != [] {
      var prefix := rows[..|rows| - 1];
      var last := rows[|rows| - 1];
      JoinPairsUsers(prefix, lo, hi, all);
      BothUsersSnoc(rows, lo, hi, all);
      var before := JoinPairs(prefix, lo, hi, all);
      var tail := RowPairs(last, lo, hi, all);
      var both: seq<RatingPair> := before + tail;
      assert JoinPairs(rows, lo, hi, all) == both;
      forall u ensures u in BothUsers(rows, lo, hi, all) <==>
                       exists p :: p in both && p.userId == u
      {
        if u in BothUsers(rows, lo, hi, all) && u !in BothUsers(prefix, lo, hi, all) {
          assert tail[0] in both;
        }
        if exists p :: p in both && p.userId == u {
          var p :| p in both && p.userId == u;
          if p !in before {
            assert p in tail;
          }
        }
      }
    }
  }

  /** Under the primary key of `ratings` no user appears twice in the join. */
  lemma {:induction false} JoinPairsDistinct(rows: seq<RatingRow>, lo: MovieId, hi: MovieId, all: seq<RatingRow>)
    requires UniqueKeys(rows) && UniqueKeys(all)
    ensures forall i, j :: 0 <= i < j < |JoinPairs(rows, lo, hi, all)| ==>
              JoinPairs(rows, lo, hi, all)[i].userId != JoinPairs(rows, lo, hi, all)[j].userId
    decreases |rows|
  {
    if rows != [] {
      var prefix := rows[..|rows| - 1];
      var last := rows[|rows| - 1];
      assert UniqueKeys(prefix);
      JoinPairsDistinct(prefix, lo, hi, all);
      var before := JoinPairs(prefix, lo, hi, all);
      var tail := RowPairs(last, lo, hi, all);
      RatingCountFacts(all, last.user, hi);
      if |tail| == 1 {
        assert forall p | p in before :: p.userId != last.user;
        var both: seq<RatingPair> := before + tail;
        assert JoinPairs(rows, lo, hi, all) == both;
        forall i, j | 0 <= i < j < |both|
          ensures both[i].userId != both[j].userId
        {
          if j == |before| {
            assert before[i] in before;
            assert tail[0] in tail;
          }
        }
      }
    }
  }

  /** Under the primary key of `ratings` the join has one pair per user who
      rated both movies. */
  lemma {:induction false} JoinPairsCount(rows: seq<RatingRow>, lo: MovieId, hi: MovieId, all: seq<RatingRow>)
    requires UniqueKeys(rows) && UniqueKeys(all)
    ensures |JoinPairs(rows, lo, hi, all)| == |BothUsers(rows, lo, hi, all)|
    decreases |rows|
  {
    if rows != [] {
      var prefix := rows[..|rows| - 1];
      var last := rows[|rows| - 1];
      assert UniqueKeys(prefix);
      JoinPairsCount(prefix, lo, hi, all);
      BothUsersSnoc(rows, lo, hi, all);
      RatingCountFacts(all, last.user, hi);
      if last.movie == lo && KeyCount(all, last.user, hi) > 0 {
        assert last.user !in BothUsers(prefix, lo, hi, all);
      }
    }
  }

  /** `rating_pairs` yields exactly one pair per user who rated both movies. */
  lemma RatingPairsOnePerUser(t: Tables, a: MovieId, b: MovieId)
    requires Valid(t) && a != b
    ensures forall u :: (exists p :: p in RatingPairs(t, a, b).value && p.userId == u)
                        <==> HasRated(t, u, a) && HasRated(t, u, b)
    ensures forall i, j :: 0 <= i < j < |RatingPairs(t, a, b).value| ==>
              RatingPairs(t, a, b).value[i].userId != RatingPairs(t, a, b).value[j].userId
  {
    var k := SimilarityKey(a, b);
    JoinPairsUsers(t.ratings, k.0, k.1, t.ratings);
    JoinPairsDistinct(t.ratings, k.0, k.1, t.ratings);
    forall u ensures u in BothUsers(t.ratings, k.0, k.1, t.ratings) <==> HasRated(t, u, a) && HasRated(t, u, b) {
      RatingCountFacts(t.ratings, u, k.1);
    }
  }

  // ------------------------------------------------------- similarities

  /** `similarity`: the score stored under the canonical orientation of the
      pair; MissingSimilarityError when none is stored. */
  function Similarity(t: Tables, a: MovieId, b: MovieId): (r: Result<real>)
    ensures r.Ok? <==> (a <= b && (a, b) in t.similarities) || (b <= a && (b, a) in t.similarities)
    ensures r.Ok? && a <= b ==> r.value == t.similarities[(a, b)]
    ensures r.Ok? && b <= a ==> r.value == t.similarities[(b, a)]
    ensures r.Err? ==> r.error == MissingSimilarity
  {
    var k := SimilarityKey(a, b);
    if k in t.similarities then Ok(t.similarities[k]) else Err(MissingSimilarity)
  }

  lemma SimilaritySymmetric(t: Tables, a: MovieId, b: MovieId)
    ensures Similarity(t, a, b) == Similarity(t, b, a)
  {
  }

  /** One of the two queries of `similar_movies_for_user`, walking the
      user's rating rows: with `movieIsB` the rows stored as (m, movie),
      otherwise those stored as (movie, m); a row is kept when its score is
      non-zero. */
  function SimilarSide(rows: seq<RatingRow>, sims: map<(MovieId, MovieId), real>,
                       movie: MovieId, user: UserId, movieIsB: bool): (out: seq<(MovieId, real)>)
    ensures forall p :: p in out ==>
              (exists r :: r in rows && r.user == user && r.movie == p.0)
              && p.1 != 0.0
              && var key := if movieIsB then (p.0, movie) else (movie, p.0);
                 key in sims && sims[key] == p.1
    decreases |rows|
  {
    if rows == [] then []
    else
      var prefix := rows[..|rows| - 1];
      var last := rows[|rows| - 1];
      assert forall r :: r in prefix ==> r in rows;
      var key := if movieIsB then (last.movie, movie) else (movie, last.movie);
      SimilarSide(prefix, sims, movie, user, movieIsB)
      + (if last.user == user && key in sims && sims[key] != 0.0 then [(last.movie, sims[key])] else [])
  }

  lemma {:induction false} SimilarSideComplete(rows: seq<RatingRow>, sims: map<(MovieId, MovieId), real>,
                                               movie: MovieId, user: UserId, movieIsB: bool, m: MovieId)
    requires exists r :: r in rows && r.user == user && r.movie == m
    requires var key := if movieIsB then (m, movie) else (movie, m); key in sims && sims[key] != 0.0
    ensures var key := if movieIsB then (m, movie) else (movie, m);
            (m, sims[key]) in SimilarSide(rows, sims, movie, user, movieIsB)
    decreases |rows|
  {
    var prefix := rows[..|rows| - 1];
    var last := rows[|rows| - 1];
    if !(last.user == user && last.movie == m) {
      assert rows == prefix + [last];
      SimilarSideComplete(prefix, sims, movie, user, movieIsB, m);
    }
  }

  /** `similar_movies_for_user`: the movies the user rated whose stored
      similarity to `movie` is non-zero, first those stored as (m, movie),
      then those stored as (movie, m). */
  function SimilarMoviesForUser(t: Tables, movie: MovieId, user: UserId): (out: seq<(MovieId, real)>)
    ensures forall p :: p in out ==>
              HasRated(t, user, p.0) && p.1 != 0.0
              && (((p.0, movie) in t.similarities && t.similarities[(p.0, movie)] == p.1)
                  || ((movie, p.0) in t.similarities && t.similarities[(movie, p.0)] == p.1))
  {
    SimilarSide(t.ratings, t.similarities, movie, user, true)
    + SimilarSide(t.ratings, t.similarities, movie, user, false)
  }

  /** Every rated movie with a non-zero stored similarity to `movie`, in
      either orientation, is yielded. */
  lemma SimilarMoviesForUserComplete(t: Tables, movie: MovieId, user: UserId, m: MovieId)
    requires HasRated(t, user, m)
    ensures (m, movie) in t.similarities && t.similarities[(m, movie)] != 0.0 ==>
              (m, t.similarities[(m, movie)]) in SimilarMoviesForUser(t, movie, user)
    ensures (movie, m) in t.similarities && t.similarities[(movie, m)] != 0.0 ==>
              (m, t.similarities[(movie, m)]) in SimilarMoviesForUser(t, movie, user)
  {
    if (m, movie) in t.similarities && t.similarities[(m, movie)] != 0.0 {
      SimilarSideComplete(t.ratings, t.similarities, movie, user, true, m);
    }
    if (movie, m) in t.similarities && t.similarities[(movie, m)] != 0.0 {
      SimilarSideComplete(t.ratings, t.similarities, movie, user, false, m);
    }
  }

  /** No movie appears twice. */
  ghost predicate DistinctMovies(out: seq<(MovieId, real)>) {
    forall i, j :: 0 <= i < j < |out| ==> out[i].0 != out[j].0
  }

  /** Under the primary key of `ratings`, one query yields each movie at
      most once. */
  lemma {:induction false} SimilarSideDistinct(rows: seq<RatingRow>, sims: map<(MovieId, MovieId), real>,
                                               movie: MovieId, user: UserId, movieIsB: bool)
    requires UniqueKeys(rows)
    ensures DistinctMovies(SimilarSide(rows, sims, movie, user, movieIsB))
    decreases |rows|
  {
    if rows != [] {
      var prefix := rows[..|rows| - 1];
      var last := rows[|rows| - 1];
      assert UniqueKeys(prefix);
      SimilarSideDistinct(prefix, sims, movie, user, movieIsB);
      var before := SimilarSide(prefix, sims, movie, user, movieIsB);
      var out := SimilarSide(rows, sims, movie, user, movieIsB);
      var key := if movieIsB then (last.movie, movie) else (movie, last.movie);
      if last.user == user && key in sims && sims[key] != 0.0 {
        assert out == before + [(last.movie, sims[key])];
        forall i, j | 0 <= i < j < |out| ensures out[i].0 != out[j].0 {
          if j == |before| {
            assert before[i] in before;
            var r :| r in prefix && r.user == user && r.movie == before[i].0;
            var k :| 0 <= k < |prefix| && prefix[k] == r;
            assert rows[k] == r;
          }
        }
      } else {
        assert out == before;
      }
    }
  }

  /** On a valid database `similar_movies_for_user` yields each similar
      movie once: each query walks the primary key of `ratings`, and the
      CHECK constraint puts the movies of the first query below `movie` and
      those of the second above it. */
  lemma SimilarMoviesForUserDistinct(t: Tables, movie: MovieId, user: UserId)
    requires Valid(t)
    ensures DistinctMovies(SimilarMoviesForUser(t, movie, user))
  {
    var below := SimilarSide(t.ratings, t.similarities, movie, user, true);
    var above := SimilarSide(t.ratings, t.similarities, movie, user, false);
    SimilarSideDistinct(t.ratings, t.similarities, movie, user, true);
    SimilarSideDistinct(t.ratings, t.similarities, movie, user, false);
    var out := below + above;
    forall i, j | 0 <= i < j < |out| ensures out[i].0 != out[j].0 {
      if j < |below| {
        assert out[i] == below[i] && out[j] == below[j];
      } else if i >= |below| {
        assert out[i] == above[i - |below|] && out[j] == above[j - |below|];
      } else {
        assert below[i] in below;
        assert above[j - |below|] in above;
        assert out[i].0 < movie < out[j].0;
      }
    }
  }

  /** Under the CHECK constraint the movie itself is never yielded. */
  lemma SimilarMoviesForUserNotSelf(t: Tables, movie: MovieId, user: UserId)
    requires Valid(t)
    ensures forall p :: p in SimilarMoviesForUser(t, movie, user) ==> p.0 != movie
  {
  }

  // ------------------------------------------------------- unrated movies

  function UnratedRows(rows: seq<MovieRow>, rated: set<MovieId>): (out: seq<MovieId>)
    ensures forall m :: m in out <==> (exists r :: r in rows && r.id == m) && m !in rated
    decreases |rows|
  {
    if rows == [] then []
    else
      var prefix := rows[..|rows| - 1];
      var last := rows[|rows| - 1];
      assert rows == prefix + [last];
      UnratedRows(prefix, rated) + (if last.id in rated then [] else [last.id])
  }

  lemma {:induction false} UnratedRowsDistinct(rows: seq<MovieRow>, rated: set<MovieId>)
    ensures (forall i, j :: 0 <= i < j < |rows| ==> rows[i].id != rows[j].id) ==>
              forall i, j :: 0 <= i < j < |UnratedRows(rows, rated)| ==>
                UnratedRows(rows, rated)[i] != UnratedRows(rows, rated)[j]
    decreases |rows|
  {
    if rows != [] && forall i, j :: 0 <= i < j < |rows| ==> rows[i].id != rows[j].id {
      var prefix := rows[..|rows| - 1];
      var last := rows[|rows| - 1];
      UnratedRowsDistinct(prefix, rated);
      var before := UnratedRows(prefix, rated);
      if last.id !in rated {
        assert last.id !in before;
        forall i, j | 0 <= i < j < |before + [last.id]|
          ensures (before + [last.id])[i] != (before + [last.id])[j]
        {
          if j == |before| { assert before[i] in before; }
        }
      }
    }
  }

  /** `unrated_movies`: the movies the user has no rating for, in `movies`
      row order. */
  function UnratedMovies(t: Tables, user: UserId): (out: seq<MovieId>)
    ensures forall m :: m in out <==> m in AllMovies(t) && !HasRated(t, user, m)
    ensures Valid(t) ==> forall i, j :: 0 <= i < j < |out| ==> out[i] != out[j]
  {
    var rated := RatedMovies(t, {user});
    assert forall m :: m in rated <==> HasRated(t, user, m);
    UnratedRowsDistinct(t.movies, rated);
    UnratedRows(t.movies, rated)
  }
}
