/** The COUNT aggregates of the movie recommender, and how they relate to
    the rows the read queries return. */
module Count {
  import opened Exceptions
  import opened Tables
  import Read

  /** `avg_ratings`: the number of distinct users in `avgRatings`. */
  function AvgRatings(t: Tables): (n: nat)
    ensures n == |Read.UsersInAvgRatings(t)|
  {
    |t.avgRatings.Keys|
  }

  /** `user_ids`: the number of distinct users in `ratings`. */
  function UserIds(t: Tables): (n: nat)
    ensures n == |Read.Users(t)|
  {
    |set r | r in t.ratings :: r.user|
  }

  /** COUNT(*) of the join of the `lo` rows among `rows` with the `hi`
      rows of `all`: each `lo` row counts its partners. */
  function JoinCount(rows: seq<RatingRow>, lo: MovieId, hi: MovieId, all: seq<RatingRow>): nat
    decreases |rows|
  {
    if rows == [] then 0
    else
      var last := rows[|rows| - 1];
      JoinCount(rows[..|rows| - 1], lo, hi, all)
      + (if last.movie == lo then Read.KeyCount(all, last.user, hi) else 0)
  }

  lemma {:induction false} JoinCountIsJoinSize(rows: seq<RatingRow>, lo: MovieId, hi: MovieId, all: seq<RatingRow>)
    ensures JoinCount(rows, lo, hi, all) == |Read.JoinPairs(rows, lo, hi, all)|
    decreases |rows|
  {
    if rows != [] {
      JoinCountIsJoinSize(rows[..|rows| - 1], lo, hi, all);
    }
  }

  /** The users who rated both movies. */
  function RatersOfBoth(t: Tables, a: MovieId, b: MovieId): set<UserId> {
    set u | u in Read.Users(t) && Read.HasRated(t, u, a) && Read.HasRated(t, u, b)
  }

  /** `rating_pairs`: ValueError for a movie paired with itself; otherwise
      the size of the join `Read.RatingPairs` returns, which under the
      primary key of `ratings` is the number of users who rated both. */
  function RatingPairs(t: Tables, a: MovieId, b: MovieId): (r: Result<nat>)
    ensures r.Err? <==> a == b
    ensures r.Err? ==> r.error == ValueError
    ensures r.Ok? ==> r.value == |Read.RatingPairs(t, a, b).value|
    ensures r.Ok? && Valid(t) ==> r.value == |RatersOfBoth(t, a, b)|
  {
    if a == b then Err(ValueError)
    else
      var k := Read.SimilarityKey(a, b);
      JoinCountIsJoinSize(t.ratings, k.0, k.1, t.ratings);
      JoinSizeIsRaters(t, a, b);
      Ok(JoinCount(t.ratings, k.0, k.1, t.ratings))
  }

  /** Under the primary key the join has one pair per user who rated both. */
  lemma JoinSizeIsRaters(t: Tables, a: MovieId, b: MovieId)
    requires a != b
    ensures Valid(t) ==> |Read.RatingPairs(t, a, b).value| == |RatersOfBoth(t, a, b)|
  {
    var k := Read.SimilarityKey(a, b);
    forall u ensures u in Read.BothUsers(t.ratings, k.0, k.1, t.ratings) <==> u in RatersOfBoth(t, a, b) {
      Read.RatingCountFacts(t.ratings, u, k.1);
      if Read.HasRated(t, u, k.0) {
        var r :| r in t.ratings && r.user == u && r.movie == k.0;
        assert u in Read.Users(t);
      }
    }
    assert Read.BothUsers(t.ratings, k.0, k.1, t.ratings) == RatersOfBoth(t, a, b);
    if Valid(t) {
      Read.JoinPairsCount(t.ratings, k.0, k.1, t.ratings);
    }
  }

  /** The arguments are sorted first, so their order does not matter. */
  lemma RatingPairsSymmetric(t: Tables, a: MovieId, b: MovieId)
    ensures RatingPairs(t, a, b) == RatingPairs(t, b, a)
  {
  }

  /** A sequence without repeats has as many elements as its set. */
  lemma {:induction false} DistinctCard<T>(s: seq<T>)
    requires forall i, j :: 0 <= i < j < |s| ==> s[i] != s[j]
    ensures |set x | x in s| == |s|
    decreases |s|
  {
    if s != [] {
      var prefix := s[..|s| - 1];
      var last := s[|s| - 1];
      DistinctCard(prefix);
      assert s == prefix + [last];
      assert (set x | x in s) == (set x | x in prefix) + {last};
      assert last !in (set x | x in prefix);
    }
  }

  /** `unrated_movies`: the number of distinct movies the user has not
      rated, which under the primary keys is the number of ids
      `Read.UnratedMovies` yields. */
  function UnratedMovies(t: Tables, user: UserId): (n: nat)
    ensures n == |set m | m in Read.AllMovies(t) && !Read.HasRated(t, user, m)|
    ensures Valid(t) ==> n == |Read.UnratedMovies(t, user)|
  {
    var unrated := Read.AllMovies(t) - Read.RatedMovies(t, {user});
    assert unrated == set m | m in Read.AllMovies(t) && !Read.HasRated(t, user, m);
    UnratedCount(t, user);
    |unrated|
  }

  lemma UnratedCount(t: Tables, user: UserId)
    ensures Valid(t) ==>
              |Read.AllMovies(t) - Read.RatedMovies(t, {user})| == |Read.UnratedMovies(t, user)|
  {
    var ids := Read.UnratedMovies(t, user);
    assert Read.AllMovies(t) - Read.RatedMovies(t, {user}) == set x | x in ids;
    if Valid(t) {
      DistinctCard(ids);
    }
  }
}
