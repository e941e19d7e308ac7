/**
 * The SQLite tables of the movie recommender as in-memory values.
 *
 * The two tables loaded from the MovieLens CSV files, `movies` and `ratings`,
 * are only read by the core, and the queries over them walk their rows, so
 * they are sequences of rows; their primary keys are the `Valid` predicate.
 * The three tables the core writes with UPSERT statements are maps from their
 * primary key.
 */
module Tables {
  import Constants

  type UserId = int
  type MovieId = int

  /** A row of `ratings`: primary key (userId, movieId). The timestamp
      column is never read by the core. */
  datatype RatingRow = RatingRow(user: UserId, movie: MovieId, rating: real)

  /** A row of `movies`: primary key movieId. */
  datatype MovieRow = MovieRow(id: MovieId, title: string, genres: string)

  datatype Tables = Tables(
    movies: seq<MovieRow>,
    ratings: seq<RatingRow>,
    /** `avgRatings`: userId -> avgRating. */
    avgRatings: map<UserId, real>,
    /** `similarities`: (movieAId, movieBId) -> similarity. */
    similarities: map<(MovieId, MovieId), real>,
    /** `predictors`: userId -> predictor name. */
    predictors: map<UserId, string>
  )

  /** The primary key (userId, movieId) of `ratings` holds. */
  ghost predicate UniqueKeys(rows: seq<RatingRow>) {
    forall i, j :: 0 <= i < j < |rows| ==>
      (rows[i].user, rows[i].movie) != (rows[j].user, rows[j].movie)
  }

  /** The primary keys of `movies` and `ratings`, and the CHECK constraint
      movieAId < movieBId of `similarities`. */
  ghost predicate Valid(t: Tables) {
    && (forall i, j :: 0 <= i < j < |t.movies| ==> t.movies[i].id != t.movies[j].id)
    && UniqueKeys(t.ratings)
    && (forall k :: k in t.similarities ==> k.0 < k.1)
  }

  /** Every stored rating and average rating lies in the MovieLens range
      [MinRating, MaxRating]. The schema has no CHECK for this; the data set
      guarantees it. */
  ghost predicate RatingsInRange(t: Tables) {
    && (forall r :: r in t.ratings ==> Constants.MinRating <= r.rating <= Constants.MaxRating)
    && (forall u :: u in t.avgRatings ==> Constants.MinRating <= t.avgRatings[u] <= Constants.MaxRating)
  }

  /** The database the program opens; the write operations replace its tables. */
  class Database {
    var tables: Tables

    constructor (t: Tables)
      ensures tables == t
    {
      tables := t;
    }
  }
}
