/**
 * The failure kinds the movie recommender raises, as one datatype, and the
 * Result/Option wrappers the model uses instead of Python exceptions and None.
 */
module Exceptions {

  /** One variant per exception class of the package, plus the built-in
      exceptions that the core raises on its own (ValueError for self pairs
      and unknown titles, KeyError for popitem on an empty dict,
      IntegrityError for a row that breaks a CHECK constraint, AssertionFailed
      for an `assert` statement that does not hold, ZeroDivisionError for a
      float division by zero). */
  datatype Error =
    | DatabaseAlreadyExists
    | DatabaseNotFound
    | DatasetAbsent
    | EmptyGraph
    | MissingAverageRating
    | MissingSimilarity
    | NoMovieRatings
    | NoMovieYear
    | NoSimilarMovies
    | NoSuchPredictor
    | NoPersonalizedPredictor
    | VerticalLineOfBestFitGraph
    | ValueError
    | KeyError
    | IntegrityError
    | AssertionFailed
    | ZeroDivisionError

  datatype Result<T> = Ok(value: T) | Err(error: Error)

  datatype Option<T> = None | Some(value: T)
}
