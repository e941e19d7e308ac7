/** Module-level constants of the movie recommender. */
module Constants {

  /** The lowest and highest rating a user can give. */
  const MinRating: real := 0.5
  const MaxRating: real := 5.0

  /** Below this many rating pairs a similarity score is defined to be 0. */
  const MinPairsForSimilarity: int := 1

  /** Work items per process in each batch; also the progress interval. */
  const JobsPerProcessPerBatch: nat := 256

  /** Why a prediction was made. `NoReason` is the source's `None` key. */
  datatype Reason = AvgRatingReason | SimilarReason | NoReason

  /** The REASONS table: every reason the predictors emit has a text. */
  function ReasonText(r: Reason): (text: string)
    ensures |text| > 0
    ensures r == NoReason <==> text == "because the other evaluation strategies are failing."
  {
    match r
    case AvgRatingReason => "because of this movie's average rating."
    case NoReason => "because the other evaluation strategies are failing."
    case SimilarReason => "because of the similarity between this movie and others you've rated."
  }

  /** GENRES: the genres listed in the MovieLens readme, in the order the
      source lists them. Python iterates the set in an order that depends on
      string hashing; the model iterates this listing. */
  const GenreList: seq<string> := [
    "(no genres listed)", "Action", "Adventure", "Animation", "Children's",
    "Comedy", "Crime", "Documentary", "Drama", "Fantasy", "Film-Noir",
    "Horror", "Musical", "Mystery", "Romance", "Sci-Fi", "Thriller", "War",
    "Western"
  ]

  /** The set of genre names. */
  const Genres: set<string> := set g | g in GenreList

  /** The listing holds 19 names, among them the MovieLens marker for a
      movie without genres. */
  lemma GenresListed()
    ensures |GenreList| == 19
    ensures "(no genres listed)" in Genres && "Action" in Genres && "Western" in Genres
  {
    assert GenreList[0] == "(no genres listed)" && GenreList[1] == "Action" && GenreList[18] == "Western";
  }

  /** The module-level assertion and the ordering of the rating bounds. */
  lemma ConstantsConsistent()
    ensures MinPairsForSimilarity >= 1
    ensures 0.0 < MinRating < MaxRating
    ensures JobsPerProcessPerBatch == 256
  {
  }
}
