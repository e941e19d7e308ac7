# Movie recommender and tweet phraseologist, modelled in Dafny

This project models the computational core of two small Python programs and
proves what their code and documentation promise.

**The movie recommender** predicts the rating a MovieLens user would give a
movie and recommends the best unrated movies. It has two strategies.

- *Item-item* (`analyze/ii.py`, `predict/ii.py`, `recommend/ii.py`).
  `analyze_users` stores every user's average rating. `analyze_movies` computes
  the adjusted cosine similarity of movie pairs, in batches fed by argument
  generators that skip self pairs, mirror-image pairs and already stored
  scores. `predict_rating` is the weighted sum of normalised ratings of
  similar movies, with two fallback chains. `recommend` keeps the best
  `count` predictions in a bounded heap.
- *Regression* (`predict/ml.py`, `analyze/ml.py`, `recommend/ml.py`). For each
  user, leave-one-out sums of squared errors choose among one year predictor
  and one predictor per genre, and `min_sse` picks the winner destructively.
  `recommend` ranks unrated movies with the chosen predictor, skipping movies
  without a year.
- *Storage* (`db/*.py`, `constants.py`). The SQLite tables are values:
  `movies` and `ratings` as sequences of rows with their primary keys as an
  invariant, `avgRatings`, `similarities` and `predictors` as maps written by
  UPSERT statements. A `Database` object holds them and the write operations
  modify it.

**The tweet phraseologist** cleans a dataset of politicians' tweets and counts
their n-grams: de-duplication of the handles file, truncation of tweets cut
off by `…` and removal of `https://t.co/` links (`tp/datasets.py`), per-tweet
n-gram counts merged into totals (`tp/analyze.py`), its own `parse_csv`
(`tp/db/common.py`) and the `non_negative_int` argument validator
(`tp/cli/utils.py`).

Operations that loop or update state are methods proved against
specification functions; the properties are lemmas about those functions.
Process pools become sequential maps, and what reaches the reporter process
through its pipe becomes the sequence of values sent.
Python's floats are exact `real`s, `float('inf')` is a variant of its own,
and the functions the core calls but does not define (`math.sqrt`, the
`Graph` regression, nltk's tokenisers and stemmer, `unicodedata.category`)
are parameters whose contracts are stated as preconditions.

## Model

| member | source | states |
|---|---|---|
| Constants.ReasonText | python/movie-recommender/movie_recommender/constants.py:18-24 | every reason a prediction carries has a non-empty text, and the `None` reason is exactly the one whose text says the other strategies are failing |
| Constants.GenresListed | python/movie-recommender/movie_recommender/constants.py:42-62 | GENRES names 19 genres, among them '(no genres listed)', 'Action' and 'Western' |
| Constants.ConstantsConsistent | python/movie-recommender/movie_recommender/constants.py:71-148 | MIN_PAIRS_FOR_SIMILARITY is at least 1 (the module's assert), JOBS_PER_PROCESS_PER_BATCH is 2**8, and the rating range is non-empty |
| DbCommon.ParseCsv | python/movie-recommender/movie_recommender/db/common.py:75-99 | yields exactly the rows after the first `header_rows` (none dropped for `header_rows <= 0`, all dropped when it exceeds the row count), each passed through `caster`, in file order |
| Read.Rating | python/movie-recommender/movie_recommender/db/read.py:96-111 | a returned rating is the rating column of a row for (user, movie); on a database with its primary keys the call succeeds exactly when the user rated the movie; otherwise the `assert` fails |
| Read.FindRating | python/movie-recommender/movie_recommender/db/read.py:104-111 | the rating found belongs to a `ratings` row for (user, movie) |
| Read.RatingCountFacts | python/movie-recommender/movie_recommender/db/read.py:104-110 | the query returns some row exactly when a row for (user, movie) exists, and under the primary key at most one, so the `assert` holds exactly for rated movies |
| Read.AvgRating | python/movie-recommender/movie_recommender/db/read.py:18-35 | the stored average when `avgRatings` holds the user, MissingAverageRatingError exactly when it does not |
| Read.PredictorName | python/movie-recommender/movie_recommender/db/read.py:55-74 | the stored predictor name when `predictors` holds the user, NoPersonalizedPredictorError exactly when it does not |
| Read.FindMovie | python/movie-recommender/movie_recommender/db/read.py:238-242 | finds a row exactly when a `movies` row has the id, and the row found has that id |
| Read.Title | python/movie-recommender/movie_recommender/db/read.py:232-245 | succeeds exactly for movies in the database, with the title of a row with that id; ValueError otherwise |
| Read.MovieCountFacts | python/movie-recommender/movie_recommender/db/read.py:44-51 | the genres query returns a row exactly when the movie exists, and under the primary key at most one |
| Read.Split | python/movie-recommender/movie_recommender/db/read.py:52 | `str.split` returns at least one piece and no piece holds the separator |
| Read.JoinSplit | python/movie-recommender/movie_recommender/db/read.py:52 | joining the pieces of a split with the separator gives the string back |
| Read.SplitNoSep | python/movie-recommender/movie_recommender/db/read.py:52 | a string without the separator splits into itself alone |
| Read.SplitAfterPiece | python/movie-recommender/movie_recommender/db/read.py:52 | a separator-free piece followed by the separator splits off as the first piece |
| Read.SplitJoin | python/movie-recommender/movie_recommender/db/read.py:52 | splitting a join of separator-free pieces gives the pieces back |
| Read.Genres | python/movie-recommender/movie_recommender/db/read.py:38-52 | on a database with its primary keys, succeeds exactly for movies in the database; the pieces are free of '\|' and joined by '\|' give the row's genres column; otherwise the `assert` fails |
| Read.YearValue | python/movie-recommender/movie_recommender/db/read.py:301 | `int()` of the four matched digits lies in 0..9999 |
| Read.FindYear | python/movie-recommender/movie_recommender/db/read.py:296 | finds the leftmost match of `\((\d{4})\)` at or after a position, and nothing exactly when there is none |
| Read.Year | python/movie-recommender/movie_recommender/db/read.py:288-301 | succeeds exactly when the title holds `(dddd)`, with the value of the leftmost such group; NoMovieYearError otherwise |
| Read.YearExamples | python/movie-recommender/tests/unit/test_db_read.py:12-22 | '"White Balloon, The (Badkonake sefid) (1995)"' gives 1995 and 'Babylon 5' gives NoMovieYearError |
| Read.SimilarityKey | python/movie-recommender/movie_recommender/db/read.py:211-212 | the sorted pair holds the same two movies, smaller id first |
| Read.Matches | python/movie-recommender/movie_recommender/db/read.py:156-161 | one rating per `ratings` row of (user, movie), each taken from such a row |
| Read.RowPairs | python/movie-recommender/movie_recommender/db/read.py:145-164 | a row of the smaller movie joins with every row of the same user for the larger movie, and only those |
| Read.JoinPairs | python/movie-recommender/movie_recommender/db/read.py:145-164 | every joined pair holds a user's rating of the smaller movie and the same user's rating of the larger one |
| Read.RatingPairs | python/movie-recommender/movie_recommender/db/read.py:114-164 | ValueError exactly when the two movies are equal; otherwise every pair holds a user's rating of the smaller id, then of the larger |
| Read.RatingPairsSymmetric | python/movie-recommender/movie_recommender/db/read.py:142-143 | the ids are sorted first, so the argument order does not change the pairs |
| Read.JoinPairsUsers | python/movie-recommender/movie_recommender/db/read.py:145-164 | a user has a pair in the join exactly when the user has a row for both movies |
| Read.JoinPairsDistinct | python/movie-recommender/movie_recommender/db/read.py:145-164 | under the primary key of `ratings` no user appears twice in the join |
| Read.JoinPairsCount | python/movie-recommender/movie_recommender/db/read.py:145-164 | under the primary key the join has as many pairs as there are users who rated both movies |
| Read.RatingPairsOnePerUser | python/movie-recommender/movie_recommender/db/read.py:114-164 | on a valid database `rating_pairs` yields exactly one pair per user who rated both movies |
| Read.Similarity | python/movie-recommender/movie_recommender/db/read.py:202-229 | the score stored under the sorted pair, found exactly when one is stored; MissingSimilarityError otherwise |
| Read.SimilaritySymmetric | python/movie-recommender/movie_recommender/db/read.py:211-212 | the score does not depend on the argument order |
| Read.SimilarSide | python/movie-recommender/movie_recommender/db/read.py:182-199 | each yielded (movie, score) is a movie the user rated whose stored, non-zero score with `movie` is that score |
| Read.SimilarSideComplete | python/movie-recommender/movie_recommender/db/read.py:182-199 | every rated movie with a non-zero stored score on that side of the pair is yielded |
| Read.SimilarMoviesForUser | python/movie-recommender/movie_recommender/db/read.py:167-199 | every yielded movie was rated by the user and has a non-zero score with `movie`, stored in one orientation or the other |
| Read.SimilarMoviesForUserComplete | python/movie-recommender/movie_recommender/db/read.py:167-199 | every rated movie with a non-zero stored score with `movie`, in either orientation, is yielded with that score |
| Read.SimilarSideDistinct | python/movie-recommender/movie_recommender/db/read.py:182-199 | under the primary key of `ratings`, one query yields each movie at most once |
| Read.SimilarMoviesForUserDistinct | python/movie-recommender/movie_recommender/db/read.py:167-199 | on a valid database each similar movie is yielded once: the CHECK constraint puts the first query's movies below `movie` and the second's above it |
| Read.SimilarMoviesForUserNotSelf | python/movie-recommender/movie_recommender/db/read.py:167-199 | under the movieAId < movieBId constraint the movie itself is never yielded |
| Read.UnratedRows | python/movie-recommender/movie_recommender/db/read.py:278-285 | the ids yielded are exactly those of `movies` rows not among the rated set |
| Read.UnratedRowsDistinct | python/movie-recommender/movie_recommender/db/read.py:281 | with unique movie ids, no id is yielded twice |
| Read.UnratedMovies | python/movie-recommender/movie_recommender/db/read.py:272-285 | yields exactly the movies of the database the user has not rated, each once on a valid database |
| Calc.SumBounds | python/movie-recommender/movie_recommender/db/calc.py:18 | the sum of n values in [lo, hi] lies in [n lo, n hi] |
| Calc.SumAbove | python/movie-recommender/movie_recommender/db/calc.py:18 | the sum of n values all above m exceeds n m |
| Calc.SumBelow | python/movie-recommender/movie_recommender/db/calc.py:18 | the sum of n values all below m is below n m |
| Calc.MeanBetween | python/movie-recommender/movie_recommender/db/calc.py:18 | `AVG` of a non-empty column lies between its least and its greatest value |
| Calc.MeanBounds | python/movie-recommender/movie_recommender/db/calc.py:18 | `AVG` of values in [lo, hi] lies in [lo, hi] |
| Calc.Column | python/movie-recommender/movie_recommender/db/calc.py:17-22 | the selected ratings come from rows passing the `WHERE` test, and the column is empty exactly when no row passes |
| Calc.ColumnMeanBetween | python/movie-recommender/movie_recommender/db/calc.py:17-22 | the average of a non-empty selection is bounded below and above by ratings of selected rows |
| Calc.AvgMovieRating | python/movie-recommender/movie_recommender/db/calc.py:7-29 | NoMovieRatingsError exactly when the movie has no ratings; otherwise the mean of its ratings, which lies between two of them |
| Calc.AvgUserRating | python/movie-recommender/movie_recommender/db/calc.py:32-46 | `None` exactly when the user has no ratings; otherwise the mean of the user's ratings, which lies between two of them |
| Calc.AvgUserRatingOfRater | python/movie-recommender/movie_recommender/db/calc.py:32-46 | a user with a rating always gets an average |
| Calc.AveragesInRange | python/movie-recommender/movie_recommender/db/calc.py:7-46 | with every rating in [0.5, 5], both averages are in [0.5, 5] |
| Count.AvgRatings | python/movie-recommender/movie_recommender/db/count.py:6-14 | the count is the number of distinct users in `avgRatings` |
| Count.UserIds | python/movie-recommender/movie_recommender/db/count.py:72-80 | the count is the number of distinct users in `ratings` |
| Count.JoinCountIsJoinSize | python/movie-recommender/movie_recommender/db/count.py:35-53 | `COUNT(*)` over the join equals the number of pairs `read.rating_pairs` yields from the same join |
| Count.RatingPairs | python/movie-recommender/movie_recommender/db/count.py:17-53 | ValueError exactly for a movie paired with itself; otherwise the number of pairs `read.rating_pairs` yields, which on a valid database is the number of users who rated both movies |
| Count.JoinSizeIsRaters | python/movie-recommender/movie_recommender/db/count.py:35-53 | on a valid database the join has one row per user who rated both movies |
| Count.RatingPairsSymmetric | python/movie-recommender/movie_recommender/db/count.py:33-34 | the argument order does not change the count |
| Count.UnratedMovies | python/movie-recommender/movie_recommender/db/count.py:56-69 | the count is the number of movies of the database the user has not rated, which on a valid database is the length of what `read.unrated_movies` yields |
| Count.UnratedCount | python/movie-recommender/movie_recommender/db/count.py:56-69 | on a valid database the counted set and the yielded listing have the same size |
| Write.AvgEntries | python/movie-recommender/movie_recommender/db/write.py:20-23 | each record binds its own (userId, avgRating) pair, in order |
| Write.AvgRatings | python/movie-recommender/movie_recommender/db/write.py:12-30 | `avgRatings` becomes the old table overwritten row by row with the batch, the other tables are unchanged, and the table invariants are kept |
| Write.SimilaritiesValues | python/movie-recommender/movie_recommender/db/write.py:52-59 | one row per similarity in input order, its two ids sorted, the score bound twice |
| Write.SimilarityEntries | python/movie-recommender/movie_recommender/db/write.py:52-59 | each similarity is stored under its sorted pair of ids with its score |
| Write.Similarities | python/movie-recommender/movie_recommender/db/write.py:33-49 | a self pair breaks `CHECK(movieAId < movieBId)`, so IntegrityError and nothing written; otherwise `similarities` becomes the old table upserted with every score under its sorted pair, the rest unchanged, the invariants kept |
| Write.SimilarityEntriesOrientationFree | python/movie-recommender/movie_recommender/db/write.py:55-56 | a similarity and its mirror image write the same row |
| Upsert.UpsertAll | python/movie-recommender/movie_recommender/db/write.py:24-30 | after `executemany` with `ON CONFLICT DO UPDATE` the keys are the old keys plus the written ones |
| Upsert.LastIndexOf | python/movie-recommender/movie_recommender/db/write.py:24-30 | finds a row with the key after which no row has that key |
| Upsert.UpsertAllAt | python/movie-recommender/movie_recommender/db/write.py:24-30 | a written key holds the value of the last row written for it, every other key its old value |
| Upsert.UpsertAllDistinctAt | python/movie-recommender/movie_recommender/db/write.py:24-30 | with distinct keys every row's value survives the write |
| Upsert.UpsertAllOrderFree | python/movie-recommender/movie_recommender/db/write.py:24-30 | with distinct keys the order of the rows does not change the table |
| Progress.CheckpointsNext | python/movie-recommender/movie_recommender/analyze/ii.py:85-88 | one more item yielded sends `yielded / total` exactly when the count reaches a multiple of 256 (the same protocol in `gen_cs_args` and `_gen_prfr_args`) |
| Progress.CheckpointsValues | python/movie-recommender/movie_recommender/analyze/ii.py:82-88 | after `yielded` items, `yielded // 256` values were sent, the k-th being `256 (k+1) / total`, each in (0, 1] |
| Progress.SentValues | python/movie-recommender/movie_recommender/analyze/ii.py:75-93 | with a reporter every value sent is in (0, 1], the values never decrease and the last is 1, as the docstrings promise; without one nothing is sent |
| PredictCommon.AtMostOrder | python/movie-recommender/movie_recommender/predict/common.py:6 | the tuple order on `(pred_rating, movie)` that `heapq` uses is total, transitive and antisymmetric |
| TopN.Insert | python/movie-recommender/movie_recommender/recommend/ii.py:36 | `heappush` adds the item and keeps the heap ordered |
| TopN.Offer | python/movie-recommender/movie_recommender/recommend/ii.py:33-36 | below `count` items the arrival is pushed; otherwise the size is kept and the item dropped is at most every item kept |
| TopN.NLargest | python/movie-recommender/movie_recommender/recommend/ii.py:38 | `heapq.nlargest` returns min(count, size) items of the heap in non-increasing order, all of them when count reaches the size |
| TopN.KeepsEmpty | python/movie-recommender/movie_recommender/recommend/ii.py:28 | the empty heap holds the top items of no arrivals |
| TopN.OfferKeeps | python/movie-recommender/movie_recommender/recommend/ii.py:32-36 | each arrival keeps the heap invariant: kept plus dropped is every arrival, the heap is as full as `count` allows, and nothing dropped ranks above anything kept |
| TopN.OfferWithRoom | python/movie-recommender/movie_recommender/recommend/ii.py:35-36 | the invariant survives a plain push |
| TopN.OfferWhenFull | python/movie-recommender/movie_recommender/recommend/ii.py:33-34 | the invariant survives `heappushpop` |
| TopN.KeepsTop | python/movie-recommender/movie_recommender/recommend/ii.py:38-39 | what is yielded is the top `count` of all arrivals, best first: a sub-multiset of them, and no arrival left out ranks above one yielded |
| AnalyzeII.CallCaur | python/movie-recommender/movie_recommender/analyze/ii.py:50-53 | the record holds the user and the mean of the user's ratings |
| AnalyzeII.YieldEach | python/movie-recommender/movie_recommender/analyze/ii.py:75-93 | every user of the set is yielded once, and the progress values are those of the protocol |
| AnalyzeII.GenCaurArgs | python/movie-recommender/movie_recommender/analyze/ii.py:56-93 | yields each user exactly once, skipping users already in `avgRatings` unless overwriting |
| AnalyzeII.CaurResults | python/movie-recommender/movie_recommender/analyze/ii.py:42-46 | one `call_caur` result per user, in order |
| AnalyzeII.AveragesWritten | python/movie-recommender/movie_recommender/analyze/ii.py:15-47 | afterwards every user has an average, each analysed user holds the mean of their ratings, and other averages are unchanged |
| AnalyzeII.AnalyzeUsers | python/movie-recommender/movie_recommender/analyze/ii.py:15-47 | with at least one job, `avgRatings` becomes the old table upserted with one average per user yielded, in batches of 256 times `jobs`; every user then has an average; a pool of fewer than one process is refused |
| AnalyzeII.WriteAveragesInBatches | python/movie-recommender/movie_recommender/analyze/ii.py:34-47 | writing batch by batch gives the same table as writing every average at once |
| AnalyzeII.UpsertAllAppend | python/movie-recommender/movie_recommender/analyze/ii.py:34-47 | two successive `executemany` upserts equal one upsert of both batches |
| AnalyzeII.Accumulate | python/movie-recommender/movie_recommender/analyze/ii.py:340-349 | MissingAverageRatingError exactly when some user of a pair has no stored average |
| AnalyzeII.CauchySchwarz | python/movie-recommender/movie_recommender/analyze/ii.py:340-349 | the accumulated sums satisfy left >= 0, right >= 0 and numerator squared <= left times right |
| AnalyzeII.SimilarityBounded | python/movie-recommender/movie_recommender/analyze/ii.py:350-351 | dividing by the product of the square roots gives a value in [-1, 1] |
| AnalyzeII.AdjustedCosineBounded | python/movie-recommender/movie_recommender/analyze/ii.py:337 | the adjusted cosine similarity, when defined, is in [-1, 1] |
| AnalyzeII.SumPairs | python/movie-recommender/movie_recommender/analyze/ii.py:340-349 | the loop computes the sums the formula defines |
| AnalyzeII.AdjustedCosineOf | python/movie-recommender/movie_recommender/analyze/ii.py:340-351 | ZeroDivisionError when the denominator is zero, otherwise the quotient, in [-1, 1] |
| AnalyzeII.ComputeSimilarityUnsafe | python/movie-recommender/movie_recommender/analyze/ii.py:310-351 | the adjusted cosine similarity over the rating pairs, in [-1, 1] |
| AnalyzeII.ComputeSimilarity | python/movie-recommender/movie_recommender/analyze/ii.py:261-307 | ValueError for a movie and itself; 0 below MIN_PAIRS_FOR_SIMILARITY pairs; MissingAverageRatingError with fewer averages than users; ZeroDivisionError becomes 0; every score is in [-1, 1] |
| AnalyzeII.SimilaritySymmetric | python/movie-recommender/movie_recommender/analyze/ii.py:186-188 | the score of (a, b) equals the score of (b, a) |
| AnalyzeII.SimilarityIgnoresStoredScores | python/movie-recommender/movie_recommender/analyze/ii.py:261-307 | the score does not depend on the stored similarities, so scoring while writing changes no score |
| AnalyzeII.SimilarityComputed | python/movie-recommender/movie_recommender/analyze/ii.py:354-365 | true exactly when a score is stored for the two movies in either order |
| AnalyzeII.KeptPairsDistinctKeys | python/movie-recommender/movie_recommender/analyze/ii.py:236-242 | no two kept pairs name the same two movies, so no score is computed twice |
| AnalyzeII.PairsWithMovie | python/movie-recommender/movie_recommender/analyze/ii.py:234-253 | the inner loop adds exactly the kept pairs of one movie, without repeats, with their progress values |
| AnalyzeII.GenCsArgs | python/movie-recommender/movie_recommender/analyze/ii.py:154-258 | yields exactly the pairs (movie, target) that pass the three skip rules, each once; at most len(all_movies) * len(target_movies) of them; progress against that product |
| AnalyzeII.AllPairs | python/movie-recommender/movie_recommender/analyze/ii.py:226-258 | the double loop over two sets yields exactly the kept pairs |
| AnalyzeII.GenCsArgsCovers | python/movie-recommender/movie_recommender/analyze/ii.py:184-191 | every movie paired with a different target either has its score stored or is yielded in one orientation |
| AnalyzeII.ScoreAll | python/movie-recommender/movie_recommender/analyze/ii.py:148-151 | as many similarities as pairs |
| AnalyzeII.ScoreAllMeaning | python/movie-recommender/movie_recommender/analyze/ii.py:148-151 | each pair becomes `Similarity(movie_a, movie_b, score)`, and the run fails exactly when some pair's score fails |
| AnalyzeII.ScoreBatch | python/movie-recommender/movie_recommender/analyze/ii.py:141-144 | scores a batch against the database as it was before any write |
| AnalyzeII.ScoresWritten | python/movie-recommender/movie_recommender/analyze/ii.py:134-145 | writing the scores of one batch after those of the earlier ones gives the table of all scores so far |
| AnalyzeII.WriteScoresInBatches | python/movie-recommender/movie_recommender/analyze/ii.py:134-145 | on success `similarities` becomes the old table upserted with every pair's score; on failure the error is that of the first pair whose score fails, the whole batches before the failing one are upserted, and neither the failing batch nor any later pair is written |
| AnalyzeII.AnalyzeMovies | python/movie-recommender/movie_recommender/analyze/ii.py:96-145 | scores and writes exactly the kept pairs; afterwards every pair of a movie with a different target has a stored score; when a score fails, the whole batches of `JobsPerProcessPerBatch * jobs` pairs before its batch are written and nothing after |
| AnalyzeII.AnalyzeMoviesCovers | python/movie-recommender/movie_recommender/analyze/ii.py:96-145 | after the write, every movie paired with a different target has a stored score |
| PredictII.Normalize | python/movie-recommender/movie_recommender/predict/ii.py:113-122 | maps [0.5, 5] onto [-1, 1], and denormalizing undoes it |
| PredictII.Denormalize | python/movie-recommender/movie_recommender/predict/ii.py:125-131 | maps [-1, 1] onto [0.5, 5] |
| PredictII.NormalizeExamples | python/movie-recommender/movie_recommender/predict/ii.py:113-131 | 0.5, 2.75 and 5 map to -1, 0 and 1, and back |
| PredictII.DenormalizeRoundTrip | python/movie-recommender/movie_recommender/predict/ii.py:113-131 | normalizing a denormalized rating gives it back |
| PredictII.NormalizeMonotone | python/movie-recommender/movie_recommender/predict/ii.py:113-131 | both maps keep the order of ratings strictly |
| PredictII.WeightedSumsFacts | python/movie-recommender/movie_recommender/predict/ii.py:95-101 | over rated movies with non-zero weights the sums exist, the denominator is positive exactly when some movie is similar, and with ratings in range the numerator is bounded by the denominator |
| PredictII.WeightedSumsPrefixErr | python/movie-recommender/movie_recommender/predict/ii.py:97-100 | a failed rating lookup ends the sum with that error |
| PredictII.PredictRating | python/movie-recommender/movie_recommender/predict/ii.py:77-110 | the loop computes the weighted-sum prediction, NoSimilarMoviesError on a zero denominator |
| PredictII.PredictedRatingFails | python/movie-recommender/movie_recommender/predict/ii.py:91-109 | on a valid database the prediction fails only with NoSimilarMoviesError, and exactly when no movie the user rated has a non-zero similarity to the movie |
| PredictII.PredictedRatingInRange | python/movie-recommender/movie_recommender/predict/ii.py:88-90 | with ratings in range every prediction is in [0.5, 5] |
| PredictII.PredictRatingForRecommend | python/movie-recommender/movie_recommender/predict/ii.py:50-74 | the prediction with reason SIMILAR when it succeeds, else MIN_RATING with no reason; other errors pass through |
| PredictII.PredictRatingForRecommendTotal | python/movie-recommender/movie_recommender/predict/ii.py:50-74 | on a valid database it never fails, and with ratings in range the rating is in [0.5, 5] |
| PredictII.PredictRatingForPredict | python/movie-recommender/movie_recommender/predict/ii.py:16-47 | the prediction (SIMILAR), else the movie's average (AVG_RATING), else the user's stored average (no reason); it fails only when all three are missing |
| PredictII.PredictRatingForPredictInRange | python/movie-recommender/movie_recommender/predict/ii.py:16-47 | on a valid database the only failure is a missing average rating, and with ratings in range the rating is in [0.5, 5] |
| PredictML.ClampRating | python/movie-recommender/movie_recommender/predict/ml.py:11-17 | the result is in [0.5, 5], equals the rating inside that range, and the nearer bound outside it |
| PredictML.ClampIdempotent | python/movie-recommender/movie_recommender/predict/ml.py:11-17 | clamping twice is clamping once, and clamping keeps order |
| PredictML.GetPredictorFactory | python/movie-recommender/movie_recommender/predict/ml.py:34-56 | a factory found for a name is the one that name denotes, a genre one only for a genre of GENRES; otherwise NoSuchPredictorError |
| PredictML.FactoryResolves | python/movie-recommender/movie_recommender/predict/ml.py:46-56 | a name resolves exactly when it is 'year' or 'genre:G' for G in GENRES |
| PredictML.FactoryNames | python/movie-recommender/movie_recommender/predict/ml.py:46-52 | every predictor kind is found again under its own name |
| PredictML.MatchingMovies | python/movie-recommender/movie_recommender/predict/ml.py:73-75 | the `movies` rows joined on a movie id |
| PredictML.JoinRows | python/movie-recommender/movie_recommender/predict/ml.py:73-88 | the query yields exactly (movie row, rating) for the user's ratings, less the forbidden movie when one is given |
| PredictML.ForbiddenZeroExcludesNothing | python/movie-recommender/movie_recommender/predict/ml.py:79 | `if forbidden_movie:` treats movie 0 like no forbidden movie |
| PredictML.YearPoints | python/movie-recommender/movie_recommender/predict/ml.py:86-95 | one point (year, rating) per row whose title holds a year; rows without one are skipped |
| PredictML.YearPointsStep | python/movie-recommender/movie_recommender/predict/ml.py:88-94 | one more row appends its point, or nothing when its title has no year |
| PredictML.GenreFlag | python/movie-recommender/movie_recommender/predict/ml.py:149 | 1 exactly when the genre is listed, else 0 |
| PredictML.GenrePoints | python/movie-recommender/movie_recommender/predict/ml.py:145-152 | one point per row, x is 1 exactly when the movie's genres contain the genre, y its rating |
| PredictML.MakeYearPredictor | python/movie-recommender/movie_recommender/predict/ml.py:59-95 | the loop collects exactly the year points of the query |
| PredictML.MakeGenrePredictor | python/movie-recommender/movie_recommender/predict/ml.py:122-152 | the loop collects exactly the genre points of the query |
| PredictML.MakePredictor | python/movie-recommender/movie_recommender/predict/ml.py:20-31 | NoSuchPredictorError exactly for an unknown name; otherwise the predictor of that name built from all the user's ratings |
| PredictML.MeanYBounds | python/movie-recommender/movie_recommender/predict/ml.py:116 | the mean rating of the points lies between their least and greatest rating |
| PredictML.Feature | python/movie-recommender/movie_recommender/predict/ml.py:111-112 | year predictors need a title holding a year (NoMovieYearError otherwise); genre predictors read the movie's genres and give 1 exactly when the genre is among them |
| PredictML.Predict | python/movie-recommender/movie_recommender/predict/ml.py:97-117 | the fitted rating clamped to [0.5, 5]; a vertical line of best fit falls back to the mean rating; an empty graph fails |
| PredictML.PredictErrors | python/movie-recommender/movie_recommender/predict/ml.py:97-166 | the only errors are a missing title or year, a missing movie, and an empty graph |
| PredictML.PredictOnValid | python/movie-recommender/movie_recommender/predict/ml.py:97-166 | for a movie of a valid database a predictor fails only on an empty graph or, using years, a title without one |
| AnalyzeML.BelowOrder | python/movie-recommender/movie_recommender/analyze/ml.py:109-124 | "smaller SSE" (with infinity above every number) is a strict total order |
| AnalyzeML.Get | python/movie-recommender/movie_recommender/analyze/ml.py:106 | a key's value is found exactly when the key is in the dict |
| AnalyzeML.GetAppend | python/movie-recommender/movie_recommender/analyze/ml.py:106 | inserting a new key after the others leaves every earlier lookup unchanged |
| AnalyzeML.Accumulate | python/movie-recommender/movie_recommender/analyze/ml.py:106-107 | the dict grows by one item exactly when the name is new |
| AnalyzeML.AccumulateNames | python/movie-recommender/movie_recommender/analyze/ml.py:106-107 | the keys become the old keys plus the name, and stay distinct |
| AnalyzeML.AccumulateGet | python/movie-recommender/movie_recommender/analyze/ml.py:106-107 | the name's SSE grows by the error, starting from 0 when new; other keys are unchanged |
| AnalyzeML.AccumulateItems | python/movie-recommender/movie_recommender/analyze/ml.py:106-107 | no item other than the name's changes |
| AnalyzeML.SetDefault | python/movie-recommender/movie_recommender/analyze/ml.py:109 | `setdefault` adds the key with the value only when it is missing, changing nothing else |
| AnalyzeML.AccumulateKeeps | python/movie-recommender/movie_recommender/analyze/ml.py:106-107 | adding a squared error under a predictor name keeps every SSE finite and non-negative, the keys distinct and resolvable |
| AnalyzeML.PredictorKinds | python/movie-recommender/movie_recommender/analyze/ml.py:77-81 | 'year' first, then one genre predictor for each genre of GENRES, taken in the fixed order of `GenreList`; every name resolves |
| AnalyzeML.AddPredictionFacts | python/movie-recommender/movie_recommender/analyze/ml.py:101-107 | NoMovieYearError and EmptyGraphError skip the predictor; otherwise the squared error is added under its name |
| AnalyzeML.CalcSseSpec | python/movie-recommender/movie_recommender/analyze/ml.py:64-110 | the dict always has 'year' and is never empty |
| AnalyzeML.SseStepFacts | python/movie-recommender/movie_recommender/analyze/ml.py:100-107 | one predictor's step adds its name exactly when it produced a prediction |
| AnalyzeML.MovieSsesFacts | python/movie-recommender/movie_recommender/analyze/ml.py:100-107 | after one control movie the keys are the old keys plus the names of the predictors that predicted it |
| AnalyzeML.AllSsesFacts | python/movie-recommender/movie_recommender/analyze/ml.py:76-107 | the keys are exactly the names of predictors that predicted some control movie, each SSE finite and non-negative |
| AnalyzeML.CalcSseShape | python/movie-recommender/movie_recommender/analyze/ml.py:64-110 | distinct resolvable keys including 'year'; every SSE finite and non-negative except an infinite 'year' |
| AnalyzeML.CalcSseYear | python/movie-recommender/movie_recommender/analyze/ml.py:95-109 | 'year' is infinite exactly when the year predictor predicted no control movie |
| AnalyzeML.CalcSseGenre | python/movie-recommender/movie_recommender/analyze/ml.py:76-107 | a genre's name is a key exactly when its predictor predicted some control movie |
| AnalyzeML.MovieSsesTotal | python/movie-recommender/movie_recommender/analyze/ml.py:100-107 | on a valid database a rated movie never makes the step fail |
| AnalyzeML.CalcSseTotal | python/movie-recommender/movie_recommender/analyze/ml.py:64-110 | on a valid database `calc_sse` of a user never fails |
| AnalyzeML.NameInjective | python/movie-recommender/movie_recommender/analyze/ml.py:77-81 | no two predictors share a name |
| AnalyzeML.ListRated | python/movie-recommender/movie_recommender/analyze/ml.py:76 | the rated movies are listed once each |
| AnalyzeML.MakePredictors | python/movie-recommender/movie_recommender/analyze/ml.py:77-81 | one predictor per kind, each built without the control movie |
| AnalyzeML.MakeGenrePredictors | python/movie-recommender/movie_recommender/analyze/ml.py:78-81 | one genre predictor per genre, in order, each built without the control movie |
| AnalyzeML.MovieSsesPrefixErr | python/movie-recommender/movie_recommender/analyze/ml.py:100-107 | a failure ends the run over the predictors with that error |
| AnalyzeML.AllSsesPrefixErr | python/movie-recommender/movie_recommender/analyze/ml.py:76-107 | a failure ends the run over the movies with that error |
| AnalyzeML.PredictorStep | python/movie-recommender/movie_recommender/analyze/ml.py:101-107 | one predictor's try/except and update |
| AnalyzeML.MovieStep | python/movie-recommender/movie_recommender/analyze/ml.py:77-107 | the loops for one control movie compute the specified step |
| AnalyzeML.PredictorSteps | python/movie-recommender/movie_recommender/analyze/ml.py:100-107 | the loop over the predictors computes the specified steps |
| AnalyzeML.CalcSse | python/movie-recommender/movie_recommender/analyze/ml.py:64-110 | the loops compute the specified dict over a listing of the user's rated movies |
| AnalyzeML.BestOf | python/movie-recommender/movie_recommender/analyze/ml.py:120-125 | an item of the dict whose SSE no item beats, and of those with that SSE the latest inserted one not beaten by a later one |
| AnalyzeML.BestOfOrderFree | python/movie-recommender/movie_recommender/analyze/ml.py:113-125 | the SSE `min_sse` picks does not depend on the dict's insertion order; another order can only name a different item of the same SSE |
| AnalyzeML.BestOfStep | python/movie-recommender/movie_recommender/analyze/ml.py:121-124 | one more pop keeps the best of what has been popped |
| AnalyzeML.SseTable.PopItem | python/movie-recommender/movie_recommender/analyze/ml.py:120-122 | `popitem` removes and returns the last inserted item; KeyError on an empty dict |
| AnalyzeML.MinSse | python/movie-recommender/movie_recommender/analyze/ml.py:113-125 | KeyError on an empty dict; otherwise the name with the smallest SSE, the latest inserted one among ties; the dict ends empty |
| AnalyzeML.ChosenPredictorResolves | python/movie-recommender/movie_recommender/analyze/ml.py:52-53 | the chosen name always resolves to a predictor factory |
| AnalyzeML.AnalyzeUser | python/movie-recommender/movie_recommender/analyze/ml.py:32-61 | an already analysed user is left alone unless overwriting; otherwise the user's predictor becomes the best name of `calc_sse`, or nothing changes when it fails |
| AnalyzeML.AnalyzeUsers | python/movie-recommender/movie_recommender/analyze/ml.py:11-29 | only `predictors` changes, and only for the users reached (all of them on success); an analysed user holds `min_sse(calc_sse(user))` over the tables at the start, a skipped user keeps its row, and on failure the user reached last is the one whose `calc_sse` failed |
| AnalyzeML.CalcSseIgnoresPredictors | python/movie-recommender/movie_recommender/analyze/ml.py:64-110 | `calc_sse` reads ratings and movies only, so rows written to `predictors` for other users do not change it |
| AnalyzeML.SseStepIgnoresPredictors | python/movie-recommender/movie_recommender/analyze/ml.py:100-107 | one prediction step reads no `predictors` row |
| AnalyzeML.AnalysedStep | python/movie-recommender/movie_recommender/analyze/ml.py:28-29 | analysing one more user writes its `min_sse` and keeps the rows of the others |
| AnalyzeML.SkippedStep | python/movie-recommender/movie_recommender/analyze/ml.py:42-47 | a user that already has a row and no `overwrite` leaves every row as it was |
| AnalyzeML.UsersAnalysedFacts | python/movie-recommender/movie_recommender/analyze/ml.py:28-29 | every user reached has a row, and an analysed user's row names a predictor that resolves |
| RecommendII.GenPrfrArgs | python/movie-recommender/movie_recommender/recommend/ii.py:46-66 | yields the user's unrated movies in order, with the progress protocol over their number |
| RecommendII.YieldAll | python/movie-recommender/movie_recommender/recommend/ii.py:53-66 | every movie yielded in order, progress sent every 256 and 1 at the end |
| RecommendII.Predictions | python/movie-recommender/movie_recommender/recommend/ii.py:42-43 | one `predict_rating_for_recommend` result per movie, none failing on a valid database |
| RecommendII.Recommend | python/movie-recommender/movie_recommender/recommend/ii.py:12-39 | yields the top `count` predictions over all unrated movies, best first |
| RecommendII.RecommendedUnrated | python/movie-recommender/movie_recommender/recommend/ii.py:12-39 | every recommendation is a movie of the database the user has not rated, with reason SIMILAR or a MIN_RATING fallback |
| RecommendML.Predictions | python/movie-recommender/movie_recommender/recommend/ml.py:22-26 | movies whose title has no year are skipped; any other error propagates; each other movie gets the predictor's rating with no reason |
| RecommendML.PredictionsPrefixErr | python/movie-recommender/movie_recommender/recommend/ml.py:22-26 | a failure ends the loop with that error |
| RecommendML.Recommend | python/movie-recommender/movie_recommender/recommend/ml.py:10-32 | fails exactly when some prediction fails otherwise than NoMovieYearError; else yields the top `count` predictions, best first |
| RecommendML.RecommendedUnrated | python/movie-recommender/movie_recommender/recommend/ml.py:10-32 | every recommendation is an unrated movie of the database with a rating in [0.5, 5] |
| TpDatasets.WidePrefix | python/tweet-phraseologist/tp/datasets.py:197 | the leading rows that have a third field, the first row after them not having one |
| TpDatasets.KeptAppend | python/tweet-phraseologist/tp/datasets.py:197-203 | one more row is written exactly when its handle is new, and its handle joins the seen set |
| TpDatasets.FirstOfHandleAppend | python/tweet-phraseologist/tp/datasets.py:197-203 | a row is the first with its handle exactly when no earlier row has that handle |
| TpDatasets.KeptIndices | python/tweet-phraseologist/tp/datasets.py:187-203 | the rows written are, in their order, exactly the first row of each handle |
| TpDatasets.KeptHandles | python/tweet-phraseologist/tp/datasets.py:187-203 | no two rows written share a handle, and every handle read is written |
| TpDatasets.MungeTwitterHandles | python/tweet-phraseologist/tp/datasets.py:172-203 | the header is written as it is, then the first row of every handle in order; a row without a third field stops the run with IndexError |
| TpDatasets.StopsAt | python/tweet-phraseologist/tp/datasets.py:197 | the loop stops at the first row without a handle |
| TpDatasets.HandlesStep | python/tweet-phraseologist/tp/datasets.py:197-203 | one loop step updates the seen handles and the output as the function says |
| TpDatasets.HeaderHandleNotSeen | python/tweet-phraseologist/tp/datasets.py:191-194 | the header's third field is not entered in the seen handles, so a data row with the same value is still written |
| TpDatasets.SpaceEnd | python/tweet-phraseologist/tp/datasets.py:102-103 | the end of a run of `\s` characters |
| TpDatasets.WordEnd | python/tweet-phraseologist/tp/datasets.py:102-103 | the end of a run of `\S` characters |
| TpDatasets.TruncAtIsMatch | python/tweet-phraseologist/tp/datasets.py:102 | the computed test at a split point holds exactly when `(.+)\s+\S*…` can match with group 1 ending there |
| TpDatasets.LastTruncBelowIsLast | python/tweet-phraseologist/tp/datasets.py:102 | the search finds the last split point at which the pattern matches |
| TpDatasets.Truncate | python/tweet-phraseologist/tp/datasets.py:258-263 | the result is a prefix of the tweet |
| TpDatasets.TruncateIsGreedyMatch | python/tweet-phraseologist/tp/datasets.py:258-263 | the tweet is cut exactly when the pattern matches, at the greedy group 1: the match ending furthest right |
| TpDatasets.TruncateNoEllipsis | python/tweet-phraseologist/tp/datasets.py:258-263 | a tweet without '…' is kept whole |
| TpDatasets.TruncateBeforeWord | python/tweet-phraseologist/tp/datasets.py:209-220 | a text, a space and a word holding '…' with no '…' after it keeps only the text, as the docstring's examples show |
| TpDatasets.UrlEnd | python/tweet-phraseologist/tp/datasets.py:103 | a match of the link pattern at a position ends inside the tweet |
| TpDatasets.UrlEndIsMatch | python/tweet-phraseologist/tp/datasets.py:103 | the computed end is where `\s+https://t.co/\S+` matches, greedily, and none is found exactly when it cannot match |
| TpDatasets.RemoveUrls | python/tweet-phraseologist/tp/datasets.py:264 | `re.sub` never lengthens the tweet |
| TpDatasets.RemoveUrlsNoLink | python/tweet-phraseologist/tp/datasets.py:264 | a tweet without 'https://t' is left alone |
| TpDatasets.RemoveUrlsKeepsChar | python/tweet-phraseologist/tp/datasets.py:264 | a character where no link starts is copied |
| TpDatasets.RemoveUrlsWord | python/tweet-phraseologist/tp/datasets.py:264 | a word without whitespace is copied |
| TpDatasets.UrlEndSpacedWord | python/tweet-phraseologist/tp/datasets.py:103 | a link cannot start before a word not beginning with 'h' |
| TpDatasets.RemoveUrlsSpacedWord | python/tweet-phraseologist/tp/datasets.py:264 | a space and a word not beginning with 'h' are copied |
| TpDatasets.RemoveUrlsTrailingLink | python/tweet-phraseologist/tp/datasets.py:222-228 | whitespace and a link at the end of a tweet are removed |
| TpDatasets.MungeTweet | python/tweet-phraseologist/tp/datasets.py:258-264 | the cleaned tweet is never longer |
| TpDatasets.MungeRow | python/tweet-phraseologist/tp/datasets.py:248-265 | IndexError on an empty row; otherwise the same row with its last field cleaned |
| TpDatasets.MungeTweetUnchanged | python/tweet-phraseologist/tp/datasets.py:258-264 | a tweet with neither '…' nor a link is left alone |
| TpDatasets.RemoveUrlsSpaced | python/tweet-phraseologist/tp/datasets.py:264 | a run of spaced plain words is copied |
| TpDatasets.RemoveUrlsPlain | python/tweet-phraseologist/tp/datasets.py:264 | a first word and a run of spaced plain words are copied |
| TpDatasets.MungeTweetTruncatedWord | python/tweet-phraseologist/tp/datasets.py:212-220 | "National Teacher Apprecia…" becomes "National Teacher": the truncated last word and its space are dropped |
| TpDatasets.MungeTweetTrailingLink | python/tweet-phraseologist/tp/datasets.py:222-228 | "Deep bow from a Cavs fan! https://t.co/…" loses its link and the space before it |
| TpDatasets.MungedRows | python/tweet-phraseologist/tp/datasets.py:242-246 | the rows munged, in order, up to the first row that fails |
| TpDatasets.MungeExtractedTweets | python/tweet-phraseologist/tp/datasets.py:205-246 | StopIteration on an empty file; otherwise the header and then the munged rows in some order; IndexError if a row fails, and then only the rows of the whole 256-row chunks before the failing row's chunk are written |
| TpDatasets.PoolMap | python/tweet-phraseologist/tp/datasets.py:242-246 | the pool maps the rows in chunks of `chunksize=2**8` and writes a chunk only when every row of it succeeds; on the first failure its error is returned, after exactly the whole chunks before it |
| TpAnalyze.Punctuation | python/tweet-phraseologist/tp/analyze.py:121-128 | True exactly when every character's Unicode category starts with 'P', so the empty string counts as punctuation |
| TpAnalyze.NoPunctuation | python/tweet-phraseologist/tp/analyze.py:110 | `filterfalse` keeps exactly the tokens that are not all punctuation |
| TpAnalyze.NormalizedWords | python/tweet-phraseologist/tp/analyze.py:109-112 | the normalized words are exactly the stems of the tokens that are not all punctuation |
| TpAnalyze.SentenceNgramsStep | python/tweet-phraseologist/tp/analyze.py:108-117 | each sentence adds the n-grams of its own words |
| TpAnalyze.SentenceNgramsWithin | python/tweet-phraseologist/tp/analyze.py:108-117 | an n-gram is found exactly when it is an n-gram of one sentence, so none spans two sentences |
| TpAnalyze.TallyStep | python/tweet-phraseologist/tp/analyze.py:116-117 | one n-gram adds 1 to its count, starting from 0 |
| TpAnalyze.TallyCounts | python/tweet-phraseologist/tp/analyze.py:96-118 | the keys are the n-grams seen, each counted as often as it occurs |
| TpAnalyze.TallyPositive | python/tweet-phraseologist/tp/analyze.py:116-117 | every count is at least 1 |
| TpAnalyze.CountNgramsInTweet | python/tweet-phraseologist/tp/analyze.py:96-118 | the loops compute the tally of the tweet's n-grams |
| TpAnalyze.TallyInto | python/tweet-phraseologist/tp/analyze.py:114-117 | the inner loop adds a sentence's n-grams to the running tally |
| TpAnalyze.AddCounts | python/tweet-phraseologist/tp/analyze.py:43-45 | adding one tweet's counts gives the union of the keys |
| TpAnalyze.MergePrefix | python/tweet-phraseologist/tp/analyze.py:39-45 | each tweet's counts are added to the totals in turn |
| TpAnalyze.MergeSums | python/tweet-phraseologist/tp/analyze.py:36-46 | an n-gram is in the totals exactly when some tweet has it, with the sum of the tweets' counts |
| TpAnalyze.SumOfRemove | python/tweet-phraseologist/tp/analyze.py:43-45 | a sum of counts splits off any one tweet's count |
| TpAnalyze.SumOfPermutation | python/tweet-phraseologist/tp/analyze.py:39-42 | the sums do not depend on the order the tweets arrive in |
| TpAnalyze.MergeOrderFree | python/tweet-phraseologist/tp/analyze.py:39-42 | the totals do not depend on the order `imap_unordered` returns the tweets in |
| TpAnalyze.AddTallies | python/tweet-phraseologist/tp/analyze.py:43-45 | adding two tallies tallies the two runs together |
| TpAnalyze.TweetTallies | python/tweet-phraseologist/tp/analyze.py:49-51 | one tally per tweet, in order |
| TpAnalyze.MergeTallies | python/tweet-phraseologist/tp/analyze.py:16-46 | the totals are the tally of every n-gram of the corpus |
| TpAnalyze.AddInto | python/tweet-phraseologist/tp/analyze.py:43-45 | the loop over one tweet's counts adds them to the totals |
| TpAnalyze.OfParty | python/tweet-phraseologist/tp/db/read.py:28-33 | the selected tweets are exactly those of the party |
| TpAnalyze.AllTweets | python/tweet-phraseologist/tp/db/read.py:35 | every tweet, in order |
| TpAnalyze.ReadTweets | python/tweet-phraseologist/tp/db/read.py:16-45 | ValueError exactly for a non-empty party not among the handles' parties; a party selects its tweets; no party (or an empty one) selects all |
| TpAnalyze.CountTweets | python/tweet-phraseologist/tp/db/count.py:8-22 | when the party is accepted, the count is the number of tweets read |
| TpAnalyze.GenCnitArgs | python/tweet-phraseologist/tp/analyze.py:54-93 | yields (tweet, ngram_len) per tweet read, with the progress protocol; ValueError for an unknown party |
| TpAnalyze.CountNgramsInTweets | python/tweet-phraseologist/tp/analyze.py:16-46 | ValueError for a pool of fewer than one process or an unknown party; otherwise the totals merge one tally per tweet read |
| TpCliUtils.StripLeft | python/tweet-phraseologist/tp/cli/utils.py:26 | removes exactly the leading whitespace |
| TpCliUtils.StripRight | python/tweet-phraseologist/tp/cli/utils.py:26 | removes exactly the trailing whitespace |
| TpCliUtils.ParseStripped | python/tweet-phraseologist/tp/cli/utils.py:26 | `int()` fails only with ValueError |
| TpCliUtils.ParseInt | python/tweet-phraseologist/tp/cli/utils.py:26 | `int()` fails only with ValueError |
| TpCliUtils.NonNegativeInt | python/tweet-phraseologist/tp/cli/utils.py:19-29 | returns the parsed value exactly when it parses and is at least 0; otherwise ValueError |
| TpCliUtils.Decimal | python/tweet-phraseologist/tp/cli/utils.py:19-29 | the decimal text of a number is non-empty digits |
| TpCliUtils.DecimalValue | python/tweet-phraseologist/tp/cli/utils.py:26 | the digits of a number read back as that number |
| TpCliUtils.StripNoSpace | python/tweet-phraseologist/tp/cli/utils.py:26 | text without whitespace is left alone by stripping |
| TpCliUtils.NonNegativeIntDecimal | python/tweet-phraseologist/tp/cli/utils.py:19-29 | every natural number in decimal is accepted and read back |
| TpCliUtils.NonNegativeIntNegative | python/tweet-phraseologist/tp/cli/utils.py:27-28 | '-' followed by a positive number is refused with ValueError; '-0' is 0 |
| TpCliUtils.NonNegativeIntExamples | python/tweet-phraseologist/tests/unit/test_tp_cli_utils.py:11-31 | '-1' is refused, '0' gives 0 and '1' gives 1 |
| TpDbCommon.Casted | python/tweet-phraseologist/tp/db/common.py:93 | one cast row per row |
| TpDbCommon.ParseCsvAsWritten | python/tweet-phraseologist/tp/db/common.py:90-93 | as written, the loop yields the cast rows after the first header_rows + 1 |
| TpDbCommon.ParseCsv | python/tweet-phraseologist/tp/db/common.py:68-93 | as documented, the cast rows after the first header_rows |
| TpDbCommon.AsWrittenSkips | python/tweet-phraseologist/tp/db/common.py:90-93 | as written, header_rows + 1 rows are dropped and the rest cast in order |
| TpDbCommon.AsWrittenLosesFirstDataRow | python/tweet-phraseologist/tp/db/common.py:90-93 | with one header row, of a header and two data rows only the second is yielded |
| TpDbCommon.IntendedSkips | python/tweet-phraseologist/tp/db/common.py:85-88 | exactly header_rows rows are dropped and the rest cast in order |
| TpDbCommon.IntendedDefault | python/tweet-phraseologist/tp/db/common.py:68-71 | with the defaults every data row after the single header row is yielded unchanged |
| AnalyzeII.BatchedStep | python/movie-recommender/movie_recommender/analyze/ii.py:34-39 | each `islice` batch is a non-empty run of at most `jobs_per_batch` arguments continuing where the previous one stopped |
| AnalyzeII.NoSelfScores | python/movie-recommender/movie_recommender/analyze/ii.py:236-238 | the generated pairs never pair a movie with itself, so `write.similarities` never meets the CHECK constraint |
| AnalyzeML.GenreKindListed | python/movie-recommender/movie_recommender/analyze/ml.py:78-81 | every genre of GENRES gets a predictor |
| AnalyzeML.SseTable.constructor | python/movie-recommender/movie_recommender/analyze/ml.py:113-119 | the dict handed to `min_sse` holds the given items in insertion order |
| DbCommon.Skipped | python/movie-recommender/movie_recommender/db/common.py:93-98 | the number of rows dropped: none for `header_rows <= 0`, all when it reaches the row count, else `header_rows` |
| TpDatasets.LastTruncBelow | python/tweet-phraseologist/tp/datasets.py:259 | the search for the rightmost split point stays within the tweet |

## Left out

- Process pools, the reporter process and its pipe: a pool map is modelled as a sequential map in argument order, and the pipe as the sequence of values sent.
- AnalyzeII.AnalyzeUsers: averages are written in generation order rather than the pool's completion order; the keys are distinct, so the table is the same (Upsert.UpsertAllOrderFree).
- AnalyzeII.AnalyzeMovies: scores are written in generation order rather than the pool's completion order; the keys are distinct (AnalyzeII.KeptPairsDistinctKeys), so the table is the same.
- AnalyzeII.GenCsArgs: the skip rule on stored scores reads the tables as they were before the first batch; the program reads them lazily while batches are written, which gives the same pairs because no pair written earlier shares its key with a later one.
- AnalyzeII.AnalyzeUsers, AnalyzeII.AnalyzeMovies, AnalyzeML.AnalyzeUsers, RecommendII.Recommend: `jobs` is an integer and a value below 1 is refused with ValueError, as `multiprocessing.Pool` does; `jobs=None` (one process per CPU) is not modelled, and in `analyze/ii.py` it would fail when multiplied.
- TpAnalyze.CountNgramsInTweets: `jobs=None` is modelled; the totals are merged in tweet order, which gives the same totals in any order (TpAnalyze.MergeOrderFree).
- TpDatasets.MungeExtractedTweets: the chunks are munged and written in file order and the run stops at the chunk holding the first failing row, which is written not at all. With a real pool, chunks finish in any order, so when a row fails, earlier chunks that are still running are lost as well, and later chunks may already have been written.
- AnalyzeML.AnalyzeUsers: users are analysed one after another in the given order and a failure stops the run; with a real pool, users after a failing one may already have been analysed.
- AnalyzeII.AnalyzeMovies: when a score fails, `sent` holds the progress of generating every pair, because the model generates the pairs before the first batch; the program's lazy generator has reported only the pairs pulled by then.
- Query row order: SQLite leaves it unspecified; the model uses table row order, and the contracts that matter (sets, counts, sums) do not depend on it. `similar_movies_for_user` is modelled by walking the user's `ratings` rows and looking up `similarities`, where the program walks the `similarities` rows of `movie` and keeps those whose other movie the user has rated; both give the same rows, each once (Read.SimilarMoviesForUser, Read.SimilarMoviesForUserComplete, Read.SimilarMoviesForUserDistinct).
- Iteration order of Python sets (`read.users()`, `read.all_movies()`, `rated_movies`) is a listing returned alongside the result, with every element once.
- AnalyzeML.PredictorKinds: GENRES is a Python set, so `for genre in GENRES` runs in an order fixed by the string hash seed; the model takes the one fixed order of `GenreList`. The order sets the insertion order of the SSE dict, which decides only which of several equal smallest SSEs `min_sse` names (AnalyzeML.BestOfOrderFree); AnalyzeML.CalcSse, AnalyzeML.AnalyzeUser and AnalyzeML.AnalyzeUsers therefore name the genre this order picks among ties.
- `movie_recommender.graph.Graph` is not part of this model: the regression is a parameter `fit` that fails only with EmptyGraphError or VerticalLineOfBestFitGraphError and fails with EmptyGraphError on no points.
- `math.sqrt` is a parameter required to return the non-negative square root of a non-negative number.
- Floating point: ratings, means, sums and quotients are exact reals, so rounding is not modelled; `float('inf')` is the `Infinite` variant of an SSE.
- nltk's `sent_tokenize`, `TweetTokenizer`, `SnowballStemmer` and `ngrams`, and `unicodedata.category`, are parameters; their own behaviour is not modelled.
- TpCliUtils.ParseInt: `int()` is modelled for ASCII digits only; Python also accepts the digits of other scripts.
- Read.Year: `\d` in the year pattern is modelled as an ASCII digit; Python also matches the digits of other scripts.
- SQLite connections, the data paths, `db/init.py` and `tp/db/init.py` (table creation and CSV import) are I/O and not modelled.
- The command-line front ends (`cli/*.py`, `tp/cli/tp_*.py`) and `add_jobs_flag` are argument parsing and terminal output.
- Dataset management in `tp/datasets.py` (`name`, `archive`, `install`, `uninstall`, `installed`, `install_path`, `SimpleFixtureDataset`) is file-system work.
- The constants naming files and paths (`DB_NAME`, `DATASETS`, `XDG_RESOURCE`) are not modelled.

## Findings

| source | as written | input that shows it | evidently intended | confidence | as-written member | corrected member |
|---|---|---|---|---|---|---|
| python/tweet-phraseologist/tp/db/common.py:90-91 | rows are enumerated from 0 and skipped while `i <= header_rows`, which drops `header_rows + 1` rows | `header_rows=1` on a header and two data rows yields only the second data row | skip exactly the `header_rows` header rows the docstring describes, as the movie recommender's `parse_csv` does | not executed | TpDbCommon.AsWrittenLosesFirstDataRow | TpDbCommon.IntendedSkips |
