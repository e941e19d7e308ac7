/**
 * Analysis for the item-item algorithm: the users' average ratings and the
 * adjusted cosine similarity of pairs of movies, computed in batches and
 * written to the database.
 *
 * A process pool maps each batch; the model maps it in argument order. The
 * results of a batch have distinct keys (users, or canonical movie pairs),
 * so by `Upsert.UpsertAllOrderFree` the order in which they arrive does not
 * change what the write leaves in the table.
 */
module AnalyzeII {
  import opened Exceptions
  import opened Tables
  import opened DbCommon
  import Constants
  import Read
  import Count
  import Calc
  import Write
  import Upsert
  import Progress
  import Sets
  import opened RealArith

  // ------------------------------------------------------------ averages

  /** `call_caur`: the average rating of one user. The only caller passes
      users drawn from `ratings`, who always have an average. */
  function CallCaur(t: Tables, user: UserId): (a: AvgRating)
    requires user in Read.Users(t)
    ensures a.userId == user
    ensures |Calc.UserRatings(t, user)| > 0 && a.avgRating == Calc.Mean(Calc.UserRatings(t, user))
  {
    var r :| r in t.ratings && r.user == user;
    Calc.AvgUserRatingOfRater(t, user);
    AvgRating(user, Calc.AvgUserRating(t, user).value)
  }

  /** The loop of `gen_caur_args`: yields each user of the set once, and
      with a reporter sends the progress after every 256th. */
  method YieldEach(pending: set<UserId>, reporter: bool) returns (users: seq<UserId>, sent: seq<real>)
    ensures forall u :: u in users <==> u in pending
    ensures forall i, j :: 0 <= i < j < |users| ==> users[i] != users[j]
    ensures |users| == |pending|
    ensures sent == Progress.Sent(reporter, |users|, |users|)
  {
    var numUsers := |pending|;
    var usersYielded := 0;
    users, sent := [], [];
    var remaining := pending;
    while remaining != {}
      invariant remaining <= pending
      invariant forall u :: u in users <==> u in pending && u !in remaining
      invariant forall i, j :: 0 <= i < j < |users| ==> users[i] != users[j]
      invariant |users| + |remaining| == numUsers
      invariant reporter ==> usersYielded == |users|
      invariant reporter ==> sent == Progress.Checkpoints(|users|, numUsers)
      invariant !reporter ==> sent == []
      decreases |remaining|
    {
      ghost var some := Sets.Element(remaining);
      var u :| u in remaining;
      forall i | 0 <= i < |users| ensures users[i] != u {
        assert users[i] in users;
      }
      Progress.CheckpointsNext(|users|, numUsers);
      users := users + [u];
      if reporter {
        usersYielded := usersYielded + 1;
        if usersYielded % Constants.JobsPerProcessPerBatch == 0 {
          sent := sent + [usersYielded as real / numUsers as real];
        }
      }
      remaining := remaining - {u};
    }
    if reporter {
      sent := sent + [1.0];
    }
  }

  /** `gen_caur_args`: every user when `overwrite` is set, otherwise the
      users not yet in `avgRatings`, each once; with a reporter the progress
      values are sent. */
  method GenCaurArgs(t: Tables, overwrite: bool, reporter: bool)
    returns (users: seq<UserId>, sent: seq<real>)
    ensures forall u :: u in users <==> u in Read.Users(t) && (overwrite || u !in t.avgRatings)
    ensures forall i, j :: 0 <= i < j < |users| ==> users[i] != users[j]
    ensures sent == Progress.Sent(reporter, |users|, |users|)
  {
    var pending := Read.Users(t);
    if !overwrite {
      pending := pending - Read.UsersInAvgRatings(t);
    }
    users, sent := YieldEach(pending, reporter);
  }

  /** The averages of a batch of users, one per user, in argument order. */
  function CaurResults(t: Tables, users: seq<UserId>): (avgs: seq<AvgRating>)
    requires forall u :: u in users ==> u in Read.Users(t)
    ensures |avgs| == |users|
    ensures forall i :: 0 <= i < |users| ==> avgs[i] == CallCaur(t, users[i])
  {
    seq(|users|, i requires 0 <= i < |users| => CallCaur(t, users[i]))
  }

  /** The concatenation of the batches. */
  function Flatten<T>(batches: seq<seq<T>>): seq<T> {
    if batches == [] then [] else Flatten(batches[..|batches| - 1]) + batches[|batches| - 1]
  }

  /** The batching of the driver loops: each batch is a non-empty run of at
      most `size` arguments, and together they are the arguments in order. */
  ghost predicate Batched<T>(batches: seq<seq<T>>, args: seq<T>, size: int) {
    Flatten(batches) == args && forall k :: 0 <= k < |batches| ==> 0 < |batches[k]| <= size
  }

  /** After the users' averages are written, every user has one, each
      written user holds the mean of their ratings, and every other row is
      unchanged. */
  lemma {:induction false} AveragesWritten(t: Tables, users: seq<UserId>, overwrite: bool, u: UserId)
    requires forall v :: v in users <==> v in Read.Users(t) && (overwrite || v !in t.avgRatings)
    requires forall i, j :: 0 <= i < j < |users| ==> users[i] != users[j]
    ensures var after := Upsert.UpsertAll(t.avgRatings, Write.AvgEntries(CaurResults(t, users)));
            && (u in Read.Users(t) ==> u in after)
            && (u in users ==> after[u] == CallCaur(t, u).avgRating)
            && (u !in users && u in t.avgRatings ==> after[u] == t.avgRatings[u])
  {
    var entries := Write.AvgEntries(CaurResults(t, users));
    assert Upsert.DistinctKeys(entries);
    if u in users {
      var i :| 0 <= i < |users| && users[i] == u;
      Upsert.UpsertAllDistinctAt(t.avgRatings, entries, i);
    } else if u in t.avgRatings {
      assert u !in Upsert.KeysOf(entries);
      Upsert.UpsertAllAt(t.avgRatings, entries, u);
    }
  }

  /** `analyze_users`: computes the average rating of each user that
      `gen_caur_args` yields and writes them in batches of at most
      256 * jobs. A pool needs at least one process: fewer raise ValueError
      before anything is done. */
  method AnalyzeUsers(db: Database, overwrite: bool, jobs: int, reporter: bool)
    returns (r: Result<()>, sent: seq<real>, ghost args: seq<UserId>, ghost batches: seq<seq<UserId>>)
    modifies db
    ensures jobs < 1 ==> r == Err(ValueError) && db.tables == old(db.tables) && sent == []
    ensures jobs >= 1 ==> r.Ok?
    ensures r.Ok? ==>
              && (forall u :: u in args <==> u in Read.Users(old(db.tables)) && (overwrite || u !in old(db.tables).avgRatings))
              && Batched(batches, args, Constants.JobsPerProcessPerBatch * jobs)
              && sent == Progress.Sent(reporter, |args|, |args|)
              && db.tables == old(db.tables).(avgRatings :=
                   Upsert.UpsertAll(old(db.tables).avgRatings, Write.AvgEntries(CaurResults(old(db.tables), args))))
    ensures r.Ok? ==> forall u :: u in Read.Users(old(db.tables)) ==> u in db.tables.avgRatings
    ensures r.Ok? ==> forall u :: u in args ==> db.tables.avgRatings[u] == CallCaur(old(db.tables), u).avgRating
  {
    args, batches := [], [];
    if jobs < 1 {
      r, sent := Err(ValueError), [];
      return;
    }
    var t0 := db.tables;
    var users;
    users, sent := GenCaurArgs(t0, overwrite, reporter);
    args := users;
    batches := WriteAveragesInBatches(db, users, Constants.JobsPerProcessPerBatch * jobs);
    forall u | u in Read.Users(t0) || u in users
      ensures u in db.tables.avgRatings
      ensures u in users ==> db.tables.avgRatings[u] == CallCaur(t0, u).avgRating
    {
      AveragesWritten(t0, users, overwrite, u);
    }
    r := Ok(());
  }

  /** The driver loop of `analyze_users`: slices the users into batches of
      at most `jobsPerBatch`, computes each batch's averages and writes them
      before the next batch is taken. */
  method WriteAveragesInBatches(db: Database, users: seq<UserId>, jobsPerBatch: nat)
    returns (ghost batches: seq<seq<UserId>>)
    requires 0 < jobsPerBatch
    requires forall u :: u in users ==> u in Read.Users(db.tables)
    modifies db
    ensures Batched(batches, users, jobsPerBatch)
    ensures db.tables == old(db.tables).(avgRatings :=
              Upsert.UpsertAll(old(db.tables).avgRatings, Write.AvgEntries(CaurResults(old(db.tables), users))))
  {
    var t0 := db.tables;
    ghost var entries := Write.AvgEntries(CaurResults(t0, users));
    batches := [];
    var pos := 0;
    while pos < |users|
      invariant 0 <= pos <= |users|
      invariant Batched(batches, users[..pos], jobsPerBatch)
      invariant db.tables == t0.(avgRatings := Upsert.UpsertAll(t0.avgRatings, entries[..pos]))
      decreases |users| - pos
    {
      var end := if pos + jobsPerBatch <= |users| then pos + jobsPerBatch else |users|;
      var batch := users[pos..end];
      var avgs := CaurResults(t0, batch);
      AvgEntriesSlice(t0, users, pos, end);
      Write.AvgRatings(db, avgs);
      UpsertAllSlices(t0.avgRatings, entries, pos, end);
      BatchedStep(batches, users, pos, end, jobsPerBatch);
      batches := batches + [batch];
      pos := end;
    }
    assert users[..pos] == users;
    assert entries[..pos] == entries;
  }

  /** Writing the next slice of rows after a prefix writes the longer prefix. */
  lemma UpsertAllSlices<K, V>(m: map<K, V>, entries: seq<(K, V)>, lo: nat, hi: nat)
    requires lo <= hi <= |entries|
    ensures Upsert.UpsertAll(Upsert.UpsertAll(m, entries[..lo]), entries[lo..hi]) == Upsert.UpsertAll(m, entries[..hi])
  {
    assert entries[..hi] == entries[..lo] + entries[lo..hi];
    UpsertAllAppend(m, entries[..lo], entries[lo..hi]);
  }

  /** A prefix is a shorter prefix followed by the slice between them. */
  lemma SliceSplit<T>(s: seq<T>, lo: nat, hi: nat)
    requires lo <= hi <= |s|
    ensures s[..hi] == s[..lo] + s[lo..hi]
  {
  }

  /** Taking the next batch of at most `size` arguments keeps the batching. */
  lemma BatchedStep<T>(batches: seq<seq<T>>, args: seq<T>, lo: nat, hi: nat, size: int)
    requires lo < hi <= |args| && hi - lo <= size
    requires Batched(batches, args[..lo], size)
    ensures Batched(batches + [args[lo..hi]], args[..hi], size)
  {
    assert args[..hi] == args[..lo] + args[lo..hi];
    var bs := batches + [args[lo..hi]];
    assert bs[..|bs| - 1] == batches;
  }

  /** The rows of a batch are the matching slice of the rows of all users. */
  lemma AvgEntriesSlice(t: Tables, users: seq<UserId>, lo: nat, hi: nat)
    requires lo <= hi <= |users|
    requires forall u :: u in users ==> u in Read.Users(t)
    ensures Write.AvgEntries(CaurResults(t, users[lo..hi])) == Write.AvgEntries(CaurResults(t, users))[lo..hi]
  {
    var all := Write.AvgEntries(CaurResults(t, users));
    var part := Write.AvgEntries(CaurResults(t, users[lo..hi]));
    assert forall i :: 0 <= i < hi - lo ==> part[i] == all[lo + i];
  }

  /** Writing two runs of rows one after the other is writing their
      concatenation. */
  lemma {:induction false} UpsertAllAppend<K, V>(m: map<K, V>, e1: seq<(K, V)>, e2: seq<(K, V)>)
    ensures Upsert.UpsertAll(Upsert.UpsertAll(m, e1), e2) == Upsert.UpsertAll(m, e1 + e2)
    decreases |e2|
  {
    if e2 != [] {
      var p2 := e2[..|e2| - 1];
      assert (e1 + e2)[..|e1 + e2| - 1] == e1 + p2;
      UpsertAllAppend(m, e1, p2);
    } else {
      assert e1 + e2 == e1;
    }
  }

  // ---------------------------------------------------------- similarity

  /** A square root: `sqrt(x)` is the non-negative root of every x >= 0. */
  ghost predicate IsSqrt(sqrt: real -> real) {
    forall x :: !(x < 0.0) ==> !(sqrt(x) < 0.0) && Square(sqrt(x)) == x
  }

  /** The three sums of the adjusted cosine formula. */
  datatype Sums = Sums(numerator: real, left: real, right: real)

  /** The sums over the rating pairs, each rating centred on its user's
      average; MissingAverageRatingError for a user without one. */
  function Accumulate(avgRatings: map<UserId, real>, pairs: seq<RatingPair>): (r: Result<Sums>)
    ensures r.Err? <==> exists p :: p in pairs && p.userId !in avgRatings
    ensures r.Err? ==> r.error == MissingAverageRating
    decreases |pairs|
  {
    if pairs == [] then Ok(Sums(0.0, 0.0, 0.0))
    else
      var prefix := pairs[..|pairs| - 1];
      var last := pairs[|pairs| - 1];
      assert pairs == prefix + [last];
      match Accumulate(avgRatings, prefix)
      case Err(e) => Err(e)
      case Ok(s) =>
        if last.userId !in avgRatings then Err(MissingAverageRating)
        else
          var avg := avgRatings[last.userId];
          var x := last.ratingA - avg;
          var y := last.ratingB - avg;
          Ok(Sums(s.numerator + Mul(x, y), s.left + Square(x), s.right + Square(y)))
  }

  /** The sums satisfy the Cauchy-Schwarz inequality:
      numerator^2 <= left * right, with both sums of squares non-negative. */
  lemma {:induction false} CauchySchwarz(avgRatings: map<UserId, real>, pairs: seq<RatingPair>)
    requires Accumulate(avgRatings, pairs).Ok?
    ensures var s := Accumulate(avgRatings, pairs).value;
            !(s.left < 0.0) && !(s.right < 0.0) && !(s.left * s.right < Square(s.numerator))
    decreases |pairs|
  {
    if pairs != [] {
      var prefix := pairs[..|pairs| - 1];
      var last := pairs[|pairs| - 1];
      CauchySchwarz(avgRatings, prefix);
      var s := Accumulate(avgRatings, prefix).value;
      var avg := avgRatings[last.userId];
      var x, y := last.ratingA - avg, last.ratingB - avg;
      assert Accumulate(avgRatings, pairs).value == Sums(s.numerator + Mul(x, y), s.left + Square(x), s.right + Square(y));
      CauchySchwarzExtend(s, x, y);
    }
  }

  /** Adding one centred pair (x, y) to the sums keeps the inequality. */
  lemma CauchySchwarzExtend(s: Sums, x: real, y: real)
    requires !(s.left < 0.0) && !(s.right < 0.0) && !(s.left * s.right < Square(s.numerator))
    ensures var s' := Sums(s.numerator + Mul(x, y), s.left + Square(x), s.right + Square(y));
            !(s'.left < 0.0) && !(s'.right < 0.0) && !(s'.left * s'.right < Square(s'.numerator))
  {
    SquareNonnegative(x);
    SquareNonnegative(y);
    CauchySchwarzStep(s.numerator, s.left, s.right, x, y);
  }

  /** numerator / (sqrt(left) * sqrt(right)) lies in [-1, 1] whenever the
      denominator is not zero. */
  lemma SimilarityBounded(s: Sums, sqrt: real -> real)
    requires IsSqrt(sqrt)
    requires !(s.left < 0.0) && !(s.right < 0.0) && !(s.left * s.right < Square(s.numerator))
    requires Mul(sqrt(s.left), sqrt(s.right)) != 0.0
    ensures -1.0 <= s.numerator / Mul(sqrt(s.left), sqrt(s.right)) <= 1.0
  {
    var a, b := sqrt(s.left), sqrt(s.right);
    var d := Mul(a, b);
    MulNonnegative(a, b);
    SquareOfProduct(a, b);
    QuotientBounded(s.numerator, d);
  }

  /** The adjusted cosine similarity over the rating pairs:
      MissingAverageRatingError for a rater without an average,
      ZeroDivisionError when a sum of squares is zero. */
  function AdjustedCosine(avgRatings: map<UserId, real>, pairs: seq<RatingPair>, sqrt: real -> real): Result<real> {
    match Accumulate(avgRatings, pairs)
    case Err(e) => Err(e)
    case Ok(s) =>
      var denominator := Mul(sqrt(s.left), sqrt(s.right));
      if denominator == 0.0 then Err(ZeroDivisionError) else Ok(s.numerator / denominator)
  }

  /** Every adjusted cosine similarity lies in [-1, 1]. */
  lemma AdjustedCosineBounded(avgRatings: map<UserId, real>, pairs: seq<RatingPair>, sqrt: real -> real)
    requires IsSqrt(sqrt)
    ensures var r := AdjustedCosine(avgRatings, pairs, sqrt);
            r.Ok? ==> -1.0 <= r.value <= 1.0
  {
    if Accumulate(avgRatings, pairs).Ok? {
      var s := Accumulate(avgRatings, pairs).value;
      CauchySchwarz(avgRatings, pairs);
      if Mul(sqrt(s.left), sqrt(s.right)) != 0.0 {
        SimilarityBounded(s, sqrt);
      }
    }
  }

  /** What `compute_similarity_unsafe` returns for the pair: ValueError for
      a movie and itself (from `rating_pairs`), otherwise the adjusted cosine
      similarity over the users who rated both. */
  function UnsafeSimilarity(t: Tables, a: MovieId, b: MovieId, sqrt: real -> real): Result<real> {
    if a == b then Err(ValueError)
    else AdjustedCosine(t.avgRatings, Read.RatingPairs(t, a, b).value, sqrt)
  }

  /** Accumulating one more pair adds its centred product and squares. */
  lemma AccumulateSnoc(avgRatings: map<UserId, real>, prefix: seq<RatingPair>, last: RatingPair)
    requires Accumulate(avgRatings, prefix).Ok? && last.userId in avgRatings
    ensures var s := Accumulate(avgRatings, prefix).value;
            var x := last.ratingA - avgRatings[last.userId];
            var y := last.ratingB - avgRatings[last.userId];
            Accumulate(avgRatings, prefix + [last]) == Ok(Sums(s.numerator + Mul(x, y), s.left + Square(x), s.right + Square(y)))
  {
    var pairs := prefix + [last];
    assert pairs[..|pairs| - 1] == prefix;
  }

  /** The loop of `compute_similarity_unsafe`: the three sums accumulated
      pair by pair, stopping at the first rater without an average. */
  method SumPairs(avgRatings: map<UserId, real>, pairs: seq<RatingPair>) returns (r: Result<Sums>)
    ensures r == Accumulate(avgRatings, pairs)
  {
    var numerator, denominatorLeft, denominatorRight := 0.0, 0.0, 0.0;
    var i := 0;
    while i < |pairs|
      invariant 0 <= i <= |pairs|
      invariant Accumulate(avgRatings, pairs[..i]) == Ok(Sums(numerator, denominatorLeft, denominatorRight))
    {
      assert pairs[..i + 1][..i] == pairs[..i];
      var pair := pairs[i];
      if pair.userId !in avgRatings {
        assert pairs[..i + 1][i] == pair;
        AccumulateErrExtends(avgRatings, pairs, i + 1);
        return Err(MissingAverageRating);
      }
      var avg := avgRatings[pair.userId];
      var x, y := pair.ratingA - avg, pair.ratingB - avg;
      assert pairs[..i + 1] == pairs[..i] + [pair];
      AccumulateSnoc(avgRatings, pairs[..i], pair);
      numerator := numerator + Mul(x, y);
      denominatorLeft := denominatorLeft + Square(x);
      denominatorRight := denominatorRight + Square(y);
      i := i + 1;
    }
    assert pairs[..i] == pairs;
    return Ok(Sums(numerator, denominatorLeft, denominatorRight));
  }

  /** The end of `compute_similarity_unsafe`: the sums, then the quotient
      of the numerator by the product of the square roots. */
  method AdjustedCosineOf(avgRatings: map<UserId, real>, pairs: seq<RatingPair>, sqrt: real -> real)
    returns (r: Result<real>)
    requires IsSqrt(sqrt)
    ensures r == AdjustedCosine(avgRatings, pairs, sqrt)
    ensures r.Ok? ==> -1.0 <= r.value <= 1.0
  {
    var sums := SumPairs(avgRatings, pairs);
    AdjustedCosineBounded(avgRatings, pairs, sqrt);
    if sums.Err? {
      return Err(sums.error);
    }
    var s := sums.value;
    var denominator := Mul(sqrt(s.left), sqrt(s.right));
    if denominator == 0.0 {
      return Err(ZeroDivisionError);
    }
    return Ok(s.numerator / denominator);
  }

  /** `compute_similarity_unsafe`: the sums accumulated over the rating
      pairs, then the quotient; the result lies in [-1, 1]. */
  method ComputeSimilarityUnsafe(t: Tables, a: MovieId, b: MovieId, sqrt: real -> real)
    returns (r: Result<real>)
    requires IsSqrt(sqrt)
    ensures r == UnsafeSimilarity(t, a, b, sqrt)
    ensures r.Ok? ==> -1.0 <= r.value <= 1.0
  {
    var pairsResult := Read.RatingPairs(t, a, b);
    if pairsResult.Err? {
      return Err(pairsResult.error);
    }
    r := AdjustedCosineOf(t.avgRatings, pairsResult.value, sqrt);
  }

  /** Once a prefix of the pairs fails, so does the whole sequence. */
  lemma AccumulateErrExtends(avgRatings: map<UserId, real>, pairs: seq<RatingPair>, k: nat)
    requires k <= |pairs| && Accumulate(avgRatings, pairs[..k]).Err?
    ensures Accumulate(avgRatings, pairs) == Err(MissingAverageRating)
  {
    var p :| p in pairs[..k] && p.userId !in avgRatings;
    assert p in pairs;
  }

  /** What `compute_similarity` returns, its checks taken in order. */
  function SimilaritySpec(t: Tables, a: MovieId, b: MovieId, sqrt: real -> real): Result<real> {
    if a == b then Err(ValueError)
    else if Count.RatingPairs(t, a, b).value < Constants.MinPairsForSimilarity then Ok(0.0)
    else if Count.AvgRatings(t) < Count.UserIds(t) then Err(MissingAverageRating)
    else
      match UnsafeSimilarity(t, a, b, sqrt)
      case Err(ZeroDivisionError) => Ok(0.0)
      case other => other
  }

  /** `compute_similarity`: ValueError for a movie and itself; 0 when fewer
      than MinPairsForSimilarity users rated both, before the averages are
      checked; MissingAverageRatingError when fewer averages than users are
      stored; otherwise the adjusted cosine similarity, 0 when a sum of
      squares is zero. Every score it returns lies in [-1, 1]. */
  method ComputeSimilarity(t: Tables, a: MovieId, b: MovieId, sqrt: real -> real)
    returns (r: Result<real>)
    requires IsSqrt(sqrt)
    ensures r == SimilaritySpec(t, a, b, sqrt)
    ensures a == b ==> r == Err(ValueError)
    ensures a != b && Count.RatingPairs(t, a, b).value < Constants.MinPairsForSimilarity ==> r == Ok(0.0)
    ensures (a != b && Count.RatingPairs(t, a, b).value >= Constants.MinPairsForSimilarity
             && |t.avgRatings.Keys| < |Read.Users(t)|) ==> r == Err(MissingAverageRating)
    ensures r.Err? ==> r.error in {ValueError, MissingAverageRating}
    ensures r.Ok? ==> -1.0 <= r.value <= 1.0
  {
    if a == b {
      return Err(ValueError);
    }
    if Count.RatingPairs(t, a, b).value < Constants.MinPairsForSimilarity {
      return Ok(0.0);
    }
    if Count.AvgRatings(t) < Count.UserIds(t) {
      return Err(MissingAverageRating);
    }
    r := ComputeSimilarityUnsafe(t, a, b, sqrt);
    if r.Err? && r.error == ZeroDivisionError {
      r := Ok(0.0);
    }
  }

  /** The score does not depend on the order of the two movies. */
  lemma SimilaritySymmetric(t: Tables, a: MovieId, b: MovieId, sqrt: real -> real)
    ensures SimilaritySpec(t, a, b, sqrt) == SimilaritySpec(t, b, a, sqrt)
  {
    Read.RatingPairsSymmetric(t, a, b);
    Count.RatingPairsSymmetric(t, a, b);
  }

  /** The score reads `ratings` and `avgRatings` only. */
  lemma SimilarityIgnoresStoredScores(t: Tables, sims: map<(MovieId, MovieId), real>,
                                      a: MovieId, b: MovieId, sqrt: real -> real)
    ensures SimilaritySpec(t.(similarities := sims), a, b, sqrt) == SimilaritySpec(t, a, b, sqrt)
  {
    var t' := t.(similarities := sims);
    if a != b {
      assert Count.RatingPairs(t', a, b) == Count.RatingPairs(t, a, b);
      assert Count.AvgRatings(t') == Count.AvgRatings(t);
      assert Count.UserIds(t') == Count.UserIds(t);
      assert Read.RatingPairs(t', a, b) == Read.RatingPairs(t, a, b);
      assert UnsafeSimilarity(t', a, b, sqrt) == UnsafeSimilarity(t, a, b, sqrt);
    }
  }

  /** `similarity_computed`: a score is stored for the pair, in its
      canonical orientation. */
  function SimilarityComputed(t: Tables, a: MovieId, b: MovieId): (computed: bool)
    ensures computed <==> Read.SimilarityKey(a, b) in t.similarities
  {
    Read.Similarity(t, a, b).Ok?
  }

  // ------------------------------------------------------- movie pairs

  /** The target movies: the given movies and every movie the given users
      rated. */
  function Targets(t: Tables, movies: seq<MovieId>, users: seq<UserId>): set<MovieId> {
    (set m | m in movies) + Read.RatedMovies(t, set u | u in users)
  }

  /** The skip rules of `gen_cs_args` let (movie, target) through: not a
      movie with itself, not the mirror image of a pair of two targets with
      the smaller id first, and, unless overwriting, not a pair whose score
      is stored. */
  predicate Kept(t: Tables, targets: set<MovieId>, overwrite: bool, movie: MovieId, target: MovieId) {
    && movie != target
    && !(movie in targets && movie > target)
    && (overwrite || !SimilarityComputed(t, movie, target))
  }

  /** Two kept pairs over the same targets never name the same two movies,
      in either order. */
  lemma KeptPairsDistinctKeys(t: Tables, targets: set<MovieId>, overwrite: bool,
                              m1: MovieId, t1: MovieId, m2: MovieId, t2: MovieId)
    requires t1 in targets && t2 in targets
    requires Kept(t, targets, overwrite, m1, t1) && Kept(t, targets, overwrite, m2, t2)
    requires Read.SimilarityKey(m1, t1) == Read.SimilarityKey(m2, t2)
    ensures m1 == m2 && t1 == t2
  {
  }

  lemma MulMono(a: nat, b: nat, c: nat)
    requires a <= b
    ensures a * c <= b * c
  {
  }

  lemma MulSucc(a: nat, c: nat)
    ensures a * c + c == (a + 1) * c
  {
  }

  /** The inner loop of `gen_cs_args`: the pairs of one movie with each
      target that the skip rules keep, appended to those yielded so far,
      with the progress values they send. */
  method PairsWithMovie(t: Tables, targetMovies: set<MovieId>, overwrite: bool, movie: MovieId,
                        reporter: bool, numPairs: nat, pairs0: seq<(MovieId, MovieId)>,
                        sent0: seq<real>, yielded0: nat)
    returns (pairs: seq<(MovieId, MovieId)>, sent: seq<real>, pairsYielded: nat)
    requires |pairs0| + |targetMovies| <= numPairs
    requires forall i, j :: 0 <= i < j < |pairs0| ==> pairs0[i] != pairs0[j]
    requires forall p :: p in pairs0 ==> p.0 != movie
    requires reporter ==> yielded0 == |pairs0| && sent0 == Progress.Checkpoints(|pairs0|, numPairs)
    requires !reporter ==> sent0 == []
    ensures forall p :: p in pairs <==>
              p in pairs0 || (p.0 == movie && p.1 in targetMovies && Kept(t, targetMovies, overwrite, p.0, p.1))
    ensures forall i, j :: 0 <= i < j < |pairs| ==> pairs[i] != pairs[j]
    ensures |pairs| <= |pairs0| + |targetMovies|
    ensures reporter ==> pairsYielded == |pairs| && sent == Progress.Checkpoints(|pairs|, numPairs)
    ensures !reporter ==> sent == []
  {
    pairs, sent, pairsYielded := pairs0, sent0, yielded0;
    var inner := targetMovies;
    while inner != {}
      invariant inner <= targetMovies
      invariant forall p :: p in pairs <==>
                  p in pairs0 || (p.0 == movie && p.1 in targetMovies && p.1 !in inner
                                  && Kept(t, targetMovies, overwrite, p.0, p.1))
      invariant forall i, j :: 0 <= i < j < |pairs| ==> pairs[i] != pairs[j]
      invariant |pairs| + |inner| <= |pairs0| + |targetMovies|
      invariant reporter ==> pairsYielded == |pairs| && sent == Progress.Checkpoints(|pairs|, numPairs)
      invariant !reporter ==> sent == []
      decreases |inner|
    {
      ghost var some := Sets.Element(inner);
      var targetMovie :| targetMovie in inner;
      if movie == targetMovie {
        // Skip (2, 2).
      } else if movie in targetMovies && movie > targetMovie {
        // Skip (4, 2); (2, 4) is processed.
      } else if !overwrite && SimilarityComputed(t, movie, targetMovie) {
        // Already computed.
      } else {
        forall i | 0 <= i < |pairs| ensures pairs[i] != (movie, targetMovie) {
          assert pairs[i] in pairs;
        }
        Progress.CheckpointsNext(|pairs|, numPairs);
        pairs := pairs + [(movie, targetMovie)];
        if reporter {
          pairsYielded := pairsYielded + 1;
          if pairsYielded % Constants.JobsPerProcessPerBatch == 0 {
            sent := sent + [pairsYielded as real / numPairs as real];
          }
        }
      }
      inner := inner - {targetMovie};
    }
  }

  /** `gen_cs_args`: for each movie, then each target movie, the pairs the
      skip rules keep; with a reporter the progress values are sent, with
      |all movies| * |targets| as the total. */
  method GenCsArgs(t: Tables, movies: seq<MovieId>, users: seq<UserId>, overwrite: bool, reporter: bool)
    returns (pairs: seq<(MovieId, MovieId)>, sent: seq<real>)
    ensures forall p :: p in pairs <==>
              p.0 in Read.AllMovies(t) && p.1 in Targets(t, movies, users)
              && Kept(t, Targets(t, movies, users), overwrite, p.0, p.1)
    ensures forall i, j :: 0 <= i < j < |pairs| ==> pairs[i] != pairs[j]
    ensures |pairs| <= |Read.AllMovies(t)| * |Targets(t, movies, users)|
    ensures sent == Progress.Sent(reporter, |pairs|, |Read.AllMovies(t)| * |Targets(t, movies, users)|)
  {
    var allMovies := Read.AllMovies(t);
    var targetMovies := Targets(t, movies, users);
    pairs, sent := AllPairs(t, allMovies, targetMovies, overwrite, reporter);
  }

  /** The outer loop of `gen_cs_args`, over every movie. */
  method AllPairs(t: Tables, allMovies: set<MovieId>, targetMovies: set<MovieId>, overwrite: bool, reporter: bool)
    returns (pairs: seq<(MovieId, MovieId)>, sent: seq<real>)
    ensures forall p :: p in pairs <==>
              p.0 in allMovies && p.1 in targetMovies && Kept(t, targetMovies, overwrite, p.0, p.1)
    ensures forall i, j :: 0 <= i < j < |pairs| ==> pairs[i] != pairs[j]
    ensures |pairs| <= |allMovies| * |targetMovies|
    ensures sent == Progress.Sent(reporter, |pairs|, |allMovies| * |targetMovies|)
  {
    var numPairs := |allMovies| * |targetMovies|;
    var pairsYielded := 0;
    pairs, sent := [], [];
    var outer := allMovies;
    while outer != {}
      invariant outer <= allMovies
      invariant forall p :: p in pairs <==>
                  p.0 in allMovies && p.0 !in outer && p.1 in targetMovies
                  && Kept(t, targetMovies, overwrite, p.0, p.1)
      invariant forall i, j :: 0 <= i < j < |pairs| ==> pairs[i] != pairs[j]
      invariant |pairs| <= (|allMovies| - |outer|) * |targetMovies|
      invariant reporter ==> pairsYielded == |pairs|
      invariant reporter ==> sent == Progress.Checkpoints(|pairs|, numPairs)
      invariant !reporter ==> sent == []
      decreases |outer|
    {
      ghost var some := Sets.Element(outer);
      var movie :| movie in outer;
      assert |allMovies| - |outer| + 1 <= |allMovies| by {
        assert |outer - {movie}| == |outer| - 1;
        assert outer - {movie} <= allMovies;
      }
      MulSucc(|allMovies| - |outer|, |targetMovies|);
      MulMono(|allMovies| - |outer| + 1, |allMovies|, |targetMovies|);
      pairs, sent, pairsYielded :=
        PairsWithMovie(t, targetMovies, overwrite, movie, reporter, numPairs, pairs, sent, pairsYielded);
      outer := outer - {movie};
    }
    if reporter {
      sent := sent + [1.0];
    }
  }

  /** When the targets are movies of the database, every pair of a movie
      with a different target is covered: its score is stored already, or
      one of its two orientations is yielded. */
  lemma GenCsArgsCovers(t: Tables, targets: set<MovieId>, overwrite: bool,
                        pairs: seq<(MovieId, MovieId)>, m: MovieId, target: MovieId)
    requires targets <= Read.AllMovies(t)
    requires forall p :: p in pairs <==>
               p.0 in Read.AllMovies(t) && p.1 in targets && Kept(t, targets, overwrite, p.0, p.1)
    requires m in Read.AllMovies(t) && target in targets && m != target
    ensures Read.SimilarityKey(m, target) in t.similarities
            || exists p :: p in pairs && Read.SimilarityKey(p.0, p.1) == Read.SimilarityKey(m, target)
  {
    if m in targets && m > target {
      if !SimilarityComputed(t, target, m) {
        assert (target, m) in pairs;
        assert Read.SimilarityKey(target, m) == Read.SimilarityKey(m, target);
      }
    } else if !SimilarityComputed(t, m, target) {
      assert (m, target) in pairs;
    }
  }

  /** `compute_similarity` on fixed tables, as a function of one pair. */
  function Scorer(t: Tables, sqrt: real -> real): ((MovieId, MovieId)) -> Result<real> {
    (p: (MovieId, MovieId)) => SimilaritySpec(t, p.0, p.1, sqrt)
  }

  /** `call_cs` over a sequence of pairs: each pair with its score, if no
      score fails. */
  function ScoreAll(score: ((MovieId, MovieId)) -> Result<real>, pairs: seq<(MovieId, MovieId)>): (r: Result<seq<Similarity>>)
    ensures r.Ok? ==> |r.value| == |pairs|
    decreases |pairs|
  {
    if pairs == [] then Ok([])
    else
      var prefix := pairs[..|pairs| - 1];
      var last := pairs[|pairs| - 1];
      match ScoreAll(score, prefix)
      case Err(e) => Err(e)
      case Ok(scores) =>
        match score(last)
        case Err(e) => Err(e)
        case Ok(s) => Ok(scores + [Similarity(last.0, last.1, s)])
  }

  /** A run of scores succeeds exactly when every pair's score does, and
      then holds each pair with its score, in order. */
  lemma {:induction false} ScoreAllMeaning(score: ((MovieId, MovieId)) -> Result<real>, pairs: seq<(MovieId, MovieId)>)
    ensures var r := ScoreAll(score, pairs);
            && (r.Ok? ==> forall i :: 0 <= i < |pairs| ==>
                  score(pairs[i]).Ok? && r.value[i] == Similarity(pairs[i].0, pairs[i].1, score(pairs[i]).value))
            && (r.Err? <==> exists i :: 0 <= i < |pairs| && score(pairs[i]).Err?)
    decreases |pairs|
  {
    if pairs != [] {
      var prefix := pairs[..|pairs| - 1];
      ScoreAllMeaning(score, prefix);
      assert forall i :: 0 <= i < |prefix| ==> prefix[i] == pairs[i];
    }
  }

  /** Scoring two runs of pairs one after the other is scoring their
      concatenation. */
  lemma {:induction false} ScoreAllAppend(score: ((MovieId, MovieId)) -> Result<real>, p1: seq<(MovieId, MovieId)>, p2: seq<(MovieId, MovieId)>)
    requires ScoreAll(score, p1).Ok? && ScoreAll(score, p2).Ok?
    ensures ScoreAll(score, p1 + p2) == Ok(ScoreAll(score, p1).value + ScoreAll(score, p2).value)
    decreases |p2|
  {
    if p2 == [] {
      assert p1 + p2 == p1;
      assert ScoreAll(score, p1).value + ScoreAll(score, p2).value == ScoreAll(score, p1).value;
    } else {
      var prefix := p2[..|p2| - 1];
      var last := p2[|p2| - 1];
      ScoreAllAppend(score, p1, prefix);
      var all := p1 + p2;
      assert all[..|all| - 1] == p1 + prefix;
      assert all[|all| - 1] == last;
      var v1, v2 := ScoreAll(score, p1).value, ScoreAll(score, prefix).value;
      var s := Similarity(last.0, last.1, score(last).value);
      assert (v1 + v2) + [s] == v1 + (v2 + [s]);
    }
  }

  /** Once a prefix of the pairs fails, the whole run fails with the same
      error. */
  lemma {:induction false} ScoreAllPrefixErr(score: ((MovieId, MovieId)) -> Result<real>, pairs: seq<(MovieId, MovieId)>, j: nat)
    requires j <= |pairs| && ScoreAll(score, pairs[..j]).Err?
    ensures ScoreAll(score, pairs) == ScoreAll(score, pairs[..j])
    decreases |pairs|
  {
    if j == |pairs| {
      assert pairs[..j] == pairs;
    } else {
      var prefix := pairs[..|pairs| - 1];
      assert prefix[..j] == pairs[..j];
      ScoreAllPrefixErr(score, prefix, j);
    }
  }

  /** A failing run after a successful one makes their concatenation fail
      with its error. */
  lemma {:induction false} ScoreAllAppendErr(score: ((MovieId, MovieId)) -> Result<real>, p1: seq<(MovieId, MovieId)>, p2: seq<(MovieId, MovieId)>)
    requires ScoreAll(score, p1).Ok? && ScoreAll(score, p2).Err?
    ensures ScoreAll(score, p1 + p2) == ScoreAll(score, p2)
    decreases |p2|
  {
    var prefix := p2[..|p2| - 1];
    var all := p1 + p2;
    assert all[..|all| - 1] == p1 + prefix;
    assert all[|all| - 1] == p2[|p2| - 1];
    if ScoreAll(score, prefix).Err? {
      ScoreAllAppendErr(score, p1, prefix);
    } else {
      ScoreAllAppend(score, p1, prefix);
    }
  }

  /** The pool's map over one batch of `analyze_movies`: the score of each
      pair in order, stopping at the first pair whose score fails. The
      scores are computed on the current tables, which differ from the
      tables at the start only in the scores already written. */
  method ScoreBatch(t: Tables, t0: Tables, batch: seq<(MovieId, MovieId)>, sqrt: real -> real)
    returns (r: Result<seq<Similarity>>)
    requires IsSqrt(sqrt)
    requires t == t0.(similarities := t.similarities)
    ensures r == ScoreAll(Scorer(t0, sqrt), batch)
  {
    var scores: seq<Similarity> := [];
    for k := 0 to |batch|
      invariant ScoreAll(Scorer(t0, sqrt), batch[..k]) == Ok(scores)
    {
      var score := ComputeSimilarity(t, batch[k].0, batch[k].1, sqrt);
      SimilarityIgnoresStoredScores(t0, t.similarities, batch[k].0, batch[k].1, sqrt);
      assert Scorer(t0, sqrt)(batch[k]) == score;
      assert batch[..k + 1][..k] == batch[..k];
      if score.Err? {
        assert ScoreAll(Scorer(t0, sqrt), batch[..k + 1]) == Err(score.error);
        ScoreAllPrefixErr(Scorer(t0, sqrt), batch, k + 1);
        return Err(score.error);
      }
      scores := scores + [Similarity(batch[k].0, batch[k].1, score.value)];
    }
    assert batch[..|batch|] == batch;
    return Ok(scores);
  }

  /** Writing the scores of the next batch after those of the earlier
      batches writes the scores of the longer prefix. */
  lemma ScoresWritten(score: ((MovieId, MovieId)) -> Result<real>, sims: map<(MovieId, MovieId), real>,
                      pairs: seq<(MovieId, MovieId)>, lo: nat, hi: nat)
    requires lo <= hi <= |pairs|
    requires ScoreAll(score, pairs[..lo]).Ok? && ScoreAll(score, pairs[lo..hi]).Ok?
    ensures ScoreAll(score, pairs[..hi]).Ok?
    ensures Upsert.UpsertAll(Upsert.UpsertAll(sims, Write.SimilarityEntries(ScoreAll(score, pairs[..lo]).value)),
                             Write.SimilarityEntries(ScoreAll(score, pairs[lo..hi]).value))
         == Upsert.UpsertAll(sims, Write.SimilarityEntries(ScoreAll(score, pairs[..hi]).value))
  {
    var before := ScoreAll(score, pairs[..lo]).value;
    var batch := ScoreAll(score, pairs[lo..hi]).value;
    assert pairs[..hi] == pairs[..lo] + pairs[lo..hi];
    ScoreAllAppend(score, pairs[..lo], pairs[lo..hi]);
    assert Write.SimilarityEntries(before + batch) == Write.SimilarityEntries(before) + Write.SimilarityEntries(batch);
    UpsertAllAppend(sims, Write.SimilarityEntries(before), Write.SimilarityEntries(batch));
  }

  /** A batch of pairs of two different movies scores no movie against
      itself, so writing it cannot break the table's CHECK constraint. */
  lemma NoSelfScores(score: ((MovieId, MovieId)) -> Result<real>, batch: seq<(MovieId, MovieId)>)
    requires forall p :: p in batch ==> p.0 != p.1
    requires ScoreAll(score, batch).Ok?
    ensures !Write.HasSelfPair(ScoreAll(score, batch).value)
  {
    ScoreAllMeaning(score, batch);
    var scores := ScoreAll(score, batch).value;
    forall i | 0 <= i < |scores| ensures scores[i].movieA != scores[i].movieB {
      assert batch[i] in batch;
    }
  }

  /** The tables after the scores of the first `pos` pairs, all of which
      succeed, are upserted into `t0`. */
  ghost predicate WrittenThrough(t0: Tables, sqrt: real -> real, pairs: seq<(MovieId, MovieId)>, pos: nat, t: Tables) {
    && pos <= |pairs|
    && ScoreAll(Scorer(t0, sqrt), pairs[..pos]).Ok?
    && t == t0.(similarities := Upsert.UpsertAll(t0.similarities,
                 Write.SimilarityEntries(ScoreAll(Scorer(t0, sqrt), pairs[..pos]).value)))
  }

  /** Every batch holds exactly `size` items. */
  ghost predicate FullBatches<T>(batches: seq<seq<T>>, size: int) {
    forall k :: 0 <= k < |batches| ==> |batches[k]| == size
  }

  /** The end of the batch `islice` takes from position `pos`. */
  function BatchEnd(pos: nat, size: nat, n: nat): nat {
    if pos + size <= n then pos + size else n
  }

  /** The driver loop of `analyze_movies`: slices the pairs into batches of
      at most `jobsPerBatch`, scores each batch and writes it before the
      next batch is taken. A failing score stops the loop before its batch
      is written: the pairs before `written`, a whole number of batches,
      have their scores upserted, and the batch starting there fails. */
  method WriteScoresInBatches(db: Database, pairs: seq<(MovieId, MovieId)>, jobsPerBatch: nat, sqrt: real -> real)
    returns (r: Result<()>, ghost batches: seq<seq<(MovieId, MovieId)>>, ghost written: nat)
    requires IsSqrt(sqrt) && 0 < jobsPerBatch
    requires forall p :: p in pairs ==> p.0 != p.1
    modifies db
    ensures r.Err? ==> ScoreAll(Scorer(old(db.tables), sqrt), pairs) == Err(r.error)
    ensures r.Err? ==>
              && written < |pairs|
              && Batched(batches, pairs[..written], jobsPerBatch) && FullBatches(batches, jobsPerBatch)
              && WrittenThrough(old(db.tables), sqrt, pairs, written, db.tables)
              && ScoreAll(Scorer(old(db.tables), sqrt), pairs[written..BatchEnd(written, jobsPerBatch, |pairs|)])
                 == Err(r.error)
    ensures r.Ok? ==>
              && ScoreAll(Scorer(old(db.tables), sqrt), pairs).Ok?
              && Batched(batches, pairs, jobsPerBatch)
              && db.tables == old(db.tables).(similarities := Upsert.UpsertAll(old(db.tables).similarities,
                   Write.SimilarityEntries(ScoreAll(Scorer(old(db.tables), sqrt), pairs).value)))
  {
    var t0 := db.tables;
    ghost var score := Scorer(t0, sqrt);
    batches := [];
    var pos := 0;
    while pos < |pairs|
      invariant 0 <= pos <= |pairs|
      invariant pos < |pairs| ==> FullBatches(batches, jobsPerBatch)
      invariant Batched(batches, pairs[..pos], jobsPerBatch)
      invariant WrittenThrough(t0, sqrt, pairs, pos, db.tables)
      decreases |pairs| - pos
    {
      var end := BatchEnd(pos, jobsPerBatch, |pairs|);
      var batch := pairs[pos..end];
      var scores := ScoreBatch(db.tables, t0, batch, sqrt);
      if scores.Err? {
        SliceSplit(pairs, pos, end);
        ScoreAllAppendErr(score, pairs[..pos], batch);
        ScoreAllPrefixErr(score, pairs, end);
        assert ScoreAll(score, pairs[pos..BatchEnd(pos, jobsPerBatch, |pairs|)]) == Err(scores.error);
        r, written := Err(scores.error), pos;
        return;
      }
      NoSelfScores(score, batch);
      var written := Write.Similarities(db, scores.value);
      ScoresWritten(score, t0.similarities, pairs, pos, end);
      BatchedStep(batches, pairs, pos, end, jobsPerBatch);
      batches := batches + [batch];
      pos := end;
    }
    assert pairs[..pos] == pairs;
    r, written := Ok(()), pos;
  }

  /** `analyze_movies`: checks the pool size, generates the pairs to score
      and writes their scores in batches of `JobsPerProcessPerBatch * jobs`.
      On success every generated pair holds its score; on a failing score
      the whole batches before `written` hold theirs and nothing else is
      written. */
  method AnalyzeMovies(db: Database, movies: seq<MovieId>, users: seq<UserId>, overwrite: bool,
                       jobs: int, reporter: bool, sqrt: real -> real)
    returns (r: Result<()>, sent: seq<real>, ghost args: seq<(MovieId, MovieId)>,
             ghost batches: seq<seq<(MovieId, MovieId)>>, ghost written: nat)
    requires IsSqrt(sqrt)
    modifies db
    ensures jobs < 1 ==> r == Err(ValueError) && db.tables == old(db.tables) && sent == []
    ensures forall p :: p in args <==>
              p.0 in Read.AllMovies(old(db.tables)) && p.1 in Targets(old(db.tables), movies, users)
              && Kept(old(db.tables), Targets(old(db.tables), movies, users), overwrite, p.0, p.1)
    ensures |args| <= |Read.AllMovies(old(db.tables))| * |Targets(old(db.tables), movies, users)|
    ensures jobs >= 1 ==> sent == Progress.Sent(reporter, |args|,
                                   |Read.AllMovies(old(db.tables))| * |Targets(old(db.tables), movies, users)|)
    ensures r.Err? && jobs >= 1 ==> ScoreAll(Scorer(old(db.tables), sqrt), args) == Err(r.error)
    ensures r.Err? && jobs >= 1 ==>
              && written < |args|
              && Batched(batches, args[..written], Constants.JobsPerProcessPerBatch * jobs)
              && FullBatches(batches, Constants.JobsPerProcessPerBatch * jobs)
              && WrittenThrough(old(db.tables), sqrt, args, written, db.tables)
              && ScoreAll(Scorer(old(db.tables), sqrt),
                          args[written..BatchEnd(written, Constants.JobsPerProcessPerBatch * jobs, |args|)])
                 == Err(r.error)
    ensures r.Ok? ==>
              && ScoreAll(Scorer(old(db.tables), sqrt), args).Ok?
              && db.tables == old(db.tables).(similarities := Upsert.UpsertAll(old(db.tables).similarities,
                   Write.SimilarityEntries(ScoreAll(Scorer(old(db.tables), sqrt), args).value)))
    ensures r.Ok? && Targets(old(db.tables), movies, users) <= Read.AllMovies(old(db.tables)) ==>
              forall m, target ::
                m in Read.AllMovies(old(db.tables)) && target in Targets(old(db.tables), movies, users) && m != target
                ==> Read.SimilarityKey(m, target) in db.tables.similarities
  {
    var t0 := db.tables;
    var pairs;
    pairs, sent := GenCsArgs(t0, movies, users, overwrite, reporter);
    args := pairs;
    if jobs < 1 {
      r, sent, batches, written := Err(ValueError), [], [], 0;
      return;
    }
    r, batches, written := WriteScoresInBatches(db, pairs, Constants.JobsPerProcessPerBatch * jobs, sqrt);
    var targets := Targets(t0, movies, users);
    if r.Ok? && targets <= Read.AllMovies(t0) {
      forall m, target | m in Read.AllMovies(t0) && target in targets && m != target
        ensures Read.SimilarityKey(m, target) in db.tables.similarities
      {
        AnalyzeMoviesCovers(t0, targets, overwrite, pairs, Scorer(t0, sqrt), m, target);
      }
    }
  }

  /** After a successful `analyze_movies` whose targets are movies of the
      database, every pair of a movie with a different target has a score. */
  lemma AnalyzeMoviesCovers(t: Tables, targets: set<MovieId>, overwrite: bool,
                            args: seq<(MovieId, MovieId)>, score: ((MovieId, MovieId)) -> Result<real>,
                            m: MovieId, target: MovieId)
    requires targets <= Read.AllMovies(t)
    requires forall p :: p in args <==>
               p.0 in Read.AllMovies(t) && p.1 in targets && Kept(t, targets, overwrite, p.0, p.1)
    requires ScoreAll(score, args).Ok?
    requires m in Read.AllMovies(t) && target in targets && m != target
    ensures Read.SimilarityKey(m, target) in
              Upsert.UpsertAll(t.similarities, Write.SimilarityEntries(ScoreAll(score, args).value))
  {
    GenCsArgsCovers(t, targets, overwrite, args, m, target);
    var entries := Write.SimilarityEntries(ScoreAll(score, args).value);
    if Read.SimilarityKey(m, target) !in t.similarities {
      ScoreAllMeaning(score, args);
      var p :| p in args && Read.SimilarityKey(p.0, p.1) == Read.SimilarityKey(m, target);
      var i :| 0 <= i < |args| && args[i] == p;
      assert entries[i].0 == Read.SimilarityKey(m, target);
      assert Read.SimilarityKey(m, target) in Upsert.KeysOf(entries);
    }
  }
}
