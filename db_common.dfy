/** Records shared by the database modules, and the CSV reader of the
    movie recommender. */
module DbCommon {

  /** The average of a user's ratings. */
  datatype AvgRating = AvgRating(userId: int, avgRating: real)

  /** The ratings one user gave to two movies. */
  datatype RatingPair = RatingPair(userId: int, ratingA: real, ratingB: real)

  /** Two movies and their similarity score. */
  datatype Similarity = Similarity(movieA: int, movieB: int, score: real)

  /** How many leading rows `ParseCsv` drops from `n` rows. */
  function Skipped(n: nat, headerRows: int): (k: nat)
    ensures k <= n
    ensures headerRows <= 0 ==> k == 0
    ensures 0 <= headerRows <= n ==> k == headerRows
    ensures headerRows >= n ==> k == n
  {
    if headerRows <= 0 then 0 else if headerRows >= n then n else headerRows
  }

  /** The CSV rows after the first `headerRows`, each passed through `caster`.
      The loop counts lines from 1 and skips a row while the count is at most
      `headerRows`. */
  method ParseCsv<T>(rows: seq<seq<string>>, caster: seq<string> -> T, headerRows: int)
    returns (out: seq<T>)
    ensures |out| == |rows| - Skipped(|rows|, headerRows)
    ensures forall k :: 0 <= k < |out| ==> out[k] == caster(rows[k + Skipped(|rows|, headerRows)])
  {
    out := [];
    var currentLine := 0;
    var i := 0;
    while i < |rows|
      invariant 0 <= i <= |rows|
      invariant currentLine == i
      invariant |out| == i - Skipped(i, headerRows)
      invariant forall k :: 0 <= k < |out| ==> out[k] == caster(rows[k + Skipped(i, headerRows)])
    {
      currentLine := currentLine + 1;
      if currentLine > headerRows {
        out := out + [caster(rows[i])];
      }
      i := i + 1;
    }
  }
}
