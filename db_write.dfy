/**
 * The write operations of the movie recommender: UPSERT statements run by
 * `executemany` inside one transaction.
 */
module Write {
  import opened Exceptions
  import opened Tables
  import opened DbCommon
  import Upsert
  import Read

  /** The (key, value) pairs `avg_ratings` writes: each record binds
      (userId, avgRating) for the INSERT and avgRating again for the
      UPDATE, so both paths store avgRating under userId. */
  function AvgEntries(batch: seq<AvgRating>): (es: seq<(UserId, real)>)
    ensures |es| == |batch|
    ensures forall i :: 0 <= i < |batch| ==> es[i] == (batch[i].userId, batch[i].avgRating)
  {
    seq(|batch|, i requires 0 <= i < |batch| => (batch[i].userId, batch[i].avgRating))
  }

  /** `avg_ratings`: upserts every record into `avgRatings`; no other table
      changes, and the table invariants are kept. */
  method AvgRatings(db: Database, batch: seq<AvgRating>)
    modifies db
    ensures db.tables == old(db.tables).(avgRatings := Upsert.UpsertAll(old(db.tables.avgRatings), AvgEntries(batch)))
    ensures Valid(old(db.tables)) ==> Valid(db.tables)
  {
    var entries := AvgEntries(batch);
    var before := db.tables;
    var i := 0;
    while i < |batch|
      invariant 0 <= i <= |batch|
      invariant db.tables == before.(avgRatings := Upsert.UpsertAll(before.avgRatings, entries[..i]))
    {
      assert entries[..i + 1][..i] == entries[..i];
      db.tables := db.tables.(avgRatings := db.tables.avgRatings[batch[i].userId := batch[i].avgRating]);
      i := i + 1;
    }
    assert entries[..i] == entries;
  }

  /** A row bound by the `similarities` statement: the two movie ids, the
      score for the INSERT and the score for the UPDATE. */
  datatype SimilarityRow = SimilarityRow(movieA: MovieId, movieB: MovieId, score: real, update: real)

  /** `_similarities_values`: one row per similarity, in input order, with
      the two ids in ascending order and the score twice. */
  method SimilaritiesValues(sims: seq<Similarity>) returns (rows: seq<SimilarityRow>)
    ensures |rows| == |sims|
    ensures forall i :: 0 <= i < |sims| ==>
              rows[i].movieA <= rows[i].movieB
              && {rows[i].movieA, rows[i].movieB} == {sims[i].movieA, sims[i].movieB}
              && rows[i].score == sims[i].score && rows[i].update == sims[i].score
  {
    rows := [];
    for i := 0 to |sims|
      invariant |rows| == i
      invariant forall j :: 0 <= j < i ==>
                  rows[j].movieA <= rows[j].movieB
                  && {rows[j].movieA, rows[j].movieB} == {sims[j].movieA, sims[j].movieB}
                  && rows[j].score == sims[j].score && rows[j].update == sims[j].score
    {
      var s := sims[i];
      var a, b := s.movieA, s.movieB;
      if b < a {
        a, b := b, a;
      }
      rows := rows + [SimilarityRow(a, b, s.score, s.score)];
    }
  }

  /** The (key, value) pairs the rows of `SimilaritiesValues` write. */
  function SimilarityEntries(sims: seq<Similarity>): (es: seq<((MovieId, MovieId), real)>)
    ensures |es| == |sims|
    ensures forall i :: 0 <= i < |sims| ==>
              es[i] == (Read.SimilarityKey(sims[i].movieA, sims[i].movieB), sims[i].score)
  {
    seq(|sims|, i requires 0 <= i < |sims| =>
      (Read.SimilarityKey(sims[i].movieA, sims[i].movieB), sims[i].score))
  }

  /** Some similarity pairs a movie with itself. */
  predicate HasSelfPair(sims: seq<Similarity>) {
    exists i :: 0 <= i < |sims| && sims[i].movieA == sims[i].movieB
  }

  /** `similarities`: upserts every score under its canonical pair. A row
      pairing a movie with itself breaks CHECK(movieAId < movieBId): the
      statement raises IntegrityError and the transaction is rolled back,
      so nothing is written. The table invariants are kept. */
  method Similarities(db: Database, sims: seq<Similarity>) returns (r: Result<()>)
    modifies db
    ensures HasSelfPair(sims) ==> r == Err(IntegrityError) && db.tables == old(db.tables)
    ensures !HasSelfPair(sims) ==>
              r.Ok? && db.tables == old(db.tables).(similarities :=
                Upsert.UpsertAll(old(db.tables.similarities), SimilarityEntries(sims)))
    ensures Valid(old(db.tables)) ==> Valid(db.tables)
  {
    var rows := SimilaritiesValues(sims);
    var entries := SimilarityEntries(sims);
    var before := db.tables;
    var i := 0;
    while i < |rows|
      invariant 0 <= i <= |rows|
      invariant forall j :: 0 <= j < i ==> sims[j].movieA != sims[j].movieB
      invariant db.tables == before.(similarities := Upsert.UpsertAll(before.similarities, entries[..i]))
      invariant Valid(before) ==> Valid(db.tables)
    {
      var row := rows[i];
      if !(row.movieA < row.movieB) {
        db.tables := before;
        return Err(IntegrityError);
      }
      assert entries[..i + 1][..i] == entries[..i];
      assert entries[i] == ((row.movieA, row.movieB), row.score);
      db.tables := db.tables.(similarities := db.tables.similarities[(row.movieA, row.movieB) := row.score]);
      i := i + 1;
    }
    assert entries[..i] == entries;
    return Ok(());
  }

  /** A similarity and its mirror image write the same row, so the
      orientation of the input pairs does not matter. */
  lemma SimilarityEntriesOrientationFree(s1: seq<Similarity>, s2: seq<Similarity>)
    requires |s1| == |s2|
    requires forall i :: 0 <= i < |s1| ==>
               s2[i] == s1[i] || s2[i] == Similarity(s1[i].movieB, s1[i].movieA, s1[i].score)
    ensures SimilarityEntries(s1) == SimilarityEntries(s2)
  {
  }
}
