/**
 * The progress protocol of the argument generators: with a reporter, after
 * every 256th item yielded the generator sends `yielded / total` down the
 * pipe, and when it is exhausted it sends 1; without a reporter nothing is
 * sent.
 */
module Progress {
  import Constants

  /** The values sent while the first `yielded` items were produced. */
  function Checkpoints(yielded: nat, total: nat): seq<real>
    requires yielded <= total
    decreases yielded
  {
    if yielded == 0 then []
    else
      Checkpoints(yielded - 1, total)
      + (if yielded % Constants.JobsPerProcessPerBatch == 0
         then [yielded as real / total as real] else [])
  }

  /** One more item yielded: a value is sent when it completes a run of 256. */
  lemma CheckpointsNext(yielded: nat, total: nat)
    requires yielded < total
    ensures Checkpoints(yielded + 1, total) == Checkpoints(yielded, total)
              + (if (yielded + 1) % Constants.JobsPerProcessPerBatch == 0
                 then [(yielded + 1) as real / total as real] else [])
  {
  }

  /** Everything sent by a generator that yielded `yielded` of `total`
      items and then finished. */
  function Sent(reporter: bool, yielded: nat, total: nat): seq<real>
    requires yielded <= total
  {
    if reporter then Checkpoints(yielded, total) + [1.0] else []
  }

  /** The checkpoints are `k * 256 / total` for k = 1 .. yielded / 256,
      each in (0, 1]. */
  lemma {:induction false} CheckpointsValues(yielded: nat, total: nat)
    requires yielded <= total
    ensures |Checkpoints(yielded, total)| == yielded / 256
    ensures forall k :: 0 <= k < |Checkpoints(yielded, total)| ==>
              Checkpoints(yielded, total)[k] == ((k + 1) * 256) as real / total as real
    ensures forall k :: 0 <= k < |Checkpoints(yielded, total)| ==>
              0.0 < Checkpoints(yielded, total)[k] <= 1.0
    decreases yielded
  {
    if yielded > 0 {
      CheckpointsValues(yielded - 1, total);
      var c := Checkpoints(yielded, total);
      var p := Checkpoints(yielded - 1, total);
      if yielded % 256 == 0 {
        assert (yielded - 1) / 256 == yielded / 256 - 1;
        assert c == p + [yielded as real / total as real];
        assert yielded == ((yielded / 256 - 1) + 1) * 256;
        assert 0.0 < yielded as real / total as real <= 1.0 by {
          assert 0.0 < yielded as real <= total as real;
        }
      } else {
        assert (yielded - 1) / 256 == yielded / 256;
      }
    }
  }

  /** With a reporter the last value sent is exactly 1, every value sent is
      in (0, 1], and the values never decrease; without one nothing is
      sent. */
  lemma SentValues(reporter: bool, yielded: nat, total: nat)
    requires yielded <= total
    ensures reporter ==> |Sent(reporter, yielded, total)| == yielded / 256 + 1
    ensures reporter ==> Sent(reporter, yielded, total)[|Sent(reporter, yielded, total)| - 1] == 1.0
    ensures forall k :: 0 <= k < |Sent(reporter, yielded, total)| ==>
              0.0 < Sent(reporter, yielded, total)[k] <= 1.0
    ensures forall i, j :: 0 <= i <= j < |Sent(reporter, yielded, total)| ==>
              Sent(reporter, yielded, total)[i] <= Sent(reporter, yielded, total)[j]
    ensures !reporter ==> Sent(reporter, yielded, total) == []
  {
    CheckpointsValues(yielded, total);
    if reporter {
      var c := Checkpoints(yielded, total);
      var s := c + [1.0];
      forall i, j | 0 <= i <= j < |s| ensures s[i] <= s[j] {
        if j < |c| {
          assert (i + 1) * 256 <= (j + 1) * 256;
          DivMono(((i + 1) * 256) as real, ((j + 1) * 256) as real, total as real);
        }
      }
    }
  }

  lemma DivMono(x: real, y: real, d: real)
    requires x <= y && d > 0.0
    ensures x / d <= y / d
  {
  }
}
