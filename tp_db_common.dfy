/**
 * The CSV reader of the tweet phraseologist, `parse_csv`: it enumerates the
 * rows from 0 and skips every row whose index is at most `header_rows`,
 * which drops one row more than the `header_rows` header rows it documents.
 * Both the reader as written and the reader as documented are modelled.
 */
module TpDbCommon {
  import DbCommon

  type Row = seq<string>

  /** The default caster returns its row as it is. */
  function Identity(row: Row): Row {
    row
  }

  /** Every row passed through `caster`, in order. */
  function Casted<T>(rows: seq<Row>, caster: Row -> T): (out: seq<T>)
    ensures |out| == |rows|
  {
    seq(|rows|, i requires 0 <= i < |rows| => caster(rows[i]))
  }

  /** What `parse_csv` yields as written: the rows after the first
      `header_rows + 1`. */
  function AsWritten<T>(rows: seq<Row>, caster: Row -> T, headerRows: int): seq<T> {
    Casted(rows[DbCommon.Skipped(|rows|, headerRows + 1)..], caster)
  }

  /** What `parse_csv` documents: the rows after the first `header_rows`. */
  function Intended<T>(rows: seq<Row>, caster: Row -> T, headerRows: int): seq<T> {
    Casted(rows[DbCommon.Skipped(|rows|, headerRows)..], caster)
  }

  /** The greater of `x` and 0. */
  function Max0(x: int): (m: nat)
    ensures m >= x && (m == 0 || m == x)
  {
    if x < 0 then 0 else x
  }

  /** `parse_csv` as written: the enumeration index is compared with
      `i <= header_rows`. */
  method ParseCsvAsWritten<T>(rows: seq<Row>, caster: Row -> T, headerRows: int) returns (out: seq<T>)
    ensures out == AsWritten(rows, caster, headerRows)
  {
    out := [];
    ghost var skip := DbCommon.Skipped(|rows|, headerRows + 1);
    for i := 0 to |rows|
      invariant |out| == Max0(i - skip)
      invariant forall k :: 0 <= k < |out| ==> out[k] == caster(rows[skip + k])
    {
      if i <= headerRows {
        continue;
      }
      out := out + [caster(rows[i])];
    }
  }

  /** `parse_csv` with the documented skip: the first `header_rows` rows
      are the header. */
  method ParseCsv<T>(rows: seq<Row>, caster: Row -> T, headerRows: int) returns (out: seq<T>)
    ensures out == Intended(rows, caster, headerRows)
  {
    out := [];
    ghost var skip := DbCommon.Skipped(|rows|, headerRows);
    for i := 0 to |rows|
      invariant |out| == Max0(i - skip)
      invariant forall k :: 0 <= k < |out| ==> out[k] == caster(rows[skip + k])
    {
      if i < headerRows {
        continue;
      }
      out := out + [caster(rows[i])];
    }
  }

  /** As written, `header_rows + 1` rows are dropped and the rest are cast
      in order. */
  lemma AsWrittenSkips<T>(rows: seq<Row>, caster: Row -> T, headerRows: nat)
    ensures |AsWritten(rows, caster, headerRows)| == Max0(|rows| - headerRows - 1)
    ensures forall k :: 0 <= k < |AsWritten(rows, caster, headerRows)| ==>
              AsWritten(rows, caster, headerRows)[k] == caster(rows[headerRows + 1 + k])
  {
    var skip := DbCommon.Skipped(|rows|, headerRows + 1);
    var out := AsWritten(rows, caster, headerRows);
    forall k | 0 <= k < |out| ensures out[k] == caster(rows[headerRows + 1 + k]) {
      assert rows[skip..][k] == rows[skip + k];
    }
  }

  /** With one header row, as the tweets and handles files have, the first
      data row is lost: of a header and two data rows only the second
      data row is yielded. */
  lemma AsWrittenLosesFirstDataRow<T>(header: Row, first: Row, second: Row, caster: Row -> T)
    ensures AsWritten([header, first, second], caster, 1) == [caster(second)]
  {
    assert [header, first, second][2..] == [second];
  }

  /** As documented, exactly `header_rows` rows are dropped and the rest are
      cast in order. */
  lemma IntendedSkips<T>(rows: seq<Row>, caster: Row -> T, headerRows: nat)
    ensures |Intended(rows, caster, headerRows)| == Max0(|rows| - headerRows)
    ensures forall k :: 0 <= k < |Intended(rows, caster, headerRows)| ==>
              Intended(rows, caster, headerRows)[k] == caster(rows[headerRows + k])
  {
    var skip := DbCommon.Skipped(|rows|, headerRows);
    var out := Intended(rows, caster, headerRows);
    forall k | 0 <= k < |out| ensures out[k] == caster(rows[headerRows + k]) {
      assert rows[skip..][k] == rows[skip + k];
    }
  }

  /** With the default caster and one header row, the documented reader
      yields every data row unchanged. */
  lemma IntendedDefault(rows: seq<Row>)
    requires |rows| >= 1
    ensures Intended(rows, Identity, 1) == rows[1..]
  {
    IntendedSkips(rows, Identity, 1);
    assert forall k :: 0 <= k < |rows| - 1 ==> rows[1..][k] == rows[1 + k];
  }
}
