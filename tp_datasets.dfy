/**
 * The clean-up of the "Democrat vs. Republican tweets" dataset: the handles
 * file loses its near-duplicate rows, and every tweet of the tweets file is
 * cut before a truncated `…` word and stripped of `t.co` links.
 *
 * A CSV file is modelled by its rows as the csv module reads them (a
 * sequence of fields per row); what the writer emits is the sequence of
 * rows it was handed.
 */
module TpDatasets {
  import opened TpExceptions
  import opened PyText

  type Row = seq<string>

  // ---------------------------------------------------------------------
  // munge_twitter_handles

  /** Every row has a third field, the Twitter handle. */
  ghost predicate Wide(rows: seq<Row>) {
    forall i :: 0 <= i < |rows| ==> |rows[i]| > 2
  }

  /** The number of leading rows that have a handle: reading `row[2]` of
      the first row past them raises IndexError. */
  function WidePrefix(rows: seq<Row>): (n: nat)
    ensures n <= |rows|
    ensures Wide(rows[..n])
    ensures n < |rows| ==> |rows[n]| <= 2
  {
    if rows == [] || |rows[0]| <= 2 then 0
    else
      var n := 1 + WidePrefix(rows[1..]);
      assert forall i :: 1 <= i < n ==> rows[..n][i] == rows[1..][..n - 1][i - 1];
      n
  }

  /** The handles of a run of rows. */
  function Handles(rows: seq<Row>): set<string>
    requires Wide(rows)
  {
    set i | 0 <= i < |rows| :: rows[i][2]
  }

  /** The data rows the de-duplication keeps: a row stays unless an
      earlier row carries the same handle. */
  function Kept(rows: seq<Row>): seq<Row>
    requires Wide(rows)
  {
    if rows == [] then []
    else
      var init := rows[..|rows| - 1];
      var last := rows[|rows| - 1];
      if last[2] in Handles(init) then Kept(init) else Kept(init) + [last]
  }

  /** Appending a row with a handle: the handles grow by its handle, and
      the row is kept exactly when its handle is new. */
  lemma KeptAppend(rows: seq<Row>, row: Row)
    requires Wide(rows) && |row| > 2
    ensures Wide(rows + [row])
    ensures Handles(rows + [row]) == Handles(rows) + {row[2]}
    ensures Kept(rows + [row]) == if row[2] in Handles(rows) then Kept(rows) else Kept(rows) + [row]
  {
    var s := rows + [row];
    assert forall i :: 0 <= i < |rows| ==> s[i] == rows[i];
    assert s[..|s| - 1] == rows;
    assert s[|rows|][2] in Handles(s);
  }

  /** Row `i` is the first row with its handle. */
  ghost predicate FirstOfHandle(rows: seq<Row>, i: int)
    requires Wide(rows) && 0 <= i < |rows|
  {
    forall j :: 0 <= j < i ==> rows[j][2] != rows[i][2]
  }

  /** Appending a row does not change which earlier rows are first with
      their handle; the new row is first exactly when its handle is new. */
  lemma FirstOfHandleAppend(rows: seq<Row>, row: Row)
    requires Wide(rows) && |row| > 2
    ensures Wide(rows + [row])
    ensures forall i :: 0 <= i < |rows| ==> (FirstOfHandle(rows + [row], i) <==> FirstOfHandle(rows, i))
    ensures FirstOfHandle(rows + [row], |rows|) <==> row[2] !in Handles(rows)
  {
    KeptAppend(rows, row);
    var s := rows + [row];
    assert forall i :: 0 <= i < |rows| ==> s[i] == rows[i];
    assert s[|rows|] == row;
  }

  /** `Kept` is the order-preserving subsequence made of exactly the rows
      that are the first with their handle: `idx` lists, increasing, the
      positions of the rows it keeps. */
  lemma {:induction false} KeptIndices(rows: seq<Row>) returns (idx: seq<int>)
    requires Wide(rows)
    ensures |idx| == |Kept(rows)|
    ensures forall k :: 0 <= k < |idx| ==> 0 <= idx[k] < |rows| && Kept(rows)[k] == rows[idx[k]]
    ensures forall k, l :: 0 <= k < l < |idx| ==> idx[k] < idx[l]
    ensures forall i :: 0 <= i < |rows| ==> (i in idx <==> FirstOfHandle(rows, i))
    decreases |rows|
  {
    if rows == [] {
      idx := [];
    } else {
      var n := |rows| - 1;
      var init, last := rows[..n], rows[n];
      assert rows == init + [last];
      var prev := KeptIndices(init);
      FirstOfHandleAppend(init, last);
      KeptAppend(init, last);
      if last[2] in Handles(init) {
        idx := prev;
        assert Kept(rows) == Kept(init);
      } else {
        idx := prev + [n];
        assert Kept(rows) == Kept(init) + [last];
        forall k | 0 <= k < |idx| ensures 0 <= idx[k] < |rows| && Kept(rows)[k] == rows[idx[k]] {
          if k < |prev| {
            assert idx[k] == prev[k] && Kept(rows)[k] == Kept(init)[k];
          }
        }
      }
    }
  }

  /** No two kept rows share a handle, and every handle of the input
      survives. */
  lemma {:induction false} KeptHandles(rows: seq<Row>)
    requires Wide(rows)
    ensures Wide(Kept(rows))
    ensures forall k, l :: 0 <= k < l < |Kept(rows)| ==> Kept(rows)[k][2] != Kept(rows)[l][2]
    ensures Handles(Kept(rows)) == Handles(rows)
    decreases |rows|
  {
    if rows != [] {
      var n := |rows| - 1;
      var init, last := rows[..n], rows[n];
      assert rows == init + [last];
      KeptHandles(init);
      KeptAppend(init, last);
      if last[2] !in Handles(init) {
        var kept := Kept(init);
        KeptAppend(kept, last);
        forall k | 0 <= k < |kept| ensures kept[k][2] != last[2] {
          assert kept[k][2] in Handles(kept);
        }
        assert Kept(rows) == kept + [last];
      }
    }
  }

  /** The header row is written as it is; a later row is written unless a
      row before it (the header excepted) carries the same handle. A data
      row without a third field stops the pass with IndexError, after the
      rows before it were written. */
  method MungeTwitterHandles(rows: seq<Row>) returns (written: seq<Row>, r: Result<()>)
    ensures rows == [] ==> written == [] && r == Ok(())
    ensures rows != [] ==>
              var n := WidePrefix(rows[1..]);
              && written == [rows[0]] + Kept(rows[1..][..n])
              && (r.Ok? <==> n == |rows| - 1)
              && (r.Err? ==> r.error == IndexError)
  {
    written, r := [], Ok(());
    var handles: set<string> := {};
    for i := 0 to |rows|
      invariant i == 0 ==> written == [] && handles == {}
      invariant i > 0 ==> Wide(rows[1..i])
      invariant i > 0 ==> handles == Handles(rows[1..i])
      invariant i > 0 ==> written == [rows[0]] + Kept(rows[1..i])
    {
      if i == 0 {
        written := written + [rows[i]];
        assert rows[1..1] == [];
        assert Handles(rows[1..1]) == {};
        continue;
      }
      var row := rows[i];
      if |row| <= 2 {
        StopsAt(rows, i);
        r := Err(IndexError);
        return;
      }
      var handle := row[2];
      HandlesStep(rows, i);
      if handle in handles {
        assert handles + {handle} == handles;
        continue;
      }
      handles := handles + {handle};
      written := written + [row];
    }
    if rows != [] {
      StopsAt(rows, |rows|);
    }
  }

  /** The pass stops at row `i` (or at the end): every data row before it
      has a handle and row `i` has none. */
  lemma StopsAt(rows: seq<Row>, i: nat)
    requires 1 <= i <= |rows| && Wide(rows[1..i])
    requires i < |rows| ==> |rows[i]| <= 2
    ensures WidePrefix(rows[1..]) == i - 1
    ensures rows[1..][..i - 1] == rows[1..i]
  {
    assert rows[1..][..i - 1] == rows[1..i];
    WidePrefixAt(rows[1..], i - 1);
  }

  /** One step of the pass over data row `i`, which has a handle. */
  lemma HandlesStep(rows: seq<Row>, i: nat)
    requires 1 <= i < |rows| && Wide(rows[1..i]) && |rows[i]| > 2
    ensures Wide(rows[1..i + 1])
    ensures Handles(rows[1..i + 1]) == Handles(rows[1..i]) + {rows[i][2]}
    ensures Kept(rows[1..i + 1])
         == if rows[i][2] in Handles(rows[1..i]) then Kept(rows[1..i]) else Kept(rows[1..i]) + [rows[i]]
  {
    KeptAppend(rows[1..i], rows[i]);
    assert rows[1..i + 1] == rows[1..i] + [rows[i]];
  }

  /** `WidePrefix` is the position of the first row without a handle. */
  lemma WidePrefixAt(rows: seq<Row>, n: nat)
    requires n <= |rows| && Wide(rows[..n])
    requires n < |rows| ==> |rows[n]| <= 2
    ensures WidePrefix(rows) == n
  {
    var m := WidePrefix(rows);
    assert forall i :: 0 <= i < n ==> rows[..n][i] == rows[i];
    assert forall i :: 0 <= i < m ==> rows[..m][i] == rows[i];
  }

  /** The header's handle is not remembered: a first data row repeating it
      is still written. */
  lemma HeaderHandleNotSeen(header: Row, row: Row)
    requires |header| > 2 && |row| > 2 && header[2] == row[2]
    ensures WidePrefix([row]) == 1
    ensures Kept([header, row][1..][..WidePrefix([header, row][1..])]) == [row]
  {
    assert [header, row][1..] == [row];
    assert WidePrefix([row]) == 1 by {
      assert |[row][0]| > 2;
      assert WidePrefix([row][1..]) == 0;
    }
    assert [row][..1] == [row];
    assert [row][..0] == [];
  }

  // ---------------------------------------------------------------------
  // The truncation pattern `(.+)\s+\S*…`, searched with DOTALL

  const Ellipsis: char := '\U{2026}'

  /** The end of the run of whitespace starting at `i`. */
  function SpaceEnd(s: string, i: nat): (k: nat)
    requires i <= |s|
    ensures i <= k <= |s|
    ensures forall m :: i <= m < k ==> IsSpace(s[m])
    ensures k < |s| ==> !IsSpace(s[k])
    decreases |s| - i
  {
    if i < |s| && IsSpace(s[i]) then SpaceEnd(s, i + 1) else i
  }

  /** The end of the run of non-whitespace starting at `i`. */
  function WordEnd(s: string, i: nat): (k: nat)
    requires i <= |s|
    ensures i <= k <= |s|
    ensures forall m :: i <= m < k ==> !IsSpace(s[m])
    ensures k < |s| ==> IsSpace(s[k])
    decreases |s| - i
  {
    if i < |s| && !IsSpace(s[i]) then WordEnd(s, i + 1) else i
  }

  /** `s[i..k]` is whitespace only. */
  ghost predicate SpaceRun(s: string, i: int, k: int)
    requires 0 <= i <= k <= |s|
  {
    forall m :: i <= m < k ==> IsSpace(s[m])
  }

  /** `s[k..l]` holds no whitespace. */
  ghost predicate WordRun(s: string, k: int, l: int)
    requires 0 <= k <= l <= |s|
  {
    forall m :: k <= m < l ==> !IsSpace(s[m])
  }

  /** The pattern matches `s` from its start with group 1 ending at `j`:
      `.+` takes `s[..j]`, `\s+` takes `s[j..k]`, `\S*` takes `s[k..l]` and
      `…` is `s[l]`. A match found from a later start would also match from
      the start, so `re.search` always reports one starting at 0. */
  ghost predicate TruncMatch(s: string, j: int) {
    && 1 <= j
    && exists k, l :: j < k <= l < |s| && SpaceRun(s, j, k) && WordRun(s, k, l) && s[l] == Ellipsis
  }

  /** The pattern's test at one split, computed: whitespace at `j`, and a
      `…` in the word that follows the whitespace. */
  predicate TruncAt(s: string, j: int) {
    && 1 <= j < |s|
    && IsSpace(s[j])
    && Ellipsis in s[SpaceEnd(s, j)..WordEnd(s, SpaceEnd(s, j))]
  }

  /** The computed test is the pattern, in both directions. */
  lemma TruncAtIsMatch(s: string, j: int)
    ensures TruncAt(s, j) <==> TruncMatch(s, j)
  {
    if TruncAt(s, j) {
      var k := SpaceEnd(s, j);
      var w := WordEnd(s, k);
      var p :| 0 <= p < |s[k..w]| && s[k..w][p] == Ellipsis;
      assert s[k + p] == Ellipsis;
      assert SpaceRun(s, j, k) && WordRun(s, k, k + p);
    }
    if TruncMatch(s, j) {
      var k, l :| j < k <= l < |s| && SpaceRun(s, j, k) && WordRun(s, k, l) && s[l] == Ellipsis;
      assert !IsSpace(s[l]);
      assert IsSpace(s[j]);
      var k' := SpaceEnd(s, j);
      assert forall m :: j <= m < k ==> IsSpace(s[m]);
      assert forall m :: k <= m <= l ==> !IsSpace(s[m]);
      assert !IsSpace(s[k]);
      assert k' < |s| ==> !IsSpace(s[k']);
      assert k' == k;
      var w := WordEnd(s, k);
      assert w < |s| ==> IsSpace(s[w]);
      assert l < w;
      assert s[k..w][l - k] == Ellipsis;
    }
  }

  /** The greedy group: the last split in `[1, j)` at which the pattern
      matches. */
  function LastTruncBelow(s: string, j: nat): (r: Option<nat>)
    requires j <= |s|
    ensures r.Some? ==> 1 <= r.value < j
  {
    if j <= 1 then None
    else if TruncAt(s, j - 1) then Some(j - 1)
    else LastTruncBelow(s, j - 1)
  }

  /** The search finds the last split below `j` that passes the test. */
  lemma {:induction false} LastTruncBelowIsLast(s: string, j: nat)
    requires j <= |s|
    ensures LastTruncBelow(s, j).Some? ==> TruncAt(s, LastTruncBelow(s, j).value)
    ensures LastTruncBelow(s, j).Some? ==> forall m :: LastTruncBelow(s, j).value < m < j ==> !TruncAt(s, m)
    ensures LastTruncBelow(s, j).None? ==> forall m :: m < j ==> !TruncAt(s, m)
  {
    if j > 1 && !TruncAt(s, j - 1) {
      LastTruncBelowIsLast(s, j - 1);
    }
  }

  /** `re.search` of the truncation pattern and `group(1)`, or the tweet
      itself when it does not match. */
  function Truncate(s: string): (t: string)
    ensures |t| <= |s| && t == s[..|t|]
  {
    match LastTruncBelow(s, |s|)
    case Some(j) => s[..j]
    case None => s
  }

  /** `Truncate` cuts exactly when the pattern matches, and then keeps the
      longest prefix the pattern allows as group 1, since `.+` is
      greedy. */
  lemma TruncateIsGreedyMatch(s: string)
    ensures |Truncate(s)| < |s| <==> exists j :: TruncMatch(s, j)
    ensures |Truncate(s)| < |s| ==> TruncMatch(s, |Truncate(s)|)
    ensures forall j :: |Truncate(s)| < j ==> !TruncMatch(s, j)
  {
    LastTruncBelowIsLast(s, |s|);
    forall j ensures TruncAt(s, j) <==> TruncMatch(s, j) {
      TruncAtIsMatch(s, j);
    }
  }

  /** A tweet without `…` is never truncated. */
  lemma TruncateNoEllipsis(s: string)
    requires Ellipsis !in s
    ensures Truncate(s) == s
  {
    TruncateIsGreedyMatch(s);
    assert forall l :: 0 <= l < |s| ==> s[l] != Ellipsis by {
      forall l | 0 <= l < |s| ensures s[l] != Ellipsis {
        assert s[l] in s;
      }
    }
    assert forall j :: !TruncMatch(s, j);
  }

  /** A space followed by a word holding `…`, after which no `…` occurs,
      cuts the tweet to what precedes the space. */
  lemma TruncateBeforeWord(p: string, w: string, rest: string)
    requires |p| >= 1
    requires NoSpace(w) && Ellipsis in w
    requires Ellipsis !in rest
    ensures Truncate(p + " " + w + rest) == p
  {
    var s := p + " " + w + rest;
    var j0 := |p|;
    var e :| 0 <= e < |w| && w[e] == Ellipsis;
    assert s[j0] == ' ';
    assert s[j0 + 1 + e] == Ellipsis;
    assert SpaceRun(s, j0, j0 + 1);
    assert WordRun(s, j0 + 1, j0 + 1 + e) by {
      forall m | j0 + 1 <= m < j0 + 1 + e ensures !IsSpace(s[m]) {
        assert s[m] == w[m - j0 - 1];
      }
    }
    assert TruncMatch(s, j0);
    forall m | j0 < m < j0 + 1 + |w| ensures !IsSpace(s[m]) {
      assert s[m] == w[m - j0 - 1];
    }
    forall m | j0 + 1 + |w| <= m < |s| ensures s[m] != Ellipsis {
      assert s[m] == rest[m - j0 - 1 - |w|];
      assert s[m] in rest;
    }
    forall j | j0 < j ensures !TruncMatch(s, j) {
      if j < j0 + 1 + |w| {
        assert !IsSpace(s[j]);
      } else {
        assert forall l :: j < l < |s| ==> s[l] != Ellipsis;
      }
    }
    TruncateIsGreedyMatch(s);
    var t := Truncate(s);
    assert |t| == j0;
    assert s[..j0] == p;
  }

  // ---------------------------------------------------------------------
  // The link pattern `\s+https://t.co/\S+`, replaced by '' everywhere

  /** The pattern matches `s` from its start up to `e`: `\s+` takes
      `s[..k]`, `https://t`, any character but a newline, `co/`, and `\S+`
      takes `s[k + 13..e]`. */
  ghost predicate UrlMatch(s: string, e: int) {
    exists k ::
      && 0 < k && k + 13 < e <= |s|
      && SpaceRun(s, 0, k)
      && s[k..k + 9] == "https://t" && s[k + 9] != '\n' && s[k + 10..k + 13] == "co/"
      && WordRun(s, k + 13, e)
  }

  /** Where a match of the link pattern at the start of `s` ends, the
      quantifiers being greedy; None when it does not match there. */
  function UrlEnd(s: string): (r: Option<nat>)
    ensures r.Some? ==> 0 < r.value <= |s|
  {
    if s == [] || !IsSpace(s[0]) then None
    else
      var k := SpaceEnd(s, 0);
      if k + 14 <= |s| && s[k..k + 9] == "https://t" && s[k + 9] != '\n' && s[k + 10..k + 13] == "co/"
         && !IsSpace(s[k + 13])
      then Some(WordEnd(s, k + 13))
      else None
  }

  /** `UrlEnd` finds the longest match of the pattern at the start of `s`,
      and finds none exactly when there is none. */
  lemma UrlEndIsMatch(s: string)
    ensures UrlEnd(s).Some? ==> UrlMatch(s, UrlEnd(s).value)
    ensures UrlEnd(s).Some? ==> forall e :: UrlMatch(s, e) ==> e <= UrlEnd(s).value
    ensures UrlEnd(s).None? ==> forall e :: !UrlMatch(s, e)
  {
    if UrlEnd(s).Some? {
      var k := SpaceEnd(s, 0);
      assert SpaceRun(s, 0, k) && WordRun(s, k + 13, UrlEnd(s).value);
    }
    forall e | UrlMatch(s, e)
      ensures UrlEnd(s).Some? && e <= UrlEnd(s).value
    {
      var k :| && 0 < k && k + 13 < e <= |s|
               && SpaceRun(s, 0, k)
               && s[k..k + 9] == "https://t" && s[k + 9] != '\n' && s[k + 10..k + 13] == "co/"
               && WordRun(s, k + 13, e);
      assert IsSpace(s[0]);
      assert s[k] == s[k..k + 9][0] == 'h';
      var k' := SpaceEnd(s, 0);
      assert forall m :: 0 <= m < k ==> IsSpace(s[m]);
      assert !IsSpace(s[k]);
      assert k' < |s| ==> !IsSpace(s[k']);
      assert k' == k;
      assert !IsSpace(s[k + 13]);
      var w := WordEnd(s, k + 13);
      assert forall m :: k + 13 <= m < e ==> !IsSpace(s[m]);
      assert w < |s| ==> IsSpace(s[w]);
      assert e <= w;
    }
  }

  /** `re.sub` of the link pattern with '': scanning from the left, each
      match is dropped and the scan resumes after it; elsewhere the
      character is kept and the scan moves one place on. */
  function RemoveUrls(s: string): (r: string)
    ensures |r| <= |s|
    decreases |s|
  {
    if s == [] then []
    else
      match UrlEnd(s)
      case Some(e) => RemoveUrls(s[e..])
      case None => [s[0]] + RemoveUrls(s[1..])
  }

  /** `https://t` occurs at position `i` of `s`. */
  predicate LinkAt(s: string, i: int) {
    0 <= i && i + 9 <= |s| && s[i..i + 9] == "https://t"
  }

  /** A tweet in which `https://t` never occurs keeps every character. */
  lemma {:induction false} RemoveUrlsNoLink(s: string)
    requires forall i :: 0 <= i < |s| ==> !LinkAt(s, i)
    ensures RemoveUrls(s) == s
    decreases |s|
  {
    if s != [] {
      assert !LinkAt(s, SpaceEnd(s, 0));
      var t := s[1..];
      forall i | 0 <= i < |t| ensures !LinkAt(t, i) {
        assert !LinkAt(s, i + 1);
        if i + 9 <= |t| {
          assert t[i..i + 9] == s[i + 1..i + 10];
        }
      }
      RemoveUrlsNoLink(t);
    }
  }

  /** Where the link pattern does not match, the scan keeps the
      character and moves on. */
  lemma RemoveUrlsKeepsChar(c: char, t: string)
    requires UrlEnd([c] + t).None?
    ensures RemoveUrls([c] + t) == [c] + RemoveUrls(t)
  {
    assert ([c] + t)[0] == c;
    assert ([c] + t)[1..] == t;
  }

  /** A scan that keeps every non-whitespace character it meets passes a
      word without whitespace through. */
  lemma {:induction false} WordThrough(scan: string -> string, w: string, rest: string)
    requires NoSpace(w)
    requires forall c, t :: !IsSpace(c) ==> scan([c] + t) == [c] + scan(t)
    ensures scan(w + rest) == w + scan(rest)
    decreases |w|
  {
    if w == [] {
      assert w + rest == rest;
    } else {
      WordThrough(scan, w[1..], rest);
      assert w + rest == [w[0]] + (w[1..] + rest);
      assert [w[0]] + (w[1..] + scan(rest)) == w + scan(rest);
    }
  }

  /** A word without whitespace passes through the link scan unchanged:
      the pattern starts with whitespace. */
  lemma RemoveUrlsWord(w: string, rest: string)
    requires NoSpace(w)
    ensures RemoveUrls(w + rest) == w + RemoveUrls(rest)
  {
    forall c, t | !IsSpace(c) ensures RemoveUrls([c] + t) == [c] + RemoveUrls(t) {
      assert ([c] + t)[0] == c;
      RemoveUrlsKeepsChar(c, t);
    }
    WordThrough(RemoveUrls, w, rest);
  }

  /** The link pattern does not match at a space followed by a word that
      does not start with `h`: it needs `https` right after the
      whitespace. */
  lemma UrlEndSpacedWord(w: string, rest: string)
    requires NoSpace(w) && |w| >= 1 && w[0] != 'h'
    ensures UrlEnd([' '] + (w + rest)).None?
  {
    var s := [' '] + (w + rest);
    assert s[0] == ' ' && s[1] == w[0] && !IsSpace(s[1]);
    assert SpaceEnd(s, 0) == 1 by {
      assert SpaceEnd(s, 1) == 1;
    }
    assert !LinkAt(s, 1) by {
      if 10 <= |s| {
        assert s[1..10][0] == s[1];
      }
    }
  }

  /** A scan that keeps a space before a word it passes through passes the
      spaced word through. */
  lemma SpaceWordThrough(scan: string -> string, w: string, rest: string)
    requires scan([' '] + (w + rest)) == [' '] + scan(w + rest)
    requires scan(w + rest) == w + scan(rest)
    ensures scan(" " + w + rest) == " " + w + scan(rest)
  {
    assert " " + w + rest == [' '] + (w + rest);
    assert [' '] + (w + scan(rest)) == " " + w + scan(rest);
  }

  /** A space and a word not starting with `h` pass through the link scan
      unchanged. */
  lemma RemoveUrlsSpacedWord(w: string, rest: string)
    requires NoSpace(w) && |w| >= 1 && w[0] != 'h'
    ensures RemoveUrls(" " + w + rest) == " " + w + RemoveUrls(rest)
  {
    UrlEndSpacedWord(w, rest);
    RemoveUrlsKeepsChar(' ', w + rest);
    RemoveUrlsWord(w, rest);
    SpaceWordThrough(RemoveUrls, w, rest);
  }

  /** A trailing link and the whitespace before it are removed. */
  lemma RemoveUrlsTrailingLink(sp: string, id: string)
    requires |sp| >= 1 && forall i :: 0 <= i < |sp| ==> IsSpace(sp[i])
    requires |id| >= 1 && NoSpace(id)
    ensures RemoveUrls(sp + "https://t.co/" + id) == []
  {
    var s := sp + "https://t.co/" + id;
    var k := |sp|;
    assert !IsSpace(s[k]);
    assert SpaceEnd(s, 0) == k by {
      assert forall m :: 0 <= m < k ==> s[m] == sp[m];
    }
    assert s[k..k + 9] == "https://t";
    assert s[k + 10..k + 13] == "co/";
    assert s[k + 13] == id[0];
    assert WordEnd(s, k + 13) == |s| by {
      assert forall m :: k + 13 <= m < |s| ==> s[m] == id[m - k - 13];
    }
    assert UrlEnd(s) == Some(|s|);
    assert s[|s|..] == [];
  }

  // ---------------------------------------------------------------------
  // munge_row and munge_extracted_tweets

  /** The fixed tweet: truncated first, then stripped of links. */
  function MungeTweet(tweet: string): (t: string)
    ensures |t| <= |tweet|
  {
    RemoveUrls(Truncate(tweet))
  }

  /** `munge_row`: the last field, the tweet, is replaced by its fixed
      form; an empty row has no last field and raises IndexError. */
  function MungeRow(row: Row): (r: Result<Row>)
    ensures r.Err? <==> row == []
    ensures r.Err? ==> r.error == IndexError
    ensures r.Ok? ==> |r.value| == |row|
    ensures r.Ok? ==> r.value[..|row| - 1] == row[..|row| - 1]
    ensures r.Ok? ==> r.value[|row| - 1] == MungeTweet(row[|row| - 1])
  {
    if row == [] then Err(IndexError)
    else Ok(row[..|row| - 1] + [MungeTweet(row[|row| - 1])])
  }

  /** A tweet with neither `…` nor a `t.co` link is left as it is. */
  lemma MungeTweetUnchanged(tweet: string)
    requires Ellipsis !in tweet
    requires forall i :: 0 <= i < |tweet| ==> !LinkAt(tweet, i)
    ensures MungeTweet(tweet) == tweet
  {
    TruncateNoEllipsis(tweet);
    RemoveUrlsNoLink(tweet);
  }

  /** Words, each after a single space. */
  function Spaced(words: seq<string>): string {
    if words == [] then [] else " " + words[0] + Spaced(words[1..])
  }

  /** Words that cannot begin a link: no whitespace, and not starting
      with `h`. */
  ghost predicate PlainWords(words: seq<string>) {
    forall i :: 0 <= i < |words| ==> |words[i]| >= 1 && NoSpace(words[i]) && words[i][0] != 'h'
  }

  /** A scan that passes a spaced plain word through passes a run of them
      through. */
  lemma {:induction false} SpacedThrough(scan: string -> string, words: seq<string>, rest: string)
    requires PlainWords(words)
    requires forall w, r :: |w| >= 1 && NoSpace(w) && w[0] != 'h' ==> scan(" " + w + r) == " " + w + scan(r)
    ensures scan(Spaced(words) + rest) == Spaced(words) + scan(rest)
    decreases |words|
  {
    if words == [] {
      assert Spaced(words) + rest == rest;
    } else {
      var tail := Spaced(words[1..]);
      SpacedThrough(scan, words[1..], rest);
      assert Spaced(words) + rest == " " + words[0] + (tail + rest);
      assert scan(" " + words[0] + (tail + rest)) == " " + words[0] + scan(tail + rest);
      assert " " + words[0] + (tail + scan(rest)) == Spaced(words) + scan(rest);
    }
  }

  /** Spaced plain words pass through the link scan unchanged. */
  lemma RemoveUrlsSpaced(words: seq<string>, rest: string)
    requires PlainWords(words)
    ensures RemoveUrls(Spaced(words) + rest) == Spaced(words) + RemoveUrls(rest)
  {
    forall w, r | |w| >= 1 && NoSpace(w) && w[0] != 'h'
      ensures RemoveUrls(" " + w + r) == " " + w + RemoveUrls(r)
    {
      RemoveUrlsSpacedWord(w, r);
    }
    SpacedThrough(RemoveUrls, words, rest);
  }

  /** `c` occurs in neither part, so not in their concatenation. */
  lemma NotInAppend(c: char, a: string, b: string)
    requires c !in a && c !in b
    ensures c !in a + b
  {
  }

  /** Plain words joined by single spaces pass through link removal
      unchanged, whatever follows them. */
  lemma RemoveUrlsPlain(first: string, words: seq<string>, rest: string)
    requires NoSpace(first) && PlainWords(words)
    ensures RemoveUrls(first + Spaced(words) + rest) == first + Spaced(words) + RemoveUrls(rest)
  {
    RemoveUrlsWord(first, Spaced(words) + rest);
    RemoveUrlsSpaced(words, rest);
    PassThroughBoth(RemoveUrls, first, Spaced(words), rest);
  }

  /** A scan that passes `a` and then `b` through passes `a + b` through. */
  lemma PassThroughBoth(scan: string -> string, a: string, b: string, rest: string)
    requires scan(a + (b + rest)) == a + scan(b + rest)
    requires scan(b + rest) == b + scan(rest)
    ensures scan(a + b + rest) == a + b + scan(rest)
  {
    assert a + b + rest == a + (b + rest);
    assert a + (b + scan(rest)) == a + b + scan(rest);
  }

  /** A tweet of plain words whose last word was cut off with an ellipsis
      (and possibly followed by more text without one, such as a link) is
      reduced to the words before the cut one. */
  lemma MungeTweetTruncatedWord(first: string, words: seq<string>, cut: string, rest: string)
    requires NoSpace(first) && PlainWords(words) && |first| >= 1
    requires NoSpace(cut) && Ellipsis in cut && Ellipsis !in rest
    ensures MungeTweet(first + Spaced(words) + " " + cut + rest) == first + Spaced(words)
  {
    TruncateBeforeWord(first + Spaced(words), cut, rest);
    RemoveUrlsPlain(first, words, []);
    assert first + Spaced(words) + [] == first + Spaced(words);
  }

  /** A tweet of plain words followed by a trailing `t.co` link loses the
      link and the whitespace before it. */
  lemma MungeTweetTrailingLink(first: string, words: seq<string>, sp: string, id: string)
    requires NoSpace(first) && PlainWords(words)
    requires |sp| >= 1 && forall i :: 0 <= i < |sp| ==> IsSpace(sp[i])
    requires |id| >= 1 && NoSpace(id)
    requires Ellipsis !in first + Spaced(words) + sp + "https://t.co/" + id
    ensures MungeTweet(first + Spaced(words) + sp + "https://t.co/" + id) == first + Spaced(words)
  {
    var link := sp + "https://t.co/" + id;
    var s := first + Spaced(words) + sp + "https://t.co/" + id;
    assert s == first + Spaced(words) + link;
    TruncateNoEllipsis(s);
    RemoveUrlsTrailingLink(sp, id);
    RemoveUrlsPlain(first, words, link);
  }

  /** The rows passed through `munge` in order, up to the first one it
      fails on. */
  function MungedRows(munge: Row -> Result<Row>, rows: seq<Row>): (out: seq<Row>)
    ensures |out| <= |rows|
    ensures forall i :: 0 <= i < |out| ==> munge(rows[i]) == Ok(out[i])
    ensures |out| < |rows| ==> munge(rows[|out|]).Err?
  {
    if rows == [] || munge(rows[0]).Err? then []
    else
      var rest := MungedRows(munge, rows[1..]);
      var out := [munge(rows[0]).value] + rest;
      assert forall i :: 1 <= i < |out| ==> out[i] == rest[i - 1] && rows[i] == rows[1..][i - 1];
      out
  }

  /** The `chunksize` the pool hands rows to its workers in. */
  const ChunkSize: nat := 256

  /** `munge_extracted_tweets`: the header row is written first, unchanged
      (an empty file has none, and `next` raises StopIteration), then
      every data row is munged and written once. The pool hands the munged
      rows back in an unspecified order, so only the multiset of rows is
      promised. An empty data row fails `munge_row` with IndexError, and
      the chunk holding it is written not at all: what is written is the
      rows of the whole chunks before it. */
  method MungeExtractedTweets(rows: seq<Row>) returns (written: seq<Row>, r: Result<()>)
    ensures rows == [] ==> written == [] && r == Err(StopIteration)
    ensures rows != [] ==>
              && |written| >= 1 && written[0] == rows[0]
              && (r.Ok? <==> |MungedRows(MungeRow, rows[1..])| == |rows| - 1)
              && (r.Ok? ==> multiset(written[1..]) == multiset(MungedRows(MungeRow, rows[1..])))
              && (r.Err? ==>
                    && r.error == IndexError
                    && (|written| - 1) % ChunkSize == 0
                    && |written| - 1 <= |MungedRows(MungeRow, rows[1..])| < |written| - 1 + ChunkSize
                    && multiset(written[1..]) == multiset(MungedRows(MungeRow, rows[1..])[..|written| - 1]))
  {
    if rows == [] {
      return [], Err(StopIteration);
    }
    var munged, failed := PoolMap(MungeRow, rows[1..]);
    written := [rows[0]] + munged;
    assert written[1..] == munged && |written| - 1 == |munged|;
    if failed.Some? {
      assert failed.value == IndexError;
      r := Err(failed.value);
    } else {
      r := Ok(());
    }
  }

  /** The pool's map over the data rows in chunks of `ChunkSize`, writing
      each chunk's results once the chunk is done, chunks in order: the
      rows `munge` accepts, in order, until the chunk holding the first
      failure, which is dropped whole and whose error is returned. */
  method PoolMap(munge: Row -> Result<Row>, rows: seq<Row>) returns (out: seq<Row>, failed: Option<Error>)
    ensures failed.None? <==> |MungedRows(munge, rows)| == |rows|
    ensures failed.None? ==> out == MungedRows(munge, rows)
    ensures failed.Some? ==>
              && munge(rows[|MungedRows(munge, rows)|]) == Err(failed.value)
              && |out| % ChunkSize == 0
              && |out| <= |MungedRows(munge, rows)| < |out| + ChunkSize
              && out == MungedRows(munge, rows)[..|out|]
  {
    ghost var done := MungedRows(munge, rows);
    out := [];
    var pos := 0;
    while pos < |rows|
      invariant pos <= |rows| && (pos == |rows| || pos % ChunkSize == 0)
      invariant pos <= |done| && out == done[..pos]
      decreases |rows| - pos
    {
      var end := if pos + ChunkSize <= |rows| then pos + ChunkSize else |rows|;
      var chunk := [];
      for i := pos to end
        invariant i <= |done| && chunk == done[pos..i]
      {
        var row := munge(rows[i]);
        if row.Err? {
          assert |done| == i;
          return out, Some(row.error);
        }
        assert done[i] == row.value;
        assert done[pos..i + 1] == done[pos..i] + [row.value];
        chunk := chunk + [row.value];
      }
      assert done[..end] == done[..pos] + done[pos..end];
      out := out + chunk;
      pos := end;
    }
    assert out == done;
    failed := None;
  }
}
