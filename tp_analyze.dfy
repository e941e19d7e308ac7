/**
 * N-gram counting over the tweet corpus: each tweet is split into
 * sentences, each sentence into tokens; tokens made only of punctuation are
 * dropped, the rest are stemmed, and the n-grams of every sentence are
 * tallied. The per-tweet tallies are then merged into corpus totals.
 *
 * The text tools (sentence splitter, tokenizer, stemmer, n-gram windows and
 * the Unicode general category of a character) are foreign code and are
 * parameters of the model.
 */
module TpAnalyze {
  import opened TpExceptions
  import Progress

  type Ngram = seq<string>

  /** A dictionary from n-gram to count. */
  type Counts = map<Ngram, int>

  /** The foreign text tools the analysis calls. */
  datatype Tools = Tools(
    sentences: string -> seq<string>,
    tokens: string -> seq<string>,
    stem: string -> string,
    category: char -> string,
    ngrams: (seq<string>, int) -> seq<Ngram>)

  /** A count looked up with 0 for an absent n-gram. */
  function Get(m: Counts, g: Ngram): int {
    if g in m then m[g] else 0
  }

  // ---------------------------------------------------------------------
  // punctuation

  /** A general category of the punctuation class: its name starts with `P`. */
  predicate PunctuationCategory(cat: string) {
    |cat| > 0 && cat[0] == 'P'
  }

  /** Every character of `s` is punctuation. */
  predicate AllPunctuation(category: char -> string, s: string) {
    forall i :: 0 <= i < |s| ==> PunctuationCategory(category(s[i]))
  }

  /** `punctuation`: scans the characters and answers False at the first
      one whose category is not punctuation, True when there is none (so
      the empty string counts as punctuation). */
  method Punctuation(category: char -> string, s: string) returns (b: bool)
    ensures b <==> forall i :: 0 <= i < |s| ==> PunctuationCategory(category(s[i]))
  {
    for i := 0 to |s|
      invariant forall k :: 0 <= k < i ==> PunctuationCategory(category(s[k]))
    {
      if !PunctuationCategory(category(s[i])) {
        return false;
      }
    }
    return true;
  }

  // ---------------------------------------------------------------------
  // count_ngrams_in_tweet

  /** `itertools.filterfalse(punctuation, words)`: the tokens that are not
      made only of punctuation, in order. */
  function NoPunctuation(category: char -> string, words: seq<string>): (r: seq<string>)
    ensures |r| <= |words|
    ensures forall i :: 0 <= i < |r| ==> r[i] in words && !AllPunctuation(category, r[i])
    ensures forall w :: w in words && !AllPunctuation(category, w) ==> w in r
  {
    if words == [] then []
    else
      var rest := NoPunctuation(category, words[1..]);
      if AllPunctuation(category, words[0]) then rest else [words[0]] + rest
  }

  /** The stemmed words of one sentence that n-grams are formed from. */
  function Normalized(tools: Tools, sentence: string): seq<string> {
    var kept := NoPunctuation(tools.category, tools.tokens(sentence));
    seq(|kept|, i requires 0 <= i < |kept| => tools.stem(kept[i]))
  }

  /** The normalised words are the stems of the tokens that are not only
      punctuation: every such stem is there, and nothing else. */
  lemma NormalizedWords(tools: Tools, sentence: string)
    ensures forall i :: 0 <= i < |Normalized(tools, sentence)| ==>
              exists w :: w in tools.tokens(sentence) && !AllPunctuation(tools.category, w)
                          && Normalized(tools, sentence)[i] == tools.stem(w)
    ensures forall w :: w in tools.tokens(sentence) && !AllPunctuation(tools.category, w) ==>
              tools.stem(w) in Normalized(tools, sentence)
  {
    var kept := NoPunctuation(tools.category, tools.tokens(sentence));
    var ws := Normalized(tools, sentence);
    forall i | 0 <= i < |ws|
      ensures exists w :: w in tools.tokens(sentence) && !AllPunctuation(tools.category, w) && ws[i] == tools.stem(w)
    {
      assert ws[i] == tools.stem(kept[i]);
    }
    forall w | w in tools.tokens(sentence) && !AllPunctuation(tools.category, w) ensures tools.stem(w) in ws {
      var i :| 0 <= i < |kept| && kept[i] == w;
      assert ws[i] == tools.stem(w);
    }
  }

  /** One more sentence adds its n-grams at the end. */
  lemma SentenceNgramsStep(tools: Tools, sentences: seq<string>, i: nat, n: int)
    requires i < |sentences|
    ensures SentenceNgrams(tools, sentences[..i + 1], n)
         == SentenceNgrams(tools, sentences[..i], n) + tools.ngrams(Normalized(tools, sentences[i]), n)
  {
    assert sentences[..i + 1][..i] == sentences[..i];
  }

  /** The n-grams of a run of sentences, sentence by sentence. */
  function SentenceNgrams(tools: Tools, sentences: seq<string>, n: int): seq<Ngram>
    decreases |sentences|
  {
    if sentences == [] then []
    else
      var last := |sentences| - 1;
      SentenceNgrams(tools, sentences[..last], n) + tools.ngrams(Normalized(tools, sentences[last]), n)
  }

  /** All n-grams found in a tweet. */
  function TweetNgrams(tools: Tools, tweet: string, n: int): seq<Ngram> {
    SentenceNgrams(tools, tools.sentences(tweet), n)
  }

  /** Each n-gram comes from the words of a single sentence, so none spans
      a sentence boundary; and every n-gram of every sentence is found. */
  lemma {:induction false} SentenceNgramsWithin(tools: Tools, sentences: seq<string>, n: int, g: Ngram)
    ensures g in SentenceNgrams(tools, sentences, n) <==>
              exists k :: 0 <= k < |sentences| && g in tools.ngrams(Normalized(tools, sentences[k]), n)
    decreases |sentences|
  {
    if sentences != [] {
      var last := |sentences| - 1;
      var init := sentences[..last];
      SentenceNgramsWithin(tools, init, n, g);
      assert forall k :: 0 <= k < last ==> init[k] == sentences[k];
      if g in tools.ngrams(Normalized(tools, sentences[last]), n) {
        assert g in SentenceNgrams(tools, sentences, n);
      }
    }
  }

  /** A tally of a sequence of n-grams, one at a time, as `setdefault(g, 0)`
      followed by `+= 1` does it. */
  function Tally(s: seq<Ngram>): Counts
    decreases |s|
  {
    if s == [] then map[]
    else
      var t := Tally(s[..|s| - 1]);
      var g := s[|s| - 1];
      t[g := Get(t, g) + 1]
  }

  /** One more n-gram bumps its count in the tally. */
  lemma TallyStep(s: seq<Ngram>, g: Ngram)
    ensures Tally(s + [g]) == Tally(s)[g := Get(Tally(s), g) + 1]
  {
    assert (s + [g])[..|s|] == s;
  }

  /** Growing a prefix of `b` by one element, after `a`. */
  lemma AppendPrefixStep<T>(a: seq<T>, b: seq<T>, j: nat)
    requires j < |b|
    ensures a + b[..j + 1] == (a + b[..j]) + [b[j]]
  {
    assert b[..j + 1] == b[..j] + [b[j]];
  }

  /** The tally holds exactly the n-grams that occur, each with its number
      of occurrences. */
  lemma {:induction false} TallyCounts(s: seq<Ngram>)
    ensures forall g :: g in Tally(s) <==> g in s
    ensures forall g :: Get(Tally(s), g) == multiset(s)[g]
    decreases |s|
  {
    if s != [] {
      var init := s[..|s| - 1];
      TallyCounts(init);
      assert s == init + [s[|s| - 1]];
    }
  }

  /** Every count in a tally is at least 1. */
  lemma TallyPositive(s: seq<Ngram>)
    ensures forall g :: g in Tally(s) ==> Tally(s)[g] >= 1
  {
    TallyCounts(s);
    forall g | g in Tally(s) ensures Tally(s)[g] >= 1 {
      assert Get(Tally(s), g) == multiset(s)[g];
    }
  }

  /** `count_ngrams_in_tweet`: for every sentence, every n-gram of its
      normalised words bumps that n-gram's count. */
  method CountNgramsInTweet(tools: Tools, tweet: string, n: int) returns (counts: Counts)
    ensures counts == Tally(TweetNgrams(tools, tweet, n))
  {
    counts := map[];
    var sentences := tools.sentences(tweet);
    for i := 0 to |sentences|
      invariant counts == Tally(SentenceNgrams(tools, sentences[..i], n))
    {
      var words := Normalized(tools, sentences[i]);
      var grams := tools.ngrams(words, n);
      SentenceNgramsStep(tools, sentences, i, n);
      counts := TallyInto(counts, SentenceNgrams(tools, sentences[..i], n), grams);
    }
    assert sentences[..|sentences|] == sentences;
  }

  /** The inner loop of `count_ngrams_in_tweet`: each n-gram of one
      sentence bumps its count, `setdefault(g, 0)` then `+= 1`. */
  method TallyInto(counts: Counts, ghost before: seq<Ngram>, grams: seq<Ngram>) returns (r: Counts)
    requires counts == Tally(before)
    ensures r == Tally(before + grams)
  {
    r := counts;
    assert before + grams[..0] == before;
    for j := 0 to |grams|
      invariant r == Tally(before + grams[..j])
    {
      var g := grams[j];
      ghost var next := r[g := Get(r, g) + 1];
      assert next == Tally(before + grams[..j + 1]) by {
        TallyStep(before + grams[..j], g);
        AppendPrefixStep(before, grams, j);
      }
      if g !in r {
        r := r[g := 0];
      }
      r := r[g := r[g] + 1];
      assert r.Keys == next.Keys;
    }
    assert grams[..|grams|] == grams;
  }

  // ---------------------------------------------------------------------
  // count_ngrams_in_tweets: merging the per-tweet counts

  /** The totals after adding one tweet's counts: every n-gram of either,
      with the sum of its two counts. */
  function AddCounts(a: Counts, b: Counts): (r: Counts)
    ensures r.Keys == a.Keys + b.Keys
  {
    map g | g in a.Keys + b.Keys :: Get(a, g) + Get(b, g)
  }

  /** The totals after the dictionaries of `ds` arrived in that order. */
  function Merge(ds: seq<Counts>): Counts
    decreases |ds|
  {
    if ds == [] then map[] else AddCounts(Merge(ds[..|ds| - 1]), ds[|ds| - 1])
  }

  /** One more dictionary arriving is added to the totals so far. */
  lemma MergePrefix(ds: seq<Counts>, i: nat)
    requires i < |ds|
    ensures Merge(ds[..i + 1]) == AddCounts(Merge(ds[..i]), ds[i])
  {
    assert ds[..i + 1][..i] == ds[..i];
  }

  /** The sum of an n-gram's counts over a run of dictionaries. */
  function SumOf(ds: seq<Counts>, g: Ngram): int
    decreases |ds|
  {
    if ds == [] then 0 else SumOf(ds[..|ds| - 1], g) + Get(ds[|ds| - 1], g)
  }

  /** The totals hold an n-gram exactly when some dictionary does, with the
      sum of its counts there. */
  lemma {:induction false} MergeSums(ds: seq<Counts>, g: Ngram)
    ensures g in Merge(ds) <==> exists i :: 0 <= i < |ds| && g in ds[i]
    ensures Get(Merge(ds), g) == SumOf(ds, g)
    decreases |ds|
  {
    if ds != [] {
      var init := ds[..|ds| - 1];
      MergeSums(init, g);
      assert forall i :: 0 <= i < |init| ==> init[i] == ds[i];
      if g in ds[|ds| - 1] {
        assert g in Merge(ds);
      }
    }
  }

  /** Removing one dictionary from a run takes its count out of the sum. */
  lemma {:induction false} SumOfRemove(ds: seq<Counts>, i: nat, g: Ngram)
    requires i < |ds|
    ensures SumOf(ds, g) == SumOf(ds[..i] + ds[i + 1..], g) + Get(ds[i], g)
    decreases |ds|
  {
    var last := |ds| - 1;
    if i < last {
      var init := ds[..last];
      SumOfRemove(init, i, g);
      var rest := ds[..i] + ds[i + 1..];
      assert rest[..|rest| - 1] == init[..i] + init[i + 1..];
      assert rest[|rest| - 1] == ds[last];
    } else {
      assert ds[..i] + ds[i + 1..] == ds[..last];
    }
  }

  /** Taking the last element off one of two equal multisets and a matching
      element off the other leaves equal multisets. */
  lemma RemoveMatched<T>(xs: seq<T>, ys: seq<T>, i: nat)
    requires multiset(xs) == multiset(ys) && xs != [] && i < |ys| && ys[i] == xs[|xs| - 1]
    ensures multiset(xs[..|xs| - 1]) == multiset(ys[..i] + ys[i + 1..])
  {
    var last := |xs| - 1;
    var d := xs[last];
    var rest := ys[..i] + ys[i + 1..];
    assert xs == xs[..last] + [d];
    assert ys == ys[..i] + [d] + ys[i + 1..];
    assert multiset(xs) == multiset(xs[..last]) + multiset{d};
    assert multiset(ys) == multiset(ys[..i]) + multiset{d} + multiset(ys[i + 1..]);
    assert multiset(rest) == multiset(ys[..i]) + multiset(ys[i + 1..]);
    forall x ensures multiset(xs[..last])[x] == multiset(rest)[x] {
      assert (multiset(xs[..last]) + multiset{d})[x] == (multiset(rest) + multiset{d})[x];
    }
  }

  /** The sum does not depend on the order of the dictionaries. */
  lemma {:induction false} SumOfPermutation(ds: seq<Counts>, es: seq<Counts>, g: Ngram)
    requires multiset(ds) == multiset(es)
    ensures SumOf(ds, g) == SumOf(es, g)
    decreases |ds|
  {
    if ds == [] {
      assert |es| == |multiset(es)| == 0;
    } else {
      var last := |ds| - 1;
      var d := ds[last];
      assert d in multiset(es) by {
        assert ds == ds[..last] + [d];
      }
      var i :| 0 <= i < |es| && es[i] == d;
      var rest := es[..i] + es[i + 1..];
      RemoveMatched(ds, es, i);
      SumOfPermutation(ds[..last], rest, g);
      SumOfRemove(es, i, g);
    }
  }

  /** The totals do not depend on the order in which the pool hands back
      the per-tweet dictionaries. */
  lemma MergeOrderFree(ds: seq<Counts>, es: seq<Counts>)
    requires multiset(ds) == multiset(es)
    ensures Merge(ds) == Merge(es)
  {
    forall g ensures (g in Merge(ds) <==> g in Merge(es)) && Get(Merge(ds), g) == Get(Merge(es), g) {
      MergeSums(ds, g);
      MergeSums(es, g);
      SumOfPermutation(ds, es, g);
      if g in Merge(ds) {
        var i :| 0 <= i < |ds| && g in ds[i];
        assert ds[i] in multiset(es);
      }
      if g in Merge(es) {
        var i :| 0 <= i < |es| && g in es[i];
        assert es[i] in multiset(ds);
      }
    }
  }

  /** Adding two tallies is tallying the concatenation. */
  lemma AddTallies(a: seq<Ngram>, b: seq<Ngram>)
    ensures AddCounts(Tally(a), Tally(b)) == Tally(a + b)
  {
    TallyCounts(a);
    TallyCounts(b);
    TallyCounts(a + b);
    var l, r := AddCounts(Tally(a), Tally(b)), Tally(a + b);
    assert multiset(a + b) == multiset(a) + multiset(b);
    forall g ensures g in l <==> g in r {
      assert g in a + b <==> g in a || g in b;
    }
    forall g | g in r ensures l[g] == r[g] {
      assert Get(l, g) == Get(r, g);
    }
  }

  /** The n-grams of a run of tweets, tweet after tweet. */
  function CorpusNgrams(tools: Tools, tweets: seq<string>, n: int): seq<Ngram>
    decreases |tweets|
  {
    if tweets == [] then []
    else CorpusNgrams(tools, tweets[..|tweets| - 1], n) + TweetNgrams(tools, tweets[|tweets| - 1], n)
  }

  /** The tallies of the tweets, one dictionary per tweet. */
  function TweetTallies(tools: Tools, tweets: seq<string>, n: int): (ds: seq<Counts>)
    ensures |ds| == |tweets|
    ensures forall i :: 0 <= i < |tweets| ==> ds[i] == Tally(TweetNgrams(tools, tweets[i], n))
  {
    seq(|tweets|, i requires 0 <= i < |tweets| => Tally(TweetNgrams(tools, tweets[i], n)))
  }

  /** Merging the per-tweet tallies gives the tally of the whole corpus:
      the total of an n-gram is its number of occurrences over all tweets,
      every total is at least 1, and n-grams never seen are absent. */
  lemma {:induction false} MergeTallies(tools: Tools, tweets: seq<string>, n: int)
    ensures Merge(TweetTallies(tools, tweets, n)) == Tally(CorpusNgrams(tools, tweets, n))
    decreases |tweets|
  {
    if tweets != [] {
      var last := |tweets| - 1;
      MergeTallies(tools, tweets[..last], n);
      var ds := TweetTallies(tools, tweets, n);
      assert ds[..last] == TweetTallies(tools, tweets[..last], n);
      AddTallies(CorpusNgrams(tools, tweets[..last], n), TweetNgrams(tools, tweets[last], n));
    }
  }

  /** The inner loop of `count_ngrams_in_tweets`: every item of one
      tweet's dictionary is added into the totals, with `setdefault(g, 0)`
      and `+=`, in whatever order the dictionary yields its items. */
  method AddInto(totals: Counts, counts: Counts) returns (r: Counts)
    ensures r == AddCounts(totals, counts)
  {
    r := totals;
    var todo := counts.Keys;
    while todo != {}
      invariant todo <= counts.Keys
      invariant r == AddCounts(totals, counts - todo)
      decreases |todo|
    {
      var g :| g in todo;
      if g !in r {
        r := r[g := 0];
      }
      r := r[g := r[g] + counts[g]];
      ghost var done := counts - (todo - {g});
      assert done == (counts - todo)[g := counts[g]];
      todo := todo - {g};
    }
    assert counts - {} == counts;
  }

  // ---------------------------------------------------------------------
  // The tweets table and gen_cnit_args

  /** A row of the tweets table. */
  datatype Tweet = Tweet(party: string, tweet: string)

  /** The database: the parties of the handles table, and the tweets. */
  datatype Db = Db(parties: set<string>, tweets: seq<Tweet>)

  /** The tweets of one party, in table order. */
  function OfParty(tweets: seq<Tweet>, party: string): (ts: seq<string>)
    ensures |ts| <= |tweets|
    ensures forall t :: t in ts <==> Tweet(party, t) in tweets
  {
    if tweets == [] then []
    else
      var rest := OfParty(tweets[1..], party);
      if tweets[0].party == party then [tweets[0].tweet] + rest else rest
  }

  /** The text of every tweet, in table order. */
  function AllTweets(tweets: seq<Tweet>): (ts: seq<string>)
    ensures |ts| == |tweets|
    ensures forall i :: 0 <= i < |tweets| ==> ts[i] == tweets[i].tweet
  {
    seq(|tweets|, i requires 0 <= i < |tweets| => tweets[i].tweet)
  }

  /** A party was named: `if party:` is false for None and for "". */
  predicate Named(party: Option<string>) {
    party.Some? && party.value != ""
  }

  /** `read.tweets`: a named party must be one of the handles table's
      parties (ValueError otherwise) and selects its tweets; no party
      selects all of them. */
  function ReadTweets(db: Db, party: Option<string>): (r: Result<seq<string>>)
    ensures r.Err? <==> Named(party) && party.value !in db.parties
    ensures r.Err? ==> r.error == ValueError
    ensures r.Ok? && Named(party) ==> forall t :: t in r.value <==> Tweet(party.value, t) in db.tweets
    ensures r.Ok? && !Named(party) ==> |r.value| == |db.tweets|
  {
    if Named(party) then
      if party.value !in db.parties then Err(ValueError) else Ok(OfParty(db.tweets, party.value))
    else Ok(AllTweets(db.tweets))
  }

  /** `count.tweets`: the same selection, counted, without the check on the
      party. */
  function CountTweets(db: Db, party: Option<string>): (c: nat)
    ensures ReadTweets(db, party).Ok? ==> c == |ReadTweets(db, party).value|
  {
    if Named(party) then |OfParty(db.tweets, party.value)| else |db.tweets|
  }

  /** `gen_cnit_args`: one `(tweet, ngram_len)` per selected tweet, in
      order; with a reporter, `yielded / count` after every 256th and 1 at
      the end. An unknown party stops the generator before it yields or
      sends anything. */
  method GenCnitArgs(db: Db, ngramLen: int, party: Option<string>, reporter: bool)
    returns (args: seq<(string, int)>, sent: seq<real>, r: Result<()>)
    ensures r.Err? <==> ReadTweets(db, party).Err?
    ensures r.Err? ==> r.error == ValueError && args == [] && sent == []
    ensures r.Ok? ==>
              var ts := ReadTweets(db, party).value;
              && |args| == |ts|
              && (forall i :: 0 <= i < |ts| ==> args[i] == (ts[i], ngramLen))
              && sent == Progress.Sent(reporter, |ts|, |ts|)
  {
    var numTweets := 0;
    if reporter {
      numTweets := CountTweets(db, party);
    }
    var read := ReadTweets(db, party);
    if read.Err? {
      return [], [], Err(read.error);
    }
    var tweets := read.value;
    args, sent, r := [], [], Ok(());
    for i := 0 to |tweets|
      invariant |args| == i
      invariant forall k :: 0 <= k < i ==> args[k] == (tweets[k], ngramLen)
      invariant reporter ==> numTweets == |tweets| && sent == Progress.Checkpoints(i, numTweets)
      invariant !reporter ==> sent == []
    {
      args := args + [(tweets[i], ngramLen)];
      if reporter {
        var yielded := i + 1;
        Progress.CheckpointsNext(i, numTweets);
        if yielded % 256 == 0 {
          sent := sent + [yielded as real / numTweets as real];
        }
      }
    }
    if reporter {
      sent := sent + [1.0];
    }
  }

  /** `count_ngrams_in_tweets`: a pool of fewer than one process is a
      ValueError; otherwise every selected tweet's n-grams are counted and
      the dictionaries merged into the totals. The totals are the tally of
      every n-gram of every selected tweet (see `MergeTallies`), whatever
      order the pool returns them in (see `MergeOrderFree`). */
  method CountNgramsInTweets(db: Db, tools: Tools, jobs: Option<int>, ngramLen: int,
                             party: Option<string>, reporter: bool)
    returns (totals: Counts, sent: seq<real>, r: Result<()>)
    ensures jobs.Some? && jobs.value < 1 ==> r == Err(ValueError) && sent == []
    ensures (jobs.None? || jobs.value >= 1) && ReadTweets(db, party).Err? ==> r == Err(ValueError)
    ensures r.Ok? <==> (jobs.None? || jobs.value >= 1) && ReadTweets(db, party).Ok?
    ensures r.Ok? ==>
              var ts := ReadTweets(db, party).value;
              && totals == Merge(TweetTallies(tools, ts, ngramLen))
              && sent == Progress.Sent(reporter, |ts|, |ts|)
  {
    totals, sent := map[], [];
    if jobs.Some? && jobs.value < 1 {
      return totals, sent, Err(ValueError);
    }
    var args;
    args, sent, r := GenCnitArgs(db, ngramLen, party, reporter);
    if r.Err? {
      return;
    }
    ghost var ts := ReadTweets(db, party).value;
    ghost var ds := TweetTallies(tools, ts, ngramLen);
    for i := 0 to |args|
      invariant totals == Merge(ds[..i])
    {
      var counts := CountNgramsInTweet(tools, args[i].0, args[i].1);
      assert counts == ds[i];
      MergePrefix(ds, i);
      totals := AddInto(totals, counts);
    }
    assert ds[..|args|] == ds;
  }
}
