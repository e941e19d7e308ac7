/**
 * The bounded min-heap both recommenders use to keep the `count` best
 * predictions: `heappush` while the heap is short, `heappushpop` once it
 * holds `count` items, and `nlargest` at the end. The heap is modelled by
 * its contents kept in ascending order, which is one arrangement the heap
 * invariant allows; the smallest item is the first one.
 */
module TopN {
  import opened PredictCommon

  /** The items in non-decreasing order. */
  ghost predicate Ascending(s: seq<Prediction>) {
    forall i, j :: 0 <= i < j < |s| ==> AtMost(s[i], s[j])
  }

  /** The items in non-increasing order. */
  ghost predicate Descending(s: seq<Prediction>) {
    forall i, j :: 0 <= i < j < |s| ==> AtMost(s[j], s[i])
  }

  /** `heappush` on the heap's contents. */
  function Insert(heap: seq<Prediction>, p: Prediction): (r: seq<Prediction>)
    requires Ascending(heap)
    ensures Ascending(r)
    ensures multiset(r) == multiset(heap) + multiset{p}
    ensures |r| == |heap| + 1
  {
    if heap == [] || AtMost(p, heap[0]) then
      AscendingCons(p, heap);
      [p] + heap
    else
      var rest := Insert(heap[1..], p);
      assert heap == [heap[0]] + heap[1..];
      AscendingTail(heap);
      forall x | x in rest ensures AtMost(heap[0], x) {
        assert x in multiset(rest);
      }
      AscendingCons(heap[0], rest);
      [heap[0]] + rest
  }

  /** Everything after the first item of an ascending sequence is at least
      the first item. */
  lemma AscendingTail(s: seq<Prediction>)
    requires Ascending(s) && s != []
    ensures Ascending(s[1..])
    ensures forall x :: x in s[1..] ==> AtMost(s[0], x)
  {
    forall x | x in s[1..] ensures AtMost(s[0], x) {
      var k :| 0 <= k < |s[1..]| && s[1..][k] == x;
      assert s[k + 1] == x;
    }
  }

  /** Everything before the last item of an ascending sequence is at most
      the last item. */
  lemma AscendingInit(init: seq<Prediction>, last: Prediction)
    requires Ascending(init + [last])
    ensures Ascending(init)
    ensures forall x :: x in init ==> AtMost(x, last)
  {
    var s := init + [last];
    assert forall k :: 0 <= k < |init| ==> s[k] == init[k];
    forall x | x in init ensures AtMost(x, last) {
      var k :| 0 <= k < |init| && init[k] == x;
      assert s[|init|] == last;
    }
  }

  /** An item at most every item of an ascending sequence heads an
      ascending sequence. */
  lemma AscendingCons(h: Prediction, s: seq<Prediction>)
    requires Ascending(s) && forall x :: x in s ==> AtMost(h, x)
    ensures Ascending([h] + s)
  {
    var r := [h] + s;
    forall i, j | 0 <= i < j < |r| ensures AtMost(r[i], r[j]) {
      assert r[j] == s[j - 1] && s[j - 1] in s;
    }
  }

  /** An item at least every item of a descending sequence heads a
      descending sequence. */
  lemma DescendingCons(h: Prediction, s: seq<Prediction>)
    requires Descending(s) && forall x :: x in s ==> AtMost(x, h)
    ensures Descending([h] + s)
  {
    var r := [h] + s;
    forall i, j | 0 <= i < j < |r| ensures AtMost(r[j], r[i]) {
      assert r[j] == s[j - 1] && s[j - 1] in s;
    }
  }

  /** One arrival: `heappush` while the heap holds fewer than `count`
      items, `heappushpop` otherwise, which pushes the item and pops the
      smallest of the heap and the item. */
  function Offer(heap: seq<Prediction>, count: int, p: Prediction): (r: seq<Prediction>)
    requires Ascending(heap)
    ensures Ascending(r)
    ensures |heap| < count ==> multiset(r) == multiset(heap) + multiset{p}
    ensures |heap| >= count ==> |r| == |heap|
    ensures |heap| >= count ==>
              exists d :: multiset(r) + multiset{d} == multiset(heap) + multiset{p}
                          && forall x :: x in r ==> AtMost(d, x)
  {
    var full := Insert(heap, p);
    if |heap| < count then full
    else
      assert full == [full[0]] + full[1..];
      AscendingTail(full);
      full[1..]
  }

  /** `nlargest(count, heap)`: the heap's items from the largest down,
      at most `count` of them. */
  function NLargest(heap: seq<Prediction>, count: int): (r: seq<Prediction>)
    requires Ascending(heap)
    ensures Descending(r)
    ensures |r| == if count <= 0 then 0 else if count < |heap| then count else |heap|
    ensures forall x :: x in r ==> x in heap
    ensures count >= |heap| ==> multiset(r) == multiset(heap)
    decreases |heap|
  {
    if count <= 0 || heap == [] then []
    else
      var init := heap[..|heap| - 1];
      var last := heap[|heap| - 1];
      assert heap == init + [last];
      AscendingInit(init, last);
      var rest := NLargest(init, count - 1);
      DescendingCons(last, rest);
      [last] + rest
  }

  /** `out` is a top-`count` selection from the pool of predictions: as
      many as `count` allows, in non-increasing order, drawn from the pool,
      and each at least as large as everything left behind. */
  ghost predicate TopOf(out: seq<Prediction>, pool: multiset<Prediction>, count: int) {
    && |out| == (if count <= 0 then 0 else if count < |pool| then count else |pool|)
    && Descending(out)
    && multiset(out) <= pool
    && forall x, y :: x in out && y in pool - multiset(out) ==> AtMost(y, x)
  }

  /** The loop invariant of the heap: its items and the items dropped so
      far are exactly the arrivals, the heap is as full as `count` allows,
      and nothing dropped exceeds anything kept. */
  ghost predicate Keeps(heap: seq<Prediction>, dropped: multiset<Prediction>,
                        arrived: multiset<Prediction>, count: int) {
    && Ascending(heap)
    && multiset(heap) + dropped == arrived
    && |heap| == (if count <= 0 then 0 else if count < |arrived| then count else |arrived|)
    && forall d, x :: d in dropped && x in heap ==> AtMost(d, x)
  }

  /** An empty heap keeps an empty arrival. */
  lemma KeepsEmpty(count: int)
    ensures Keeps([], multiset{}, multiset{}, count)
  {
  }

  /** The items that have arrived after one more of a run. */
  lemma ArrivedStep(s: seq<Prediction>, i: nat)
    requires i < |s|
    ensures multiset(s[..i + 1]) == multiset(s[..i]) + multiset{s[i]}
  {
    assert s[..i + 1] == s[..i] + [s[i]];
  }

  /** `Offer` keeps the invariant, and returns the multiset of items it
      dropped. */
  lemma OfferKeeps(heap: seq<Prediction>, dropped: multiset<Prediction>,
                   arrived: multiset<Prediction>, count: int, p: Prediction)
    returns (dropped': multiset<Prediction>)
    requires Keeps(heap, dropped, arrived, count)
    ensures Keeps(Offer(heap, count, p), dropped', arrived + multiset{p}, count)
  {
    if |heap| < count {
      OfferWithRoom(heap, dropped, arrived, count, p);
      dropped' := dropped;
    } else {
      dropped' := OfferWhenFull(heap, dropped, arrived, count, p);
    }
  }

  /** While the heap has room nothing has been dropped, and the arrival is
      simply added. */
  lemma OfferWithRoom(heap: seq<Prediction>, dropped: multiset<Prediction>,
                      arrived: multiset<Prediction>, count: int, p: Prediction)
    requires Keeps(heap, dropped, arrived, count) && |heap| < count
    ensures Keeps(Offer(heap, count, p), dropped, arrived + multiset{p}, count)
  {
    assert |multiset(heap)| == |heap|;
    assert dropped == multiset{};
  }

  /** Once the heap is full, the item popped sits below every item kept,
      and every earlier drop sits below the arrival if it is kept. */
  lemma OfferWhenFull(heap: seq<Prediction>, dropped: multiset<Prediction>,
                      arrived: multiset<Prediction>, count: int, p: Prediction)
    returns (dropped': multiset<Prediction>)
    requires Keeps(heap, dropped, arrived, count) && |heap| >= count
    ensures Keeps(Offer(heap, count, p), dropped', arrived + multiset{p}, count)
  {
    var r := Offer(heap, count, p);
    var d :| multiset(r) + multiset{d} == multiset(heap) + multiset{p}
              && forall x :: x in r ==> AtMost(d, x);
    dropped' := dropped + multiset{d};
    assert multiset(r) + dropped' == arrived + multiset{p} by {
      assert multiset(r) + dropped' == (multiset(r) + multiset{d}) + dropped;
    }
    FullStaysFull(|heap|, |arrived|, count);
    EarlierDropsBelow(heap, dropped, r, d, p);
  }

  /** A full heap stays exactly as full after one more arrival. */
  lemma FullStaysFull(size: nat, arrived: nat, count: int)
    requires size == (if count <= 0 then 0 else if count < arrived then count else arrived)
    requires size >= count
    ensures size == (if count <= 0 then 0 else if count < arrived + 1 then count else arrived + 1)
  {
  }

  /** After a push-and-pop, the items dropped before still sit below every
      item kept. */
  lemma EarlierDropsBelow(heap: seq<Prediction>, dropped: multiset<Prediction>,
                          r: seq<Prediction>, d: Prediction, p: Prediction)
    requires forall e, x :: e in dropped && x in heap ==> AtMost(e, x)
    requires multiset(r) + multiset{d} == multiset(heap) + multiset{p}
    requires forall x :: x in r ==> AtMost(d, x)
    ensures forall e, x :: e in dropped && x in r ==> AtMost(e, x)
  {
    forall e, x | e in dropped && x in r ensures AtMost(e, x) {
      assert x in multiset(r);
      if x in multiset(heap) {
        assert x in heap;
      } else {
        assert x in multiset(heap) + multiset{p};
        assert x == p;
        assert (multiset(r) + multiset{d})[p] == 1;
        assert d != p;
        assert d in multiset(heap) + multiset{p};
        assert d in heap;
        AtMostOrder(e, d, x);
      }
    }
  }

  /** A heap that keeps all arrivals yields, through `nlargest`, a
      top-`count` selection from them. */
  lemma KeepsTop(heap: seq<Prediction>, dropped: multiset<Prediction>,
                 arrived: multiset<Prediction>, count: int)
    requires Keeps(heap, dropped, arrived, count)
    ensures TopOf(NLargest(heap, count), arrived, count)
  {
    var out := NLargest(heap, count);
    assert |heap| == |multiset(heap)|;
    if count <= 0 {
      assert out == [];
    } else {
      assert multiset(out) == multiset(heap);
      assert arrived - multiset(out) == dropped;
    }
  }
}
