/** Iterating over a Python set: each step takes some element of the
    remaining ones, in an order the model leaves open. */
module Sets {

  /** A non-empty set has an element. */
  lemma Element<T>(s: set<T>) returns (x: T)
    requires s != {}
    ensures x in s
  {
    var empty: set<T> := {};
    assert s != empty;
    x :| x in s;
  }
}
