/** Small value types and sequence facts shared by the rest of the model. */
module Basics {

  /** A participant identifier. */
  type Name = string

  datatype Option<T> = None | Some(value: T)

  /** The shape of Rust's `Result<T, E>`. */
  datatype Result<T, E> = Ok(value: T) | Err(error: E)

  /** No value occurs twice in `s`. */
  predicate Distinct<T(==)>(s: seq<T>) {
    forall i, j :: 0 <= i < j < |s| ==> s[i] != s[j]
  }

  /** The set of values occurring in `s`. */
  function Elements<T>(s: seq<T>): set<T> {
    set x | x in s
  }

  /** `order` lists each member of `people` exactly once (any order). */
  predicate IsOrdering<T(==)>(order: seq<T>, people: set<T>) {
    Distinct(order) && Elements(order) == people
  }

  /** A duplicate-free sequence has as many distinct elements as it is long. */
  lemma {:induction false} DistinctCard<T>(s: seq<T>)
    requires Distinct(s)
    ensures |Elements(s)| == |s|
  {
    if |s| > 0 {
      var init, last := s[..|s| - 1], s[|s| - 1];
      assert Distinct(init);
      DistinctCard(init);
      assert Elements(s) == Elements(init) + {last};
      assert last !in Elements(init);
    }
  }

  /** A duplicate-free sequence drawn from a set and as long as it covers the set. */
  lemma FillsSet<T>(r: seq<T>, people: set<T>)
    requires Distinct(r) && Elements(r) <= people && |r| == |people|
    ensures Elements(r) == people
  {
    DistinctCard(r);
    var rest := people - Elements(r);
    assert people == Elements(r) + rest;
    assert |people| == |Elements(r)| + |rest|;
  }
}
