/** Option, the model of a Java reference that may be null, and the one
    fact about sets that a Java set iterator relies on. */
module Wrappers {
  datatype Option<+T> = None | Some(value: T)

  /** A set that is not empty has an element, for a set iterator to yield. */
  lemma HasElement<T>(s: set<T>) returns (x: T)
    requires s != {}
    ensures x in s
  {
    assert !(forall y :: y !in s) by {
      if forall y :: y !in s {
        assert false;
      }
    }
    x :| x in s;
  }
}
