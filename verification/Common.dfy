/** Small datatypes and facts shared by the modules of the model. */
module Common {

  /** A nullable column, an optional dictionary key, or an absent argument. */
  datatype Option<+T> = None | Some(value: T)

  /** A value, or the reason the call raised instead. */
  datatype Result<+T, +E> = Ok(value: T) | Err(error: E)

  lemma SubsetCardinality<T>(small: set<T>, big: set<T>)
    requires small <= big
    ensures |small| <= |big|
  {
    assert big == small + (big - small);
  }

  lemma Associates<T>(a: seq<T>, b: seq<T>, c: seq<T>)
    ensures (a + b) + c == a + (b + c)
  {
  }
}
