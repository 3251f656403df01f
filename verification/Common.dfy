/** What several models share. */
module Common {

  datatype Option<T> = None | Some(value: T)

  /** Kinds of type infos that registration and unloading treat differently. */
  datatype Kind = VArray | RawArray | CPointer | Other

  lemma SubsetSize<T>(a: set<T>, b: set<T>)
    requires a <= b
    ensures |a| <= |b|
  {
    assert b == a + (b - a);
  }
}
