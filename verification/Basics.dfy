/** Values that may be missing. */
module Options {
  datatype Option<+T> = Some(value: T) | None
}

/** Sizes of finite sets. */
module Sets {
  lemma SubsetSize<T>(a: set<T>, b: set<T>)
    requires a <= b
    ensures |a| <= |b|
  {
    assert b == a + (b - a);
  }
}
