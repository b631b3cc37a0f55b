/** What several components share: optional values and a fact about set sizes. */
module Common {

  datatype Option<+T> = None | Some(value: T)

  lemma SubsetCount<T>(a: set<T>, b: set<T>)
    requires a <= b
    ensures |a| <= |b|
  {
    assert b == a + (b - a);
  }
}
