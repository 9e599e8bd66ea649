/** What all modules share: optional values, in place of the null pointers of ADC, the
    width of an address, and the sizes of sets. */
module Wrappers {
  datatype Option<+T> = None | Some(value: T)

  /** Addresses and sizes are 32-bit numbers. */
  const ADDR_LIMIT: nat := 0x1_0000_0000

  lemma SubsetSize<T>(a: set<T>, b: set<T>)
    requires a <= b
    ensures |a| <= |b|
    ensures a < b ==> |a| < |b|
  {
    assert |b - a| == |b| - |a|;
    if a < b {
      var x :| x in b && x !in a;
      assert x in b - a;
    }
  }
}
