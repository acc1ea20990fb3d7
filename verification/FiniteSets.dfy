/** Sizes of finite sets. */
module FiniteSets {
  /** A set splits into any part of it and the rest. */
  lemma SubsetSize<T>(part: set<T>, whole: set<T>)
    requires part <= whole
    ensures |whole| == |part| + |whole - part|
    ensures part != whole ==> |part| < |whole|
  {
    assert whole == part + (whole - part);
    assert part != whole ==> whole - part != {};
  }
}
