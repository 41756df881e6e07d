/** A fact about finite sets of integers shared by the counting code. */
module IntSets {

  /** A non-empty set of integers has an element. */
  lemma HasElement(s: set<int>)
    requires s != {}
    ensures exists k :: k in s
  {
    if forall k :: k !in s {
      assert false;
    }
  }
}
