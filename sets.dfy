/** Facts about finite sets that the set-walking loops rely on. */
module Sets {

  /** A set other than the empty set has a member, so one can be picked from it. */
  lemma NonEmptyHasMember(s: set<int>)
    requires s != {}
    ensures exists x :: x in s
  {
    if forall x :: x !in s {
      assert false;
    }
  }
}
