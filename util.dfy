/** Small shared definitions: the optional value used for the source's
    `Option`, a result for the ways `clustering` stops early, and witness
    lemmas for choosing an element of a set. */
module Util {

  datatype Option<+T> = None | Some(value: T)

  datatype Result<+T, +E> = Ok(value: T) | Err(error: E)

  /** A non-empty set has a member; proved so that `x :| x in s` can pick one. */
  lemma NonEmptyHasMember<T>(s: set<T>)
    requires s != {}
    ensures exists y :: y in s
  {
    if forall y :: y !in s {
      assert false;
    }
  }

  /** The same for a set of naturals (handles). */
  lemma NonEmptyHasNat(s: set<nat>)
    requires s != {}
    ensures exists y: nat :: y in s
  {
    if forall y: nat :: y !in s {
      assert false;
    }
  }

  /** A subset is no larger than its superset. */
  lemma {:induction false} SubsetCard<T>(a: set<T>, b: set<T>)
    requires a <= b
    ensures |a| <= |b|
    decreases |b|
  {
    if a != {} {
      NonEmptyHasMember(a);
      var x :| x in a;
      SubsetCard(a - {x}, b - {x});
    }
  }
}
