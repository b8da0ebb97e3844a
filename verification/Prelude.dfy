/** What several modules share. */
module Prelude {
  datatype Option<+T> = None | Some(value: T)

  datatype Result<+T, +E> = Ok(value: T) | Err(error: E)

  /** A non-empty set has an element to pick. */
  lemma HasElement(ids: set<int>)
    ensures ids == {} || exists i: int :: i in ids
  {
    if forall i: int :: i !in ids {
      assert ids == {};
    }
  }

  lemma SameMap<K, V>(one: map<K, V>, two: map<K, V>)
    requires forall k: K {:trigger k in one} :: k in one <==> k in two
    requires forall k: K :: k in two ==> one[k] == two[k]
    ensures one == two
  {
  }
}
