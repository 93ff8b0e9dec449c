/** Facts about the Python lists handed to the `fromList` constructors. */
module Lists {

  /** No value occurs twice in the list. */
  predicate Distinct(xs: seq<int>) {
    forall i, j :: 0 <= i < j < |xs| ==> xs[i] != xs[j]
  }

  /** The values of a list, forgetting order and repetition. */
  function Members(xs: seq<int>): set<int> {
    set x | x in xs
  }

  /** Extending a duplicate-free prefix by one value keeps it duplicate-free
      exactly when that value is new. */
  lemma DistinctSnoc(xs: seq<int>, x: int)
    requires Distinct(xs)
    ensures Distinct(xs + [x]) <==> x !in Members(xs)
  {
    if x in xs {
      var i :| 0 <= i < |xs| && xs[i] == x;
      assert (xs + [x])[i] == (xs + [x])[|xs|];
    }
  }

  /** A list with a duplicate in one prefix has one in every longer prefix. */
  lemma NotDistinctExtends(xs: seq<int>, n: nat)
    requires n <= |xs| && !Distinct(xs[..n])
    ensures !Distinct(xs)
  {
    var i, j :| 0 <= i < j < n && xs[..n][i] == xs[..n][j];
    assert xs[i] == xs[j];
  }
}
