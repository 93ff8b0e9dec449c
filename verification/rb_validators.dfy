/** The read-only validators of the tree, written as the source computes them
    (`is_bst` with optional open bounds, `no_red_red`, `black_height` with its
    failure sentinel, `is_rbt`), each tied by a lemma to the abstraction the
    proofs use. */
module RbValidators {
  import opened Outcomes
  import opened RbTree

  /** `lo < y`, where an absent bound admits everything. */
  predicate Above(lo: Option<int>, y: int) {
    lo.None? || lo.value < y
  }

  /** `y < hi`, where an absent bound admits everything. */
  predicate Below(hi: Option<int>, y: int) {
    hi.None? || y < hi.value
  }

  /** The inner `go` of `is_bst`: every node's value lies strictly between
      the bounds inherited from its ancestors. */
  predicate BstWithin(t: Tree, lo: Option<int>, hi: Option<int>) {
    match t
    case Leaf => true
    case Node(_, l, v, r) =>
      && Above(lo, v) && Below(hi, v)
      && BstWithin(l, lo, Some(v)) && BstWithin(r, Some(v), hi)
  }

  predicate IsBst(t: Tree) {
    BstWithin(t, None, None)
  }

  predicate NoRedRed(t: Tree) {
    match t
    case Leaf => true
    case Node(c, l, _, r) =>
      && (c == Red ==> !IsRed(l) && !IsRed(r))
      && NoRedRed(l) && NoRedRed(r)
  }

  /** The black count of every path, or `None` when two paths disagree. */
  function BlackHeight(t: Tree): Option<nat> {
    match t
    case Leaf => Some(1)
    case Node(c, l, _, r) =>
      var lh := BlackHeight(l);
      var rh := BlackHeight(r);
      if lh.None? || rh.None? || lh.value != rh.value then None
      else Some(lh.value + (if c == Black then 1 else 0))
  }

  /** `is_rbt`: a present, Black-rooted search tree with no red-red pair and
      a defined black height. */
  predicate IsRbt(t: Tree) {
    && t.Node?
    && t.colour == Black
    && IsBst(t)
    && NoRedRed(t)
    && BlackHeight(t).Some?
  }

  /** No node has a Red right child. */
  predicate LeftLeaning(t: Tree) {
    match t
    case Leaf => true
    case Node(_, l, _, r) => !IsRed(r) && LeftLeaning(l) && LeftLeaning(r)
  }

  /** `is_rbt` strengthened with the left-leaning condition that the insertion
      and deletion algorithms rely on. */
  predicate IsLlrb(t: Tree) {
    IsRbt(t) && LeftLeaning(t)
  }

  /** The black counts of all the paths from the root to an absent child. */
  function PathBlackCounts(t: Tree): (s: set<nat>)
    ensures Bh(t) in s
  {
    match t
    case Leaf => {1}
    case Node(c, l, _, r) =>
      var d := if c == Black then 1 else 0;
      set k | k in PathBlackCounts(l) + PathBlackCounts(r) :: k + d
  }

  lemma {:induction false} BstWithinIff(t: Tree, lo: Option<int>, hi: Option<int>)
    ensures BstWithin(t, lo, hi) <==>
      SearchTree(t) && forall y :: y in Elems(t) ==> Above(lo, y) && Below(hi, y)
  {
    match t
    case Leaf =>
    case Node(_, l, v, r) =>
      BstWithinIff(l, lo, Some(v));
      BstWithinIff(r, Some(v), hi);
  }

  /** `is_bst` holds exactly of search trees. */
  lemma IsBstIff(t: Tree)
    ensures IsBst(t) <==> SearchTree(t)
  {
    BstWithinIff(t, None, None);
  }

  /** `black_height` is defined exactly on balanced trees, where it is the
      black count of the leftmost path. */
  lemma {:induction false} BlackHeightIff(t: Tree)
    ensures BlackHeight(t) == if Balanced(t) then Some(Bh(t)) else None
  {
    match t
    case Leaf =>
    case Node(_, l, _, r) =>
      BlackHeightIff(l);
      BlackHeightIff(r);
  }

  /** A tree is balanced exactly when all its paths have one black count. */
  lemma {:induction false} BalancedPaths(t: Tree)
    ensures Balanced(t) <==> PathBlackCounts(t) == {Bh(t)}
  {
    match t
    case Leaf =>
    case Node(c, l, _, r) =>
      BalancedPaths(l);
      BalancedPaths(r);
      var d := if c == Black then 1 else 0;
      if Balanced(t) {
        assert PathBlackCounts(l) + PathBlackCounts(r) == {Bh(l)};
      } else if Bh(l) != Bh(r) {
        assert Bh(r) + d in PathBlackCounts(t);
      } else {
        // some path of l or r disagrees with the leftmost one
        var k :| k in PathBlackCounts(l) + PathBlackCounts(r) && k != Bh(l);
        assert k + d in PathBlackCounts(t);
      }
  }

  /** The settled shape is exactly balance, no red-red pair and left
      leaning. */
  lemma {:induction false} SettledIff(t: Tree)
    ensures Settled(t) <==> Balanced(t) && NoRedRed(t) && LeftLeaning(t)
  {
    match t
    case Leaf =>
    case Node(_, l, _, r) =>
      SettledIff(l);
      SettledIff(r);
  }

  /** The strengthened validator, stated in the proofs' abstractions. */
  lemma IsLlrbIff(t: Tree)
    ensures IsLlrb(t) <==> t.Node? && t.colour == Black && SearchTree(t) && Settled(t)
  {
    IsBstIff(t);
    BlackHeightIff(t);
    SettledIff(t);
  }

  /** `is_rbt` holds exactly of Black-rooted search trees with no red-red
      pair whose paths all carry one black count. */
  lemma IsRbtIff(t: Tree)
    ensures IsRbt(t) <==>
      && t.Node? && t.colour == Black && SearchTree(t) && NoRedRed(t)
      && PathBlackCounts(t) == {Bh(t)}
  {
    IsBstIff(t);
    BlackHeightIff(t);
    BalancedPaths(t);
  }
}
