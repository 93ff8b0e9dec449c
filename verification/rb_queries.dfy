/** The read-only search `contains` and the bulk constructor `fromList` of
    the left-leaning red-black tree. */
module RbQueries {
  import opened Outcomes
  import opened Lists
  import opened RbTree
  import opened RbValidators
  import opened RbInsert

  /** Walk down from the root, left when `x` is smaller and right when it is
      larger, until `x` is met or the path runs out. */
  method Contains(t: Tree, x: int) returns (found: bool)
    ensures found ==> x in Elems(t)
    ensures SearchTree(t) ==> (found <==> x in Elems(t))
  {
    var cur := t;
    while cur.Node?
      invariant Elems(cur) <= Elems(t)
      invariant SearchTree(t) ==> SearchTree(cur) && (x in Elems(t) <==> x in Elems(cur))
      decreases Size(cur)
    {
      if x < cur.value {
        cur := cur.left;
      } else if x > cur.value {
        cur := cur.right;
      } else {
        return true;
      }
    }
    return false;
  }

  /** Build a tree by making the first value a Black root and inserting the
      rest in order; an empty list gives no tree (`Leaf`), and a repeated
      value fails the way the insert of it does. */
  method FromList(xs: seq<int>) returns (r: Result<Tree>)
    ensures r.Ok? <==> Distinct(xs)
    ensures r.Err? ==> r.error == DuplicateKey
    ensures r.Ok? ==> Elems(r.value) == Members(xs)
    ensures r.Ok? ==> (r.value.Leaf? <==> |xs| == 0)
    ensures r.Ok? && |xs| > 0 ==> IsLlrb(r.value)
  {
    if |xs| == 0 {
      return Ok(Leaf);
    }
    var tree := Node(Black, Leaf, xs[0], Leaf);
    assert IsLlrb(tree) by {
      assert Elems(Leaf) == {} && !IsRed(Leaf) && Settled(Leaf);
      assert SearchTree(tree) && Settled(tree);
      IsLlrbIff(tree);
    }
    assert xs[..1] == [xs[0]];
    var i := 1;
    while i < |xs|
      invariant 1 <= i <= |xs|
      invariant IsLlrb(tree) && Elems(tree) == Members(xs[..i])
      invariant Distinct(xs[..i])
    {
      InsertKeepsLlrb(tree, xs[i]);
      assert xs[..i + 1] == xs[..i] + [xs[i]];
      DistinctSnoc(xs[..i], xs[i]);
      var next := Insert(tree, xs[i]);
      if next.Err? {
        NotDistinctExtends(xs, i + 1);
        return Err(next.error);
      }
      tree := next.value;
      i := i + 1;
    }
    assert xs[..i] == xs;
    return Ok(tree);
  }
}
