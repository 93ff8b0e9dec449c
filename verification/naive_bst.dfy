/** The unbalanced binary search tree used as the baseline in the timing
    experiment: `NaiveBST` with its iterative `insert`, `contains` and
    `fromList`. */
module NaiveBst {
  import opened Outcomes
  import opened Lists

  /** A possibly-absent subtree: `Nil` is the absent child slot. */
  datatype Bst = Nil | Branch(left: Bst, value: int, right: Bst)

  function Size(t: Bst): nat {
    match t
    case Nil => 0
    case Branch(l, _, r) => Size(l) + 1 + Size(r)
  }

  function Elems(t: Bst): set<int> {
    match t
    case Nil => {}
    case Branch(l, v, r) => Elems(l) + {v} + Elems(r)
  }

  predicate SearchTree(t: Bst) {
    match t
    case Nil => true
    case Branch(l, v, r) =>
      && SearchTree(l) && SearchTree(r)
      && (forall y :: y in Elems(l) ==> y < v)
      && (forall y :: y in Elems(r) ==> v < y)
  }

  /** A fresh node with no children. */
  function Single(x: int): Bst {
    Branch(Nil, x, Nil)
  }

  /** `r` is `t` with one absent slot filled by a fresh leaf holding `x`: the
      slot reached by going left below values greater than `x` and right
      below values smaller than it, every other node left as it was. */
  predicate GrowsAt(t: Bst, r: Bst, x: int) {
    match t
    case Nil => r == Single(x)
    case Branch(l, v, rt) =>
      && r.Branch? && r.value == v && x != v
      && (x < v ==> r.right == rt && GrowsAt(l, r.left, x))
      && (v < x ==> r.left == l && GrowsAt(rt, r.right, x))
  }

  /** Descend from the present root, attaching `x` as a fresh leaf in the
      first absent slot; a value equal to a node's is refused. */
  function Insert(t: Bst, x: int): (r: Result<Bst>)
    requires t.Branch?
    ensures r.Ok? ==> r.value.Branch? && Elems(r.value) == Elems(t) + {x}
    ensures r.Err? ==> r.error == DuplicateKey && x in Elems(t)
    ensures SearchTree(t) ==> (r.Err? <==> x in Elems(t))
    ensures SearchTree(t) && r.Ok? ==> SearchTree(r.value)
  {
    if x < t.value then
      if t.left.Nil? then
        Ok(t.(left := Single(x)))
      else
        var l :- Insert(t.left, x);
        assert SearchTree(t) ==> SearchTree(t.(left := l));
        Ok(t.(left := l))
    else if x > t.value then
      if t.right.Nil? then
        Ok(t.(right := Single(x)))
      else
        var rt :- Insert(t.right, x);
        assert SearchTree(t) ==> SearchTree(t.(right := rt));
        Ok(t.(right := rt))
    else
      Err(DuplicateKey)
  }

  /** A successful insert changes nothing but one absent slot, which it
      fills with a fresh leaf; the tree grows by exactly one node. */
  lemma {:induction false} InsertGrowsAtLeaf(t: Bst, x: int)
    requires t.Branch? && Insert(t, x).Ok?
    ensures GrowsAt(t, Insert(t, x).value, x)
    ensures Size(Insert(t, x).value) == Size(t) + 1
  {
    var r := Insert(t, x).value;
    if x < t.value && t.left.Branch? {
      InsertGrowsAtLeaf(t.left, x);
    } else if x > t.value && t.right.Branch? {
      InsertGrowsAtLeaf(t.right, x);
    }
  }

  /** The search `contains` performs: left below larger values, right below
      smaller ones, until `x` is met or the path runs out. */
  method Contains(t: Bst, x: int) returns (found: bool)
    ensures found ==> x in Elems(t)
    ensures SearchTree(t) ==> (found <==> x in Elems(t))
  {
    var cur := t;
    while cur.Branch?
      invariant Elems(cur) <= Elems(t)
      invariant SearchTree(t) ==> SearchTree(cur) && (x in Elems(t) <==> x in Elems(cur))
      decreases Size(cur)
    {
      if x < cur.value {
        cur := cur.left;
      } else if x > cur.value {
        cur := cur.right;
      } else {
        return true;
      }
    }
    return false;
  }

  /** Build a tree by making the first value the root and inserting the
      rest in order; an empty list gives no tree (`Nil`). */
  method FromList(xs: seq<int>) returns (r: Result<Bst>)
    ensures r.Ok? <==> Distinct(xs)
    ensures r.Err? ==> r.error == DuplicateKey
    ensures r.Ok? ==> Elems(r.value) == Members(xs) && SearchTree(r.value)
    ensures r.Ok? ==> (r.value.Nil? <==> |xs| == 0)
  {
    if |xs| == 0 {
      return Ok(Nil);
    }
    var tree := Single(xs[0]);
    assert Elems(Nil) == {};
    assert xs[..1] == [xs[0]];
    var i := 1;
    while i < |xs|
      invariant 1 <= i <= |xs|
      invariant tree.Branch? && SearchTree(tree) && Elems(tree) == Members(xs[..i])
      invariant Distinct(xs[..i])
    {
      assert xs[..i + 1] == xs[..i] + [xs[i]];
      DistinctSnoc(xs[..i], xs[i]);
      var next := Insert(tree, xs[i]);
      if next.Err? {
        NotDistinctExtends(xs, i + 1);
        return Err(next.error);
      }
      tree := next.value;
      i := i + 1;
    }
    assert xs[..i] == xs;
    return Ok(tree);
  }
}
