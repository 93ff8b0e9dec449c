/** Insertion into the left-leaning red-black tree: the recursive descent
    `_insert_rec` that creates a Red leaf and fixes up on the way back, and
    the public `insert` that recolours the new root Black. */
module RbInsert {
  import opened Outcomes
  import opened RbTree
  import opened RbPrimitives
  import opened RbValidators

  /** Insert `x` below the present node `h`, failing on a value already met
      on the search path. */
  function InsertRec(h: Tree, x: int): (r: Result<Tree>)
    requires h.Node?
    ensures r.Ok? ==> r.value.Node? && Elems(r.value) == Elems(h) + {x} && Size(r.value) == Size(h) + 1
    ensures r.Err? ==> r.error == DuplicateKey && x in Elems(h)
  {
    if x < h.value then
      var l :- if h.left.Leaf? then Ok(Node(Red, Leaf, x, Leaf)) else InsertRec(h.left, x);
      assert Elems(l) == Elems(h.left) + {x} && Size(l) == Size(h.left) + 1;
      Ok(FixUp(h.(left := l)))
    else if x > h.value then
      var rt :- if h.right.Leaf? then Ok(Node(Red, Leaf, x, Leaf)) else InsertRec(h.right, x);
      assert Elems(rt) == Elems(h.right) + {x} && Size(rt) == Size(h.right) + 1;
      Ok(FixUp(h.(right := rt)))
    else
      Err(DuplicateKey)
  }

  /** On a search tree, insertion fails exactly when `x` is already present,
      and otherwise returns a search tree. */
  lemma {:induction false} InsertRecOrdered(h: Tree, x: int)
    requires h.Node? && SearchTree(h)
    ensures InsertRec(h, x).Err? <==> x in Elems(h)
    ensures InsertRec(h, x).Ok? ==> SearchTree(InsertRec(h, x).value)
  {
    if x < h.value {
      assert x !in Elems(h.right);
      if h.left.Node? {
        InsertRecOrdered(h.left, x);
      }
      if InsertRec(h, x).Ok? {
        var l := if h.left.Leaf? then Node(Red, Leaf, x, Leaf) else InsertRec(h.left, x).value;
        GraftLeft(h, l, x);
        assert InsertRec(h, x).value == FixUp(h.(left := l));
      }
    } else if x > h.value {
      assert x !in Elems(h.left);
      if h.right.Node? {
        InsertRecOrdered(h.right, x);
      }
      if InsertRec(h, x).Ok? {
        var rt := if h.right.Leaf? then Node(Red, Leaf, x, Leaf) else InsertRec(h.right, x).value;
        GraftRight(h, rt, x);
        assert InsertRec(h, x).value == FixUp(h.(right := rt));
      }
    }
  }

  /** Replacing the left subtree of a search tree by an ordered one that
      has gained a value below the node keeps the ordering. */
  lemma GraftLeft(h: Tree, l: Tree, x: int)
    requires h.Node? && SearchTree(h) && SearchTree(l) && x < h.value
    requires Elems(l) == Elems(h.left) + {x}
    ensures SearchTree(h.(left := l))
  {
  }

  lemma GraftRight(h: Tree, r: Tree, x: int)
    requires h.Node? && SearchTree(h) && SearchTree(r) && h.value < x
    requires Elems(r) == Elems(h.right) + {x}
    ensures SearchTree(h.(right := r))
  {
  }

  /** Insertion keeps the black height; below a Black node it returns a
      settled tree, below a Red node a Red one that is at worst top-heavy. */
  lemma {:induction false} InsertRecBalance(h: Tree, x: int)
    requires h.Node? && Settled(h) && InsertRec(h, x).Ok?
    ensures var r := InsertRec(h, x).value;
      && Bh(r) == Bh(h)
      && (h.colour == Black ==> Settled(r))
      && (h.colour == Red ==> IsRed(r) && (Settled(r) || TopHeavy(r)))
  {
    if x < h.value {
      var l := if h.left.Leaf? then Node(Red, Leaf, x, Leaf) else InsertRec(h.left, x).value;
      if h.left.Node? {
        InsertRecBalance(h.left, x);
      }
      var h' := h.(left := l);
      assert InsertRec(h, x).value == FixUp(h');
      if h.colour == Red {
        FixUpRedNode(h');
      } else if TopHeavy(l) {
        FixUpSplitsTopHeavy(h');
      } else {
        FixUpSettles(h');
      }
    } else {
      var rt := if h.right.Leaf? then Node(Red, Leaf, x, Leaf) else InsertRec(h.right, x).value;
      if h.right.Node? {
        InsertRecBalance(h.right, x);
      }
      var h' := h.(right := rt);
      assert InsertRec(h, x).value == FixUp(h');
      if h.colour == Red {
        FixUpRedNode(h');
      } else {
        FixUpSettles(h');
      }
    }
  }

  /** `insert`: add `x` to a tree and recolour the new root Black. */
  function Insert(t: Tree, x: int): (r: Result<Tree>)
    requires t.Node?
    ensures r.Ok? ==> r.value.Node? && r.value.colour == Black
    ensures r.Ok? ==> Elems(r.value) == Elems(t) + {x}
    ensures r.Err? ==> r.error == DuplicateKey && x in Elems(t)
    ensures SearchTree(t) ==> (r.Err? <==> x in Elems(t))
    ensures SearchTree(t) && r.Ok? ==> SearchTree(r.value)
  {
    assert SearchTree(t) ==> (InsertRec(t, x).Err? <==> x in Elems(t)) by {
      if SearchTree(t) {
        InsertRecOrdered(t, x);
      }
    }
    var root :- InsertRec(t, x);
    assert SearchTree(t) ==> SearchTree(root) by {
      if SearchTree(t) {
        InsertRecOrdered(t, x);
      }
    }
    Ok(Blacken(root))
  }

  /** Inserting a fresh value into a valid left-leaning red-black tree yields
      one; a present value is refused. */
  lemma InsertKeepsLlrb(t: Tree, x: int)
    requires IsLlrb(t)
    ensures Insert(t, x).Ok? <==> x !in Elems(t)
    ensures Insert(t, x).Ok? ==> IsLlrb(Insert(t, x).value) && Elems(Insert(t, x).value) == Elems(t) + {x}
  {
    IsLlrbIff(t);
    if Insert(t, x).Ok? {
      InsertRecBalance(t, x);
      IsLlrbIff(Insert(t, x).value);
    }
  }

  /** Insertion preserves `is_rbt` itself on the trees the engine builds. */
  lemma InsertKeepsRbt(t: Tree, x: int)
    requires IsLlrb(t) && x !in Elems(t)
    ensures Insert(t, x).Ok? && IsRbt(Insert(t, x).value)
  {
    InsertKeepsLlrb(t, x);
  }

  /** `is_rbt` alone is not kept by insertion: it accepts a Red right
      child, and inserting above that child stacks two Red nodes. */
  lemma RbtNotKeptByInsert()
    ensures var t := Node(Black, Leaf, 5, Node(Red, Leaf, 7, Leaf));
      IsRbt(t) && Insert(t, 8).Ok? && !IsRbt(Insert(t, 8).value)
  {
    var t := Node(Black, Leaf, 5, Node(Red, Leaf, 7, Leaf));
    var bad := Node(Black, Node(Red, Leaf, 5, Node(Red, Leaf, 7, Leaf)), 8, Leaf);
    assert IsRbt(t) by {
      IsBstIff(t);
      BlackHeightIff(t);
      assert Elems(t.right) == {7};
    }
    assert InsertRec(t.right, 8) == Ok(Node(Red, Node(Red, Leaf, 7, Leaf), 8, Leaf));
    assert Insert(t, 8) == Ok(bad);
    assert !NoRedRed(bad.left);
  }
}
