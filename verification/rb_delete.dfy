/** Deletion from the left-leaning red-black tree: `_min_node`,
    `_delete_min`, the recursive `_delete_rec` that borrows red links on the
    way down and fixes up on the way back, and the public `delete`.
    `_delete_rec` is split at its two descents: `DeleteLeft` for the left
    branch, `DeleteRight` for the rotation and the early returns, and
    `DeleteBelow` for the splice or the descent to the right. */
module RbDelete {
  import opened Outcomes
  import opened RbTree
  import opened RbPrimitives
  import opened RbValidators

  /** The leftmost node below a present node. */
  function MinNode(t: Tree): (m: Tree)
    requires t.Node?
    ensures m.Node? && m.left.Leaf? && m.value in Elems(t)
    ensures m.value == Keys(t)[0]
    ensures SearchTree(t) ==> forall y :: y in Elems(t) ==> m.value <= y
  {
    if t.left.Leaf? then t else MinNode(t.left)
  }

  /** The borrow taken before descending left: move a red link left when
      the left child and its left child are both not Red. */
  function BorrowLeft(h: Tree): (r: Tree)
    requires h.Node? && h.left.Node?
    ensures r.Node? && r.left.Node?
    ensures Keys(r) == Keys(h) && Elems(r) == Elems(h) && Size(r) == Size(h)
    ensures SearchTree(h) ==> SearchTree(r) && h.value <= r.value
  {
    if !IsRed(h.left) && !IsRed(h.left.left) then MoveRedLeft(h) else h
  }

  /** The rotation taken before looking right: lift a Red left child. */
  function LeanRight(h: Tree): (r: Tree)
    requires h.Node?
    ensures r.Node? && Elems(r) == Elems(h) && Size(r) == Size(h)
    ensures SearchTree(h) ==> SearchTree(r) && r.value <= h.value
  {
    if IsRed(h.left) then
      assert SearchTree(h) ==> h.left.value in Elems(h.left);
      RotateRight(h)
    else
      h
  }

  /** The borrow taken before descending right: move a red link right when
      the right child and its left child are both not Red. */
  function BorrowRight(h: Tree): (r: Tree)
    requires h.Node? && h.right.Node?
    ensures r.Node? && r.right.Node?
    ensures Elems(r) == Elems(h) && Size(r) == Size(h)
    ensures SearchTree(h) ==> SearchTree(r) && r.value <= h.value
  {
    if !IsRed(h.right) && !IsRed(h.right.left) then MoveRedRight(h) else h
  }

  /** Remove the leftmost node, borrowing on the way down. */
  function DeleteMin(h: Tree): (r: Tree)
    requires h.Node?
    ensures Size(r) < Size(h) && Elems(r) <= Elems(h)
    decreases Size(h)
  {
    if h.left.Leaf? then Leaf
    else
      var h1 := BorrowLeft(h);
      FixUp(h1.(left := DeleteMin(h1.left)))
  }

  /** On a search tree, removing the minimum keeps the ordering and leaves
      no copy of the minimum, whatever the colours. */
  lemma {:induction false} DeleteMinOrdered(h: Tree)
    requires h.Node? && SearchTree(h)
    ensures SearchTree(DeleteMin(h)) && MinNode(h).value !in Elems(DeleteMin(h))
    decreases Size(h)
  {
    if h.left.Node? {
      var h1 := BorrowLeft(h);
      DeleteMinOrdered(h1.left);
      assert MinNode(h1).value == MinNode(h).value == MinNode(h1.left).value;
      LeftmostOfLeft(h1);
      assert SearchTree(h1.(left := DeleteMin(h1.left)));
    }
  }

  /** Remove `x` below the present node `h`, if it is there. */
  function DeleteRec(h: Tree, x: int): (r: Tree)
    requires h.Node?
    ensures Elems(r) <= Elems(h)
    decreases Size(h), 2
  {
    if x < h.value then
      if h.left.Leaf? then h else DeleteLeft(h, x)
    else
      DeleteRight(h, x)
  }

  /** The left branch of `_delete_rec`: borrow, descend, fix up. */
  function DeleteLeft(h: Tree, x: int): (r: Tree)
    requires h.Node? && h.left.Node?
    ensures Elems(r) <= Elems(h)
    decreases Size(h), 1
  {
    var h1 := BorrowLeft(h);
    FixUp(h1.(left := DeleteRec(h1.left, x)))
  }

  /** The other branch of `_delete_rec`: lean right, then remove a node
      without a right child when it holds `x`, return it when it does not,
      and otherwise borrow and go on below. */
  function DeleteRight(h: Tree, x: int): (r: Tree)
    requires h.Node?
    ensures Elems(r) <= Elems(h)
    decreases Size(h), 1
  {
    var h1 := LeanRight(h);
    if x == h1.value && h1.right.Leaf? then Leaf
    else if h1.right.Leaf? then h1
    else DeleteBelow(BorrowRight(h1), x)
  }

  /** After the right borrow: splice in the successor when the node holds
      `x`, otherwise descend right; fix up either way. */
  function DeleteBelow(h2: Tree, x: int): (r: Tree)
    requires h2.Node? && h2.right.Node?
    ensures Elems(r) <= Elems(h2)
    decreases Size(h2), 0
  {
    if x == h2.value then
      FixUp(h2.(value := MinNode(h2.right).value, right := DeleteMin(h2.right)))
    else
      FixUp(h2.(right := DeleteRec(h2.right, x)))
  }

  /** Deletion from a search tree keeps it a search tree and leaves no copy
      of `x`, whatever the colours. */
  lemma {:induction false} DeleteRecOrdered(h: Tree, x: int)
    requires h.Node? && SearchTree(h)
    ensures SearchTree(DeleteRec(h, x)) && x !in Elems(DeleteRec(h, x))
    decreases Size(h), 2
  {
    if x < h.value {
      if h.left.Node? {
        DeleteLeftOrdered(h, x);
      }
    } else {
      DeleteRightOrdered(h, x);
    }
  }

  lemma {:induction false} DeleteLeftOrdered(h: Tree, x: int)
    requires h.Node? && h.left.Node? && SearchTree(h) && x < h.value
    ensures SearchTree(DeleteLeft(h, x)) && x !in Elems(DeleteLeft(h, x))
    decreases Size(h), 1
  {
    var h1 := BorrowLeft(h);
    DeleteRecOrdered(h1.left, x);
    var h' := h1.(left := DeleteRec(h1.left, x));
    assert SearchTree(h');
    assert x !in {h1.value} + Elems(h1.right);
  }

  lemma {:induction false} DeleteRightOrdered(h: Tree, x: int)
    requires h.Node? && SearchTree(h) && h.value <= x
    ensures SearchTree(DeleteRight(h, x)) && x !in Elems(DeleteRight(h, x))
    decreases Size(h), 1
  {
    var h1 := LeanRight(h);
    if h1.right.Node? {
      DeleteBelowOrdered(BorrowRight(h1), x);
    }
  }

  lemma {:induction false} DeleteBelowOrdered(h2: Tree, x: int)
    requires h2.Node? && h2.right.Node? && SearchTree(h2) && h2.value <= x
    ensures SearchTree(DeleteBelow(h2, x)) && x !in Elems(DeleteBelow(h2, x))
    decreases Size(h2), 0
  {
    if x == h2.value {
      var h' := h2.(value := MinNode(h2.right).value, right := DeleteMin(h2.right));
      SpliceOrdered(h2);
      assert SearchTree(h') && x !in Elems(h');
    } else {
      DeleteRecOrdered(h2.right, x);
      var h' := h2.(right := DeleteRec(h2.right, x));
      assert SearchTree(h') && x !in Elems(h2.left);
    }
  }

  /** Successor splicing keeps a search tree ordered and drops the node's
      own value. */
  lemma SpliceOrdered(h: Tree)
    requires h.Node? && h.right.Node? && SearchTree(h)
    ensures var h' := h.(value := MinNode(h.right).value, right := DeleteMin(h.right));
      SearchTree(h') && h.value !in Elems(h')
  {
    var m := MinNode(h.right).value;
    var r := DeleteMin(h.right);
    DeleteMinOrdered(h.right);
    assert m in Elems(h.right) && h.value < m;
    forall y | y in Elems(r)
      ensures m < y
    {
      assert y in Elems(h.right) && y != m;
    }
    forall y | y in Elems(h.left)
      ensures y < m
    {
      assert y < h.value;
    }
  }

  /** A node a deletion may safely descend into: settled, and either Red or
      holding a Red left child, so removing one node cannot shorten it. */
  predicate Borrowed(h: Tree) {
    h.Node? && Settled(h) && (IsRed(h) || IsRed(h.left))
  }

  /** What every recursive `_delete_rec` call receives: a borrowed node, or
      a right-leaning one when `x` lies at or above its value. */
  predicate DeleteEntry(h: Tree, x: int) {
    Borrowed(h) || (RightLeaning(h) && h.value <= x)
  }

  /** What `DeleteBelow` receives after the right borrow: a settled left
      side, a right child it may splice from or descend into, and no Red
      pair at the top. */
  predicate BelowEntry(h2: Tree, x: int) {
    && h2.Node? && h2.right.Node? && h2.value <= x
    && Settled(h2.left) && Bh(h2.left) == Bh(h2.right)
    && (IsRed(h2) ==> !IsRed(h2.left) && !IsRed(h2.right))
    && (Borrowed(h2.right) || (RightLeaning(h2.right) && h2.right.value <= x && h2.value < x))
  }

  /** A borrowed node without a left child is a lone Red node. */
  lemma BorrowedLeftLeaf(h: Tree)
    requires Borrowed(h) && h.left.Leaf?
    ensures h.right.Leaf? && h.colour == Red
  {
  }

  /** The borrow before descending left leaves a borrowed left child and a
      node ready for fix-up once that child is replaced. */
  lemma LeftStep(h: Tree)
    requires Borrowed(h) && h.left.Node?
    ensures var h1 := BorrowLeft(h);
      && Borrowed(h1.left)
      && Settled(h1.right) && Bh(h1.left) == Bh(h1.right) && Bh(h1) == Bh(h)
      && (IsRed(h1) ==> !IsRed(h1.left) && !IsRed(h1.right))
      && (h.colour == Black ==> h1.colour == Black && !IsRed(h1.right))
  {
    if !IsRed(h.left) && !IsRed(h.left.left) {
      MoveRedLeftShape(h);
    }
  }

  /** In a search tree with a left child, the leftmost value is the left
      child's leftmost value and lies below the root and the right side. */
  lemma LeftmostOfLeft(h: Tree)
    requires h.Node? && h.left.Node? && SearchTree(h)
    ensures MinNode(h).value == MinNode(h.left).value
    ensures MinNode(h).value !in {h.value} + Elems(h.right)
  {
    assert MinNode(h.left).value in Elems(h.left);
  }

  /** The rotation before looking right leaves a Red settled node or a
      right-leaning one, at or below `x`. */
  lemma RotateStep(h: Tree, x: int)
    requires DeleteEntry(h, x) && SearchTree(h) && h.value <= x
    ensures var h1 := LeanRight(h);
      && ((IsRed(h1) && Settled(h1)) || RightLeaning(h1))
      && h1.colour == h.colour && Bh(h1) == Bh(h) && h1.value <= x
  {
    if IsRed(h.left) {
      RotateRightShape(h);
    }
  }

  /** The borrow before descending right leaves what `DeleteBelow` needs;
      under a Black node the node stays Black over a left child that is
      not Red. */
  lemma RightStep(h1: Tree, x: int)
    requires (IsRed(h1) && Settled(h1)) || RightLeaning(h1)
    requires h1.right.Node? && SearchTree(h1) && h1.value <= x
    ensures var h2 := BorrowRight(h1);
      && BelowEntry(h2, x) && Bh(h2) == Bh(h1)
      && (h1.colour == Black ==> h2.colour == Black && !IsRed(h2.left))
  {
    if !IsRed(h1.right) && !IsRed(h1.right.left) {
      MoveRedRightShape(h1);
      if IsRed(MoveRedRight(h1)) {
        assert h1.left.value in Elems(h1.left);
      }
    }
  }

  /** Removing the minimum of a borrowed subtree returns a settled tree of
      the same black height, not Red when the subtree's root was Black. */
  lemma {:induction false} DeleteMinBalanced(h: Tree)
    requires Borrowed(h)
    ensures var r := DeleteMin(h);
      Settled(r) && Bh(r) == Bh(h) && (h.colour == Black ==> !IsRed(r))
    decreases Size(h)
  {
    if h.left.Node? {
      var h1 := BorrowLeft(h);
      LeftStep(h);
      DeleteMinBalanced(h1.left);
      FixUpSettles(h1.(left := DeleteMin(h1.left)));
    }
  }

  /** On a borrowed search tree, removing the minimum removes exactly the
      value of the leftmost node. */
  lemma {:induction false} DeleteMinElems(h: Tree)
    requires Borrowed(h) && SearchTree(h)
    ensures Elems(DeleteMin(h)) == Elems(h) - {MinNode(h).value}
    decreases Size(h)
  {
    if h.left.Leaf? {
      BorrowedLeftLeaf(h);
      return;
    }
    var h1 := BorrowLeft(h);
    LeftStep(h);
    DeleteMinElems(h1.left);
    LeftmostOfLeft(h1);
    assert MinNode(h1.left).value == MinNode(h).value;
  }

  /** Deleting from a subtree a recursive call can receive returns a settled
      tree of the same black height, not Red when the subtree's root was
      Black. */
  lemma {:induction false} DeleteRecBalanced(h: Tree, x: int)
    requires DeleteEntry(h, x) && SearchTree(h)
    ensures var r := DeleteRec(h, x);
      Settled(r) && Bh(r) == Bh(h) && (h.colour == Black ==> !IsRed(r))
    decreases Size(h), 2
  {
    if x < h.value {
      if h.left.Node? {
        DeleteLeftBalanced(h, x);
      }
    } else {
      DeleteRightBalanced(h, x);
    }
  }

  lemma {:induction false} DeleteLeftBalanced(h: Tree, x: int)
    requires DeleteEntry(h, x) && SearchTree(h) && x < h.value && h.left.Node?
    ensures var r := DeleteLeft(h, x);
      Settled(r) && Bh(r) == Bh(h) && (h.colour == Black ==> !IsRed(r))
    decreases Size(h), 1
  {
    var h1 := BorrowLeft(h);
    LeftStep(h);
    DeleteRecBalanced(h1.left, x);
    FixUpSettles(h1.(left := DeleteRec(h1.left, x)));
  }

  lemma {:induction false} DeleteRightBalanced(h: Tree, x: int)
    requires DeleteEntry(h, x) && SearchTree(h) && h.value <= x
    ensures var r := DeleteRight(h, x);
      Settled(r) && Bh(r) == Bh(h) && (h.colour == Black ==> !IsRed(r))
    decreases Size(h), 1
  {
    var h1 := LeanRight(h);
    RotateStep(h, x);
    if h1.right.Node? {
      RightStep(h1, x);
      DeleteBelowBalanced(BorrowRight(h1), x);
    }
  }

  lemma {:induction false} DeleteBelowBalanced(h2: Tree, x: int)
    requires BelowEntry(h2, x) && SearchTree(h2)
    ensures var r := DeleteBelow(h2, x);
      && Settled(r) && Bh(r) == Bh(h2)
      && (h2.colour == Black && !IsRed(h2.left) ==> !IsRed(r))
    decreases Size(h2), 0
  {
    if x == h2.value {
      DeleteMinBalanced(h2.right);
      FixUpSettles(h2.(value := MinNode(h2.right).value, right := DeleteMin(h2.right)));
    } else {
      DeleteRecBalanced(h2.right, x);
      FixUpSettles(h2.(right := DeleteRec(h2.right, x)));
    }
  }

  /** Deleting from a subtree a recursive call can receive removes exactly
      `x` from its elements, and nothing when `x` is absent. */
  lemma {:induction false} DeleteRecElems(h: Tree, x: int)
    requires DeleteEntry(h, x) && SearchTree(h)
    ensures Elems(DeleteRec(h, x)) == Elems(h) - {x}
    decreases Size(h), 2
  {
    if x < h.value {
      if h.left.Node? {
        DeleteLeftElems(h, x);
      } else {
        assert x !in Elems(h.right);
      }
    } else {
      DeleteRightElems(h, x);
    }
  }

  lemma {:induction false} DeleteLeftElems(h: Tree, x: int)
    requires DeleteEntry(h, x) && SearchTree(h) && x < h.value && h.left.Node?
    ensures Elems(DeleteLeft(h, x)) == Elems(h) - {x}
    decreases Size(h), 1
  {
    var h1 := BorrowLeft(h);
    LeftStep(h);
    DeleteRecElems(h1.left, x);
    assert x !in {h1.value} + Elems(h1.right);
  }

  lemma {:induction false} DeleteRightElems(h: Tree, x: int)
    requires DeleteEntry(h, x) && SearchTree(h) && h.value <= x
    ensures Elems(DeleteRight(h, x)) == Elems(h) - {x}
    decreases Size(h), 1
  {
    var h1 := LeanRight(h);
    RotateStep(h, x);
    if h1.right.Leaf? {
      assert h1.left.Leaf?;
    } else {
      RightStep(h1, x);
      DeleteBelowElems(BorrowRight(h1), x);
    }
  }

  lemma {:induction false} DeleteBelowElems(h2: Tree, x: int)
    requires BelowEntry(h2, x) && SearchTree(h2)
    ensures Elems(DeleteBelow(h2, x)) == Elems(h2) - {x}
    decreases Size(h2), 0
  {
    if x == h2.value {
      SpliceElems(h2);
    } else {
      DeleteRecElems(h2.right, x);
      assert x !in Elems(h2.left);
    }
  }

  /** Successor splicing: overwriting a node's value with its right
      subtree's minimum and deleting that minimum removes just the node's
      old value. */
  lemma SpliceElems(h: Tree)
    requires h.Node? && h.right.Node? && SearchTree(h) && Borrowed(h.right)
    ensures Elems(FixUp(h.(value := MinNode(h.right).value, right := DeleteMin(h.right))))
         == Elems(h) - {h.value}
  {
    DeleteMinElems(h.right);
    assert h.value !in Elems(h.left) + Elems(h.right);
  }

  /** `_delete_rec` never tests the colour of the node it is called on, so
      recolouring that node changes at most the colour of the result's root.
      This is what lets the public delete start from a Black root. */
  lemma DeleteRecRootColour(h: Tree, c: Colour, x: int)
    requires h.Node?
    ensures Blacken(DeleteRec(h.(colour := c), x)) == Blacken(DeleteRec(h, x))
  {
    if x < h.value {
      if h.left.Node? {
        DeleteLeftRootColour(h, c, x);
      }
    } else {
      DeleteRightRootColour(h, c, x);
    }
  }

  lemma DeleteLeftRootColour(h: Tree, c: Colour, x: int)
    requires h.Node? && h.left.Node?
    ensures Blacken(DeleteLeft(h.(colour := c), x)) == Blacken(DeleteLeft(h, x))
  {
    var g1 := BorrowLeft(h.(colour := c));
    var h1 := BorrowLeft(h);
    MoveRedLeftRootColour(h, c);
    assert g1 == h1.(colour := g1.colour);
    FixUpRootColour(h1.(left := DeleteRec(h1.left, x)), g1.colour);
  }

  lemma DeleteRightRootColour(h: Tree, c: Colour, x: int)
    requires h.Node?
    ensures Blacken(DeleteRight(h.(colour := c), x)) == Blacken(DeleteRight(h, x))
  {
    var g1 := LeanRight(h.(colour := c));
    var h1 := LeanRight(h);
    assert g1 == h1.(colour := g1.colour);
    if h1.right.Node? {
      var g2 := BorrowRight(g1);
      var h2 := BorrowRight(h1);
      MoveRedRightRootColour(h1, g1.colour);
      assert g2 == h2.(colour := g2.colour);
      DeleteBelowRootColour(h2, g2.colour, x);
    }
  }

  lemma DeleteBelowRootColour(h2: Tree, c: Colour, x: int)
    requires h2.Node? && h2.right.Node?
    ensures Blacken(DeleteBelow(h2.(colour := c), x)) == Blacken(DeleteBelow(h2, x))
  {
    if x == h2.value {
      FixUpRootColour(h2.(value := MinNode(h2.right).value, right := DeleteMin(h2.right)), c);
    } else {
      FixUpRootColour(h2.(right := DeleteRec(h2.right, x)), c);
    }
  }

  /** The public `delete`: refuse to remove the only node, delete below the
      root, refuse a tree that became empty, and blacken the new root. */
  function Delete(t: Tree, x: int): (r: Result<Tree>)
    requires t.Node?
    ensures (r.Err? && r.error == LastNode) <==> t.left.Leaf? && t.right.Leaf? && t.value == x
    ensures r.Err? ==> r.error in {LastNode, EmptiedTree}
    ensures r.Ok? ==> r.value.Node? && r.value.colour == Black && Elems(r.value) <= Elems(t)
    ensures SearchTree(t) && r.Ok? ==> SearchTree(r.value) && x !in Elems(r.value)
  {
    if t.left.Leaf? && t.right.Leaf? && t.value == x then
      Err(LastNode)
    else
      var root := DeleteRec(t, x);
      if root.Leaf? then
        Err(EmptiedTree)
      else
        assert SearchTree(t) ==> SearchTree(root) && x !in Elems(root) by {
          if SearchTree(t) {
            DeleteRecOrdered(t, x);
          }
        }
        Ok(Blacken(root))
  }

  /** Deleting an absent value removes nothing, yet still reshapes the tree:
      the borrowing on the way down is done whether or not `x` is found. */
  lemma DeleteAbsentReshapes()
    ensures var t := Node(Black, Node(Black, Node(Red, Leaf, 0, Leaf), 1, Leaf), 2, Node(Black, Leaf, 3, Leaf));
      && IsLlrb(t) && 5 !in Elems(t)
      && Delete(t, 5) == Ok(Node(Black, Node(Black, Leaf, 0, Leaf), 1, Node(Black, Node(Red, Leaf, 2, Leaf), 3, Leaf)))
      && Delete(t, 5).value != t
  {
    var t := Node(Black, Node(Black, Node(Red, Leaf, 0, Leaf), 1, Leaf), 2, Node(Black, Leaf, 3, Leaf));
    IsLlrbIff(t);
    assert Settled(t.left) && Settled(t.right);
    assert Elems(t.left) == {0, 1} && Elems(t.right) == {3};
    assert LeanRight(t) == t;
    var h2 := BorrowRight(t);
    assert h2 == Node(Black, Node(Black, Leaf, 0, Leaf), 1, Node(Black, Leaf, 2, Node(Red, Leaf, 3, Leaf)));
    var d := DeleteRec(h2.right, 5);
    assert DeleteRec(h2.right.right, 5) == h2.right.right;
    assert d == Node(Black, Node(Red, Leaf, 2, Leaf), 3, Leaf);
  }

  /** In a search tree, the values are exactly `{x}` only for a single node
      holding `x`. */
  lemma SingletonTree(t: Tree, x: int)
    requires t.Node? && SearchTree(t)
    ensures Elems(t) == {x} <==> t.left.Leaf? && t.right.Leaf? && t.value == x
  {
    if t.left.Node? {
      assert t.left.value in Elems(t) && t.left.value < t.value;
    }
    if t.right.Node? {
      assert t.right.value in Elems(t) && t.value < t.right.value;
    }
  }

  /** Deleting from a valid left-leaning red-black tree yields one that has
      lost exactly `x`; the only refusal is for the single node holding `x`,
      so the tree is never emptied half-way through. */
  lemma DeleteKeepsLlrb(t: Tree, x: int)
    requires IsLlrb(t)
    ensures Delete(t, x).Err? <==> Elems(t) == {x}
    ensures Delete(t, x).Err? ==> Delete(t, x).error == LastNode
    ensures Delete(t, x).Ok? ==> IsLlrb(Delete(t, x).value) && Elems(Delete(t, x).value) == Elems(t) - {x}
  {
    IsLlrbIff(t);
    SingletonTree(t, x);
    if Elems(t) == {x} {
      return;
    }
    var t' := if IsRed(t.left) then t else t.(colour := Red);
    assert Settled(t') && Elems(t') == Elems(t) && SearchTree(t');
    assert Borrowed(t');
    DeleteRecBalanced(t', x);
    DeleteRecElems(t', x);
    DeleteRecRootColour(t, t'.colour, x);
    var r := DeleteRec(t, x);
    assert Blacken(r) == Blacken(DeleteRec(t', x));
    assert Elems(t) - {x} != {} by {
      if t.value == x {
        if t.left.Leaf? {
          BorrowedLeftLeaf(t');
        }
        assert t.left.value in Elems(t) - {x};
      } else {
        assert t.value in Elems(t) - {x};
      }
    }
    assert r.Node?;
    IsLlrbIff(Blacken(r));
  }

  /** Deletion preserves `is_rbt` itself on the trees the engine builds. */
  lemma DeleteKeepsRbt(t: Tree, x: int)
    requires IsLlrb(t) && Elems(t) != {x}
    ensures Delete(t, x).Ok? && IsRbt(Delete(t, x).value)
  {
    DeleteKeepsLlrb(t, x);
  }
}
