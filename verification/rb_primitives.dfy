/** The O(1) rebalancing primitives of the LLRB engine: the two rotations, the
    colour flip, the fix-up step applied after every recursive mutation, and
    the two red-link borrowing helpers used on the way down a deletion. Each
    returns the new subtree root, as the source's methods do. */
module RbPrimitives {
  import opened RbTree

  /** Pivot a node's right child above it. The new root inherits the old
      root's colour and the old root, now its left child, becomes Red. */
  function RotateLeft(h: Tree): (r: Tree)
    requires h.Node? && h.right.Node?
    ensures r.Node? && r.left.Node?
    ensures r.colour == h.colour && r.value == h.right.value
    ensures r.left.colour == Red && r.left.value == h.value
    ensures Keys(r) == Keys(h) && Elems(r) == Elems(h) && Size(r) == Size(h)
    ensures SearchTree(h) ==> SearchTree(r)
  {
    var x := h.right;
    RotateLeftOrdered(h);
    Node(h.colour, Node(Red, h.left, h.value, x.left), x.value, x.right)
  }

  lemma RotateLeftOrdered(h: Tree)
    requires h.Node? && h.right.Node?
    ensures SearchTree(h) ==>
      SearchTree(Node(h.colour, Node(Red, h.left, h.value, h.right.left), h.right.value, h.right.right))
  {
    if SearchTree(h) {
      var x := h.right;
      assert SearchTree(x) && x.value in Elems(x);
      var a := Node(Red, h.left, h.value, x.left);
      assert SearchTree(a);
      forall y | y in Elems(a) ensures y < x.value {
        if y in Elems(h.left) {
          assert y < h.value;
        } else if y in Elems(x.left) {
          assert SearchTree(x);
        }
      }
    }
  }

  /** The mirror image of `RotateLeft`. */
  function RotateRight(h: Tree): (r: Tree)
    requires h.Node? && h.left.Node?
    ensures r.Node? && r.right.Node?
    ensures r.colour == h.colour && r.value == h.left.value
    ensures r.right.colour == Red && r.right.value == h.value
    ensures Keys(r) == Keys(h) && Elems(r) == Elems(h) && Size(r) == Size(h)
    ensures SearchTree(h) ==> SearchTree(r)
  {
    var x := h.left;
    RotateRightOrdered(h);
    Node(h.colour, x.left, x.value, Node(Red, x.right, h.value, h.right))
  }

  lemma RotateRightOrdered(h: Tree)
    requires h.Node? && h.left.Node?
    ensures SearchTree(h) ==>
      SearchTree(Node(h.colour, h.left.left, h.left.value, Node(Red, h.left.right, h.value, h.right)))
  {
    if SearchTree(h) {
      var x := h.left;
      assert SearchTree(x) && x.value in Elems(x);
      var b := Node(Red, x.right, h.value, h.right);
      assert SearchTree(b);
      forall y | y in Elems(b) ensures x.value < y {
        if y in Elems(h.right) {
          assert h.value < y;
        } else if y in Elems(x.right) {
          assert SearchTree(x);
        }
      }
    }
  }

  /** A rotation is undone by the opposite rotation exactly when the child
      it lifted was Red, since the lowered root always comes back Red. */
  lemma RotateLeftInverse(h: Tree)
    requires h.Node? && h.right.Node?
    ensures RotateRight(RotateLeft(h)) == h <==> IsRed(h.right)
  {
  }

  lemma RotateRightInverse(h: Tree)
    requires h.Node? && h.left.Node?
    ensures RotateLeft(RotateRight(h)) == h <==> IsRed(h.left)
  {
  }

  function Recolour(t: Tree): (r: Tree)
    ensures r.Node? == t.Node? && Keys(r) == Keys(t) && Elems(r) == Elems(t)
    ensures SearchTree(r) == SearchTree(t)
  {
    match t
    case Leaf => Leaf
    case Node(c, l, v, r) => Node(Toggle(c), l, v, r)
  }

  /** Toggle the colour of a node and of each of its present children. */
  function FlipColours(h: Tree): (r: Tree)
    requires h.Node?
    ensures r.Node? && r.value == h.value
    ensures r.colour != h.colour
    ensures r.left.Node? == h.left.Node? && r.right.Node? == h.right.Node?
    ensures h.left.Node? ==> r.left.colour != h.left.colour
    ensures h.right.Node? ==> r.right.colour != h.right.colour
    ensures r.left.Node? ==> r.left.left == h.left.left && r.left.right == h.left.right && r.left.value == h.left.value
    ensures r.right.Node? ==> r.right.left == h.right.left && r.right.right == h.right.right && r.right.value == h.right.value
    ensures Keys(r) == Keys(h) && Elems(r) == Elems(h) && Size(r) == Size(h)
    ensures SearchTree(h) ==> SearchTree(r)
  {
    Node(Toggle(h.colour), Recolour(h.left), h.value, Recolour(h.right))
  }

  /** Flipping twice restores the node. */
  lemma FlipColoursInvolution(h: Tree)
    requires h.Node?
    ensures FlipColours(FlipColours(h)) == h
  {
  }

  /** The canonical LLRB rebalancing step: lean a lone red right link left,
      split two consecutive left reds, then push a red pair up a level. */
  function FixUp(h: Tree): (r: Tree)
    requires h.Node?
    ensures r.Node?
    ensures Keys(r) == Keys(h) && Elems(r) == Elems(h) && Size(r) == Size(h)
    ensures SearchTree(h) ==> SearchTree(r)
  {
    var h1 := if IsRed(h.right) && !IsRed(h.left) then RotateLeft(h) else h;
    var h2 := if IsRed(h1.left) && IsRed(h1.left.left) then RotateRight(h1) else h1;
    if IsRed(h2.left) && IsRed(h2.right) then FlipColours(h2) else h2
  }

  /** Borrow a red link from the right sibling so that the left child can be
      descended into by a deletion. */
  function MoveRedLeft(h: Tree): (r: Tree)
    requires h.Node?
    ensures r.Node?
    ensures h.left.Node? ==> r.left.Node?
    ensures Keys(r) == Keys(h) && Elems(r) == Elems(h) && Size(r) == Size(h)
    ensures SearchTree(h) ==> SearchTree(r) && h.value <= r.value
  {
    var f := FlipColours(h);
    if f.right.Node? && IsRed(f.right.left) then
      assert SearchTree(h) ==> h.right.left.value in Elems(h.right);
      FlipColours(RotateLeft(f.(right := RotateRight(f.right))))
    else
      f
  }

  /** Borrow a red link from the left sibling so that the right child can be
      descended into by a deletion. */
  function MoveRedRight(h: Tree): (r: Tree)
    requires h.Node?
    ensures r.Node?
    ensures h.right.Node? ==> r.right.Node?
    ensures Keys(r) == Keys(h) && Elems(r) == Elems(h) && Size(r) == Size(h)
    ensures SearchTree(h) ==> SearchTree(r) && r.value <= h.value
  {
    var f := FlipColours(h);
    if f.left.Node? && IsRed(f.left.left) then
      FlipColours(RotateRight(f))
    else
      f
  }

  /** Fix-up settles a node whose children are settled and equally black,
      unless the node is Red with a Red child; the result is Red exactly when
      the node was, or when both children were and got flipped. */
  lemma FixUpSettles(h: Tree)
    requires h.Node? && Settled(h.left) && Settled(h.right) && Bh(h.left) == Bh(h.right)
    requires IsRed(h) ==> !IsRed(h.left) && !IsRed(h.right)
    ensures Settled(FixUp(h)) && Bh(FixUp(h)) == Bh(h)
    ensures IsRed(FixUp(h)) <==> IsRed(h) || (IsRed(h.left) && IsRed(h.right))
  {
  }

  /** Below a Black node, fix-up splits two consecutive left reds. */
  lemma FixUpSplitsTopHeavy(h: Tree)
    requires h.Node? && h.colour == Black && TopHeavy(h.left)
    requires Settled(h.right) && !IsRed(h.right) && Bh(h.left) == Bh(h.right)
    ensures Settled(FixUp(h)) && IsRed(FixUp(h)) && Bh(FixUp(h)) == Bh(h)
  {
  }

  /** At a Red node with one Red child, fix-up leans that red link left and
      leaves at most a top-heavy node for the parent to split. */
  lemma FixUpRedNode(h: Tree)
    requires h.Node? && h.colour == Red && Settled(h.left) && Settled(h.right)
    requires Bh(h.left) == Bh(h.right) && !(IsRed(h.left) && IsRed(h.right))
    ensures IsRed(FixUp(h)) && Bh(FixUp(h)) == Bh(h)
    ensures Settled(FixUp(h)) || TopHeavy(FixUp(h))
  {
  }

  /** A black node with a black left child and a settled red right child:
      the right-leaning three-node that borrowing from the left can leave. */
  predicate RightLeaning(t: Tree) {
    && t.Node? && t.colour == Black && !IsRed(t.left) && IsRed(t.right)
    && Settled(t.left) && Settled(t.right) && Bh(t.left) == Bh(t.right)
  }

  /** Borrowing into the left child of a Red node whose left child and
      left grandchild are not Red makes that child, or its left child, Red;
      a fix-up over the result then settles it again. */
  lemma MoveRedLeftShape(h: Tree)
    requires h.Node? && h.colour == Red && Settled(h)
    requires h.left.Node? && !IsRed(h.left) && !IsRed(h.left.left)
    ensures var m := MoveRedLeft(h);
      && m.Node? && m.left.Node?
      && Settled(m.left) && (IsRed(m.left) || IsRed(m.left.left))
      && Settled(m.right) && Bh(m.left) == Bh(m.right) && Bh(m) == Bh(h)
      && (IsRed(m) ==> !IsRed(m.left) && !IsRed(m.right))
  {
    var a, b := h.left, h.right;
    assert b.Node? && b.colour == Black;
    var a' := Node(Red, a.left, a.value, a.right);
    var b' := Node(Red, b.left, b.value, b.right);
    assert Settled(a');
    assert FlipColours(h) == Node(Black, a', h.value, b');
    if IsRed(b.left) {
      var c := b.left;
      assert Settled(c) && Settled(c.left) && Settled(c.right);
      assert Bh(c.left) == Bh(a.left) && Bh(c.right) == Bh(b.right);
      assert MoveRedLeft(h) == Node(Red, Node(Black, a', h.value, c.left), c.value, Node(Black, c.right, b.value, b.right));
    } else {
      assert Settled(b');
    }
  }

  /** Borrowing into the right child of a Red node whose right child and
      right-left grandchild are not Red. Either the node turns Black over a
      Red right child, or the left child rotates up and the old node becomes
      a right-leaning three-node on the right. */
  lemma MoveRedRightShape(h: Tree)
    requires h.Node? && h.colour == Red && Settled(h)
    requires h.right.Node? && !IsRed(h.right) && !IsRed(h.right.left)
    ensures var m := MoveRedRight(h);
      && m.Node? && m.right.Node?
      && Settled(m.left) && Bh(m.left) == Bh(m.right) && Bh(m) == Bh(h)
      && (IsRed(m) ==> !IsRed(m.left) && !IsRed(m.right))
      && (!IsRed(m) ==> m.value == h.value && IsRed(m.right) && Settled(m.right))
      && (IsRed(m) ==> h.left.Node? && m.value == h.left.value
                       && m.right.value == h.value && RightLeaning(m.right))
  {
    var a, b := h.left, h.right;
    assert a.Node? && a.colour == Black;
    var a' := Node(Red, a.left, a.value, a.right);
    var b' := Node(Red, b.left, b.value, b.right);
    assert Settled(b');
    assert FlipColours(h) == Node(Black, a', h.value, b');
    if IsRed(a.left) {
      var c := a.left;
      assert Settled(c) && Settled(c.left) && Settled(c.right);
      assert Bh(c.left) == Bh(a.right) && Bh(a.right) == Bh(b'.left);
      assert MoveRedRight(h) == Node(Red, Node(Black, c.left, c.value, c.right), a.value, Node(Black, a.right, h.value, b'));
    } else {
      assert Settled(a');
    }
  }

  /** Rotating a Black node with a Red left child right leaves it
      right-leaning. */
  lemma RotateRightShape(h: Tree)
    requires h.Node? && h.colour == Black && Settled(h) && IsRed(h.left)
    ensures RightLeaning(RotateRight(h)) && Bh(RotateRight(h)) == Bh(h)
  {
  }

  /** The restructuring helpers never test the colour of the node they are
      given: recolouring that node changes at most the colour of theirs. */
  lemma FixUpRootColour(h: Tree, c: Colour)
    requires h.Node?
    ensures Blacken(FixUp(h.(colour := c))) == Blacken(FixUp(h))
  {
  }

  lemma MoveRedLeftRootColour(h: Tree, c: Colour)
    requires h.Node?
    ensures Blacken(MoveRedLeft(h.(colour := c))) == Blacken(MoveRedLeft(h))
  {
  }

  lemma MoveRedRightRootColour(h: Tree, c: Colour)
    requires h.Node?
    ensures Blacken(MoveRedRight(h.(colour := c))) == Blacken(MoveRedRight(h))
  {
  }
}
