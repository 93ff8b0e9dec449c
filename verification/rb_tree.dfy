/** The node record of the left-leaning red-black tree and the abstractions
    every proof about it is stated in: the in-order key sequence, the element
    set, search-tree ordering, black height and the settled LLRB shape. */
module RbTree {

  datatype Colour = Red | Black

  /** A possibly-absent subtree: `Leaf` is the absent child slot, `Node`
      carries a value, a colour and two owned subtrees. */
  datatype Tree = Leaf | Node(colour: Colour, left: Tree, value: int, right: Tree)

  /** True of a present node coloured Red; an absent child is never red. */
  predicate IsRed(t: Tree) {
    t.Node? && t.colour == Red
  }

  function Toggle(c: Colour): Colour {
    if c == Black then Red else Black
  }

  function Size(t: Tree): nat {
    match t
    case Leaf => 0
    case Node(_, l, _, r) => Size(l) + 1 + Size(r)
  }

  /** The values of the tree read left to right. */
  function Keys(t: Tree): seq<int> {
    match t
    case Leaf => []
    case Node(_, l, v, r) => Keys(l) + [v] + Keys(r)
  }

  /** The set of values stored in the tree. */
  function Elems(t: Tree): set<int> {
    match t
    case Leaf => {}
    case Node(_, l, v, r) => Elems(l) + {v} + Elems(r)
  }

  /** Every value of a left subtree is below its node's value and every value
      of a right subtree is above it. */
  predicate SearchTree(t: Tree) {
    match t
    case Leaf => true
    case Node(_, l, v, r) =>
      && SearchTree(l) && SearchTree(r)
      && (forall y :: y in Elems(l) ==> y < v)
      && (forall y :: y in Elems(r) ==> v < y)
  }

  /** Black nodes on the leftmost path, an absent child counting as one. */
  function Bh(t: Tree): (n: nat)
    ensures n >= 1
  {
    match t
    case Leaf => 1
    case Node(c, l, _, _) => Bh(l) + (if c == Black then 1 else 0)
  }

  /** Every path from the root to an absent child meets as many black nodes. */
  predicate Balanced(t: Tree) {
    match t
    case Leaf => true
    case Node(_, l, _, r) => Balanced(l) && Balanced(r) && Bh(l) == Bh(r)
  }

  /** The shape of a settled left-leaning red-black subtree, whatever the
      colour of its root: balanced, no red node with a red child, and no red
      right child anywhere. */
  predicate Settled(t: Tree) {
    match t
    case Leaf => true
    case Node(c, l, _, r) =>
      && Settled(l) && Settled(r)
      && Bh(l) == Bh(r)
      && !IsRed(r)
      && (c == Red ==> !IsRed(l))
  }

  /** The transient shape insertion passes up from below a red node: a red
      node whose left child is also red, settled everywhere else. */
  predicate TopHeavy(t: Tree) {
    && t.Node? && IsRed(t) && IsRed(t.left) && !IsRed(t.right)
    && Settled(t.left) && Settled(t.right) && Bh(t.left) == Bh(t.right)
  }

  /** Recolour the root of a non-empty tree Black. */
  function Blacken(t: Tree): (r: Tree)
    ensures Keys(r) == Keys(t) && Elems(r) == Elems(t) && Size(r) == Size(t)
    ensures t.Node? ==> r.Node? && r.colour == Black
    ensures SearchTree(t) ==> SearchTree(r)
    ensures Settled(t) ==> Settled(r)
  {
    match t
    case Leaf => Leaf
    case Node(_, l, v, rt) => Node(Black, l, v, rt)
  }

  lemma {:induction false} KeysElems(t: Tree)
    ensures forall y :: y in Elems(t) <==> y in Keys(t)
  {
    match t
    case Leaf =>
    case Node(_, l, v, r) =>
      KeysElems(l);
      KeysElems(r);
  }

  lemma {:induction false} SettledBalanced(t: Tree)
    requires Settled(t)
    ensures Balanced(t)
  {
    match t
    case Leaf =>
    case Node(_, l, _, r) =>
      SettledBalanced(l);
      SettledBalanced(r);
  }
}
