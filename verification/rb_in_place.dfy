/** The tree engine's node objects as they really are: mutable cells in a
    heap, linked by references. The recursive insert rewires cells and
    returns the cell now at the top; the public `insert` then copies that
    cell's fields into the original root cell so that outside references to
    the root stay valid. This module follows those steps cell by cell. */
module RbInPlace {
  import opened Outcomes
  import opened RbTree

  /** One node object: its value, colour and optional child references. */
  datatype Cell = Cell(value: int, colour: Colour, left: Option<nat>, right: Option<nat>)

  /** The cells allocated so far, at addresses below `next`. */
  datatype Mem = Mem(cells: map<nat, Cell>, next: nat)

  /** Every address in use is below `next`, and every child reference
      leads to a cell. */
  predicate Closed(m: Mem) {
    && (forall a :: a in m.cells ==> a < m.next)
    && (forall a :: a in m.cells ==> Points(m, m.cells[a].left) && Points(m, m.cells[a].right))
  }

  /** An optional reference that, when present, leads to a cell. */
  predicate Points(m: Mem, p: Option<nat>) {
    p.Some? ==> p.value in m.cells
  }

  /** `_is_red` on an optional reference. */
  predicate RedAt(m: Mem, p: Option<nat>) {
    p.Some? && p.value in m.cells && m.cells[p.value].colour == Red
  }

  /** The cells after a rewiring step: the same addresses, still closed. */
  predicate Grows(m: Mem, m': Mem) {
    Closed(m') && m.cells.Keys <= m'.cells.Keys && m.next <= m'.next
  }

  /** Rewiring never moves a value: every cell is still there and holds the
      value it held before. */
  predicate KeepsValues(m: Mem, m': Mem) {
    forall a :: a in m.cells ==> a in m'.cells && m'.cells[a].value == m.cells[a].value
  }

  /** Allocate a fresh childless cell. */
  function Alloc(m: Mem, v: int, c: Colour): (r: (Mem, nat))
    requires Closed(m)
    ensures Grows(m, r.0) && r.1 in r.0.cells && r.1 !in m.cells
    ensures r.0.cells == m.cells[r.1 := Cell(v, c, None, None)]
  {
    (Mem(m.cells[m.next := Cell(v, c, None, None)], m.next + 1), m.next)
  }

  /** `_rotate_left`: the four assignments in order, returning the old right
      child, which now holds the old root as its left child. */
  function RotateLeftAt(m: Mem, s: nat): (r: (Mem, nat))
    requires Closed(m) && s in m.cells && m.cells[s].right.Some?
    ensures Grows(m, r.0) && r.0.cells.Keys == m.cells.Keys && r.1 in r.0.cells
    ensures r.1 == m.cells[s].right.value && r.0.cells[r.1].left == Some(s)
    ensures KeepsValues(m, r.0)
    ensures r.1 != s ==> r.0.cells[r.1] == m.cells[r.1].(left := Some(s), colour := m.cells[s].colour)
    ensures r.1 != s ==> r.0.cells[s] == m.cells[s].(right := m.cells[r.1].left, colour := Red)
    ensures forall a :: a in m.cells && a != s && a != r.1 ==> r.0.cells[a] == m.cells[a]
  {
    var x := m.cells[s].right.value;
    var c1 := m.cells[s := m.cells[s].(right := m.cells[x].left)];
    var c2 := c1[x := c1[x].(left := Some(s))];
    var c3 := c2[x := c2[x].(colour := c2[s].colour)];
    var c4 := c3[s := c3[s].(colour := Red)];
    (Mem(c4, m.next), x)
  }

  /** `_rotate_right`, the mirror image. */
  function RotateRightAt(m: Mem, s: nat): (r: (Mem, nat))
    requires Closed(m) && s in m.cells && m.cells[s].left.Some?
    ensures Grows(m, r.0) && r.0.cells.Keys == m.cells.Keys && r.1 in r.0.cells
    ensures r.1 == m.cells[s].left.value && r.0.cells[r.1].right == Some(s)
    ensures KeepsValues(m, r.0)
    ensures r.1 != s ==> r.0.cells[r.1] == m.cells[r.1].(right := Some(s), colour := m.cells[s].colour)
    ensures r.1 != s ==> r.0.cells[s] == m.cells[s].(left := m.cells[r.1].right, colour := Red)
    ensures forall a :: a in m.cells && a != s && a != r.1 ==> r.0.cells[a] == m.cells[a]
  {
    var x := m.cells[s].left.value;
    var c1 := m.cells[s := m.cells[s].(left := m.cells[x].right)];
    var c2 := c1[x := c1[x].(right := Some(s))];
    var c3 := c2[x := c2[x].(colour := c2[s].colour)];
    var c4 := c3[s := c3[s].(colour := Red)];
    (Mem(c4, m.next), x)
  }

  /** A right rotation undoes a left rotation of the same cell, restoring
      every cell, exactly when the lifted cell was Red. */
  lemma RotateLeftAtInverse(m: Mem, s: nat)
    requires Closed(m) && s in m.cells && m.cells[s].right.Some? && m.cells[s].right != Some(s)
    ensures var (m1, x) := RotateLeftAt(m, s);
      m1.cells[x].left.Some? && (RotateRightAt(m1, x) == (m, s) <==> m.cells[x].colour == Red)
  {
    var (m1, x) := RotateLeftAt(m, s);
    var (m2, y) := RotateRightAt(m1, x);
    assert y == s;
    if m.cells[x].colour == Red {
      assert m2.cells[x] == m.cells[x];
      assert m2.cells[s] == m.cells[s];
      assert m2.cells == m.cells;
    } else {
      assert m2.cells[x].colour != m.cells[x].colour;
    }
  }

  /** Toggle the colour of one optional cell. */
  function ToggleAt(m: Mem, p: Option<nat>): (r: Mem)
    requires Closed(m) && Points(m, p)
    ensures Grows(m, r) && r.cells.Keys == m.cells.Keys
    ensures forall a :: a in m.cells ==> r.cells[a] == m.cells[a].(colour := r.cells[a].colour)
    ensures p.Some? ==> r.cells[p.value].colour == Toggle(m.cells[p.value].colour)
    ensures forall a :: a in m.cells && Some(a) != p ==> r.cells[a] == m.cells[a]
  {
    if p.None? then m
    else
      var c := m.cells[p.value];
      Mem(m.cells[p.value := c.(colour := Toggle(c.colour))], m.next)
  }

  /** `_flip_colours`: the node, then each present child. */
  function FlipAt(m: Mem, s: nat): (r: Mem)
    requires Closed(m) && s in m.cells
    ensures Grows(m, r) && r.cells.Keys == m.cells.Keys && KeepsValues(m, r)
    ensures forall a :: a in m.cells ==> r.cells[a] == m.cells[a].(colour := r.cells[a].colour)
    ensures var c := m.cells[s];
      && c.left != Some(s) && c.right != Some(s) && (c.left.Some? && c.right.Some? ==> c.left != c.right)
      ==> && r.cells[s].colour == Toggle(c.colour)
          && (c.left.Some? ==> r.cells[c.left.value].colour == Toggle(m.cells[c.left.value].colour))
          && (c.right.Some? ==> r.cells[c.right.value].colour == Toggle(m.cells[c.right.value].colour))
    ensures forall a :: (a in m.cells && a != s && Some(a) != m.cells[s].left && Some(a) != m.cells[s].right
                         ==> r.cells[a] == m.cells[a])
  {
    var m1 := ToggleAt(m, Some(s));
    var m2 := ToggleAt(m1, m1.cells[s].left);
    ToggleAt(m2, m2.cells[s].right)
  }

  /** `_fix_up`: the three tests in order, each on the current top cell. */
  function FixUpAt(m: Mem, s: nat): (r: (Mem, nat))
    requires Closed(m) && s in m.cells
    ensures Grows(m, r.0) && r.0.cells.Keys == m.cells.Keys && r.1 in r.0.cells
    ensures KeepsValues(m, r.0)
  {
    var (m1, s1) :=
      if RedAt(m, m.cells[s].right) && !RedAt(m, m.cells[s].left) then RotateLeftAt(m, s) else (m, s);
    assert KeepsValues(m, m1) && m1.cells.Keys == m.cells.Keys;
    var l1 := m1.cells[s1].left;
    var (m2, s2) :=
      if RedAt(m1, l1) && l1.Some? && RedAt(m1, m1.cells[l1.value].left) then RotateRightAt(m1, s1) else (m1, s1);
    assert KeepsValues(m, m2) && m2.cells.Keys == m.cells.Keys;
    if RedAt(m2, m2.cells[s2].left) && RedAt(m2, m2.cells[s2].right) then (FlipAt(m2, s2), s2) else (m2, s2)
  }

  /** How a step on the heap ends: with the new top cell, with the
      duplicate-key error, or without an answer in the steps allowed (the
      recursion of the source would go on). */
  datatype Step = Done(mem: Mem, top: nat) | Duplicate | Unfinished

  /** Store `p` in the left or right slot of cell `s`, then fix up `s`:
      what `_insert_rec` does after creating or rewriting a child. */
  function AttachAt(m: Mem, s: nat, toLeft: bool, p: nat): (r: (Mem, nat))
    requires Closed(m) && s in m.cells && p in m.cells
    ensures Grows(m, r.0) && r.0.cells.Keys == m.cells.Keys && r.1 in r.0.cells
    ensures KeepsValues(m, r.0)
  {
    var c := m.cells[s];
    var m1 := Mem(m.cells[s := if toLeft then c.(left := Some(p)) else c.(right := Some(p))], m.next);
    FixUpAt(m1, s)
  }

  /** `_insert_rec` on cell `s`, given at most `fuel` levels of recursion. */
  function InsertRecAt(m: Mem, s: nat, x: int, fuel: nat): (r: Step)
    requires Closed(m) && s in m.cells
    ensures r.Done? ==> Grows(m, r.mem) && r.top in r.mem.cells
    ensures r.Done? ==> && KeepsValues(m, r.mem) && r.mem.cells.Keys == m.cells.Keys + {m.next}
                        && r.mem.cells[m.next].value == x
    ensures r.Duplicate? ==> exists a :: a in m.cells && m.cells[a].value == x
    decreases fuel
  {
    if fuel == 0 then Unfinished
    else
      var c := m.cells[s];
      if x == c.value then Duplicate
      else
        var toLeft := x < c.value;
        var slot := if toLeft then c.left else c.right;
        if slot.None? then
          var (m1, n) := Alloc(m, x, Red);
          var (m2, t) := AttachAt(m1, s, toLeft, n);
          Done(m2, t)
        else
          match InsertRecAt(m, slot.value, x, fuel - 1)
          case Done(m1, p) =>
            var (m2, t) := AttachAt(m1, s, toLeft, p);
            Done(m2, t)
          case other => other
  }

  /** The public `insert`: run `_insert_rec` on the root cell, copy the
      returned cell's fields into the root cell, and colour it Black. */
  function InsertInPlace(m: Mem, root: nat, x: int, fuel: nat): (r: Step)
    requires Closed(m) && root in m.cells
    ensures r.Done? ==> Grows(m, r.mem) && r.top == root
    ensures r.Done? ==> r.mem.cells[root].colour == Black
    ensures r.Done? ==> (InsertRecAt(m, root, x, fuel).Done? &&
      var d := InsertRecAt(m, root, x, fuel);
      var c := d.mem.cells[d.top];
      && r.mem.cells[root] == Cell(c.value, Black, c.left, c.right)
      && r.mem.cells.Keys == d.mem.cells.Keys
      && (forall a :: a in d.mem.cells && a != root ==> r.mem.cells[a] == d.mem.cells[a]))
    ensures r.Done? ==> && r.mem.cells.Keys == m.cells.Keys + {m.next} && r.mem.cells[m.next].value == x
                        && (forall a :: a in m.cells && a != root ==> r.mem.cells[a].value == m.cells[a].value)
    ensures r.Duplicate? ==> exists a :: a in m.cells && m.cells[a].value == x
  {
    match InsertRecAt(m, root, x, fuel)
    case Done(m1, n) =>
      var c := m1.cells[n];
      Done(Mem(m1.cells[root := Cell(c.value, Black, c.left, c.right)], m1.next), root)
    case other => other
  }

  /** `contains`: the loop down from `cur`, given at most `fuel` steps; no
      answer means the loop was still running. */
  function ContainsAt(m: Mem, cur: Option<nat>, x: int, fuel: nat): (r: Option<bool>)
    requires Closed(m) && Points(m, cur)
    ensures r == Some(true) ==> cur.Some? && exists a :: a in m.cells && m.cells[a].value == x
    decreases fuel
  {
    if cur.None? then Some(false)
    else if fuel == 0 then None
    else
      var c := m.cells[cur.value];
      if x < c.value then ContainsAt(m, c.left, x, fuel - 1)
      else if x > c.value then ContainsAt(m, c.right, x, fuel - 1)
      else Some(true)
  }

  /** A cell that is its own left child traps every search for a smaller
      value: the loop never ends, however many steps it is given. */
  lemma {:induction false} SelfLoopTraps(m: Mem, a: nat, x: int, fuel: nat)
    requires Closed(m) && a in m.cells && m.cells[a].left == Some(a) && x < m.cells[a].value
    ensures ContainsAt(m, Some(a), x, fuel).None?
    decreases fuel
  {
    if fuel > 0 {
      SelfLoopTraps(m, a, x, fuel - 1);
    }
  }

  /** The one-node tree holding 1, as `fromList([1])` builds it. */
  function OneNode(): (m: Mem)
    ensures Closed(m) && 0 in m.cells
  {
    Mem(map[0 := Cell(1, Black, None, None)], 1)
  }

  /** Inserting 2 into the one-node tree holding 1: `_insert_rec` rotates
      the root cell under the new cell, and the copy then makes the root
      cell its own left child. The value 1 is gone, and a later search for
      it never returns. */
  lemma InsertTwoAfterOne()
    ensures InsertInPlace(OneNode(), 0, 2, 1).Done?
    ensures InsertInPlace(OneNode(), 0, 2, 1).mem.cells[0] == Cell(2, Black, Some(0), None)
    ensures forall fuel: nat :: ContainsAt(InsertInPlace(OneNode(), 0, 2, 1).mem, Some(0), 1, fuel).None?
  {
    var m0 := OneNode();
    var (m1, n) := Alloc(m0, 2, Red);
    assert n == 1;
    var m2 := Mem(m1.cells[0 := m1.cells[0].(right := Some(n))], m1.next);
    assert m2.cells[0] == Cell(1, Black, None, Some(1));
    assert m2.cells[1] == Cell(2, Red, None, None);
    var (m3, t) := RotateLeftAt(m2, 0);
    assert t == 1 && m3.cells[1] == Cell(2, Black, Some(0), None) && m3.cells[0] == Cell(1, Red, None, None);
    assert FixUpAt(m2, 0) == (m3, t);
    assert AttachAt(m1, 0, false, n) == (m3, t);
    assert InsertRecAt(m0, 0, 2, 1) == Done(m3, t);
    var m4 := InsertInPlace(m0, 0, 2, 1).mem;
    assert m4.cells[0] == Cell(2, Black, Some(0), None);
    forall fuel: nat
      ensures ContainsAt(m4, Some(0), 1, fuel).None?
    {
      SelfLoopTraps(m4, 0, 1, fuel);
    }
  }
}
