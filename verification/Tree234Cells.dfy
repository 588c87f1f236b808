/** The cells of ist234.c: which 2-3-4 tree hangs from a pointer, and what a change of a cell leaves alone. */
module Tree234Cells {

  import opened Wrappers
  import opened CellStore
  import opened Tree234
  import opened Tree234Delete

  /** `CELL_ist234` with two, three or four pointers, by the slots' order.  Pointer 0 is the null pointer. */
  datatype Cell<D> =
    | Cell2(p1: nat, k1: int, d1: D, p2: nat)
    | Cell3(p1: nat, k1: int, d1: D, p2: nat, k2: int, d2: D, p3: nat)
    | Cell4(p1: nat, k1: int, d1: D, p2: nat, k2: int, d2: D, p3: nat, k3: int, d3: D, p4: nat)

  type Cells<D> = map<nat, Cell<D>>

  function CellType<D>(c: Cell<D>): nat {
    match c
    case Cell2(_, _, _, _) => 2
    case Cell3(_, _, _, _, _, _, _) => 3
    case Cell4(_, _, _, _, _, _, _, _, _, _) => 4
  }

  predicate HasKid<D>(c: Cell<D>, ix: nat) {
    ix in {1, 4, 7, 10} && ix <= 3 * CellType(c) - 2
  }

  predicate HasEntry<D>(c: Cell<D>, i: nat) {
    i in {2, 5, 8} && i <= 3 * CellType(c) - 4
  }

  function Ptr<D>(c: Cell<D>, ix: nat): nat
    requires HasKid(c, ix)
  {
    if ix == 1 then c.p1 else if ix == 4 then c.p2 else if ix == 7 then c.p3 else c.p4
  }

  function SetPtr<D>(c: Cell<D>, ix: nat, a: nat): (r: Cell<D>)
    requires HasKid(c, ix)
    ensures CellType(r) == CellType(c) && Ptr(r, ix) == a
  {
    match c
    case Cell2(p1, k1, d1, p2) =>
      if ix == 1 then Cell2(a, k1, d1, p2) else Cell2(p1, k1, d1, a)
    case Cell3(p1, k1, d1, p2, k2, d2, p3) =>
      if ix == 1 then Cell3(a, k1, d1, p2, k2, d2, p3)
      else if ix == 4 then Cell3(p1, k1, d1, a, k2, d2, p3)
      else Cell3(p1, k1, d1, p2, k2, d2, a)
    case Cell4(p1, k1, d1, p2, k2, d2, p3, k3, d3, p4) =>
      if ix == 1 then Cell4(a, k1, d1, p2, k2, d2, p3, k3, d3, p4)
      else if ix == 4 then Cell4(p1, k1, d1, a, k2, d2, p3, k3, d3, p4)
      else if ix == 7 then Cell4(p1, k1, d1, p2, k2, d2, a, k3, d3, p4)
      else Cell4(p1, k1, d1, p2, k2, d2, p3, k3, d3, a)
  }

  function CellKey<D>(c: Cell<D>, i: nat): int
    requires HasEntry(c, i)
  {
    if i == 2 then c.k1 else if i == 5 then c.k2 else c.k3
  }

  function CellDatum<D>(c: Cell<D>, i: nat): D
    requires HasEntry(c, i)
  {
    if i == 2 then c.d1 else if i == 5 then c.d2 else c.d3
  }

  function SetCellEntry<D>(c: Cell<D>, i: nat, k: int, d: D): (r: Cell<D>)
    requires HasEntry(c, i)
    ensures CellType(r) == CellType(c)
  {
    match c
    case Cell2(p1, _, _, p2) => Cell2(p1, k, d, p2)
    case Cell3(p1, k1, d1, p2, k2, d2, p3) =>
      if i == 2 then Cell3(p1, k, d, p2, k2, d2, p3) else Cell3(p1, k1, d1, p2, k, d, p3)
    case Cell4(p1, k1, d1, p2, k2, d2, p3, k3, d3, p4) =>
      if i == 2 then Cell4(p1, k, d, p2, k2, d2, p3, k3, d3, p4)
      else if i == 5 then Cell4(p1, k1, d1, p2, k, d, p3, k3, d3, p4)
      else Cell4(p1, k1, d1, p2, k2, d2, p3, k, d, p4)
  }

  /** The cell without entry `i`; the two pointers around the entry become the one pointer `a`. */
  function CellWithoutEntry<D>(c: Cell<D>, i: nat, a: nat): (r: Cell<D>)
    requires HasEntry(c, i) && CellType(c) > 2
    ensures CellType(r) == CellType(c) - 1
  {
    match c
    case Cell3(p1, k1, d1, p2, k2, d2, p3) =>
      if i == 2 then Cell2(a, k2, d2, p3) else Cell2(p1, k1, d1, a)
    case Cell4(p1, k1, d1, p2, k2, d2, p3, k3, d3, p4) =>
      if i == 2 then Cell3(a, k2, d2, p3, k3, d3, p4)
      else if i == 5 then Cell3(p1, k1, d1, a, k3, d3, p4)
      else Cell3(p1, k1, d1, p2, k2, d2, a)
  }

  // ---------- the tree that hangs from a pointer ----------

  ghost predicate IsTree<D>(m: Cells<D>, p: nat, t: Node<D>)
    decreases t, 1
  {
    if t.Null? then p == 0 else p != 0 && p in m && Holds(m, m[p], t, 0)
  }

  /** Cell `c` is the root of `t`, except that its pointer in slot `hole` may be any. */
  ghost predicate Holds<D>(m: Cells<D>, c: Cell<D>, t: Node<D>, hole: nat)
    decreases t, 0
  {
    match t
    case Null => false
    case Two(c1, k1, d1, c2) =>
      && c.Cell2? && c.k1 == k1 && c.d1 == d1
      && (hole == 1 || IsTree(m, c.p1, c1)) && (hole == 4 || IsTree(m, c.p2, c2))
    case Three(c1, k1, d1, c2, k2, d2, c3) =>
      && c.Cell3? && c.k1 == k1 && c.d1 == d1 && c.k2 == k2 && c.d2 == d2
      && (hole == 1 || IsTree(m, c.p1, c1)) && (hole == 4 || IsTree(m, c.p2, c2)) && (hole == 7 || IsTree(m, c.p3, c3))
    case Four(c1, k1, d1, c2, k2, d2, c3, k3, d3, c4) =>
      && c.Cell4? && c.k1 == k1 && c.d1 == d1 && c.k2 == k2 && c.d2 == d2 && c.k3 == k3 && c.d3 == d3
      && (hole == 1 || IsTree(m, c.p1, c1)) && (hole == 4 || IsTree(m, c.p2, c2))
      && (hole == 7 || IsTree(m, c.p3, c3)) && (hole == 10 || IsTree(m, c.p4, c4))
  }

  /** New cells cannot be seen from a pointer to an older tree. */
  lemma {:induction false} TreeKept<D>(m: Cells<D>, g: Cells<D>, p: nat, t: Node<D>)
    requires IsTree(m, p, t) && Extends(m, g)
    ensures IsTree(g, p, t)
    decreases t, 1
  {
    if !t.Null? {
      HoldsKept(m, g, m[p], t, 0);
    }
  }

  lemma {:induction false} HoldsKept<D>(m: Cells<D>, g: Cells<D>, c: Cell<D>, t: Node<D>, hole: nat)
    requires Holds(m, c, t, hole) && Extends(m, g)
    ensures Holds(g, c, t, hole)
    decreases t, 0
  {
    if hole != 1 {
      TreeKept(m, g, c.p1, t.c1);
    }
    if hole != 4 {
      TreeKept(m, g, c.p2, t.c2);
    }
    if !t.Two? && hole != 7 {
      TreeKept(m, g, c.p3, t.c3);
    }
    if t.Four? && hole != 10 {
      TreeKept(m, g, c.p4, t.c4);
    }
  }

  lemma HoldsShape<D>(m: Cells<D>, c: Cell<D>, t: Node<D>, hole: nat)
    requires Holds(m, c, t, hole)
    ensures !t.Null? && CellType(c) == NodeType(t)
    ensures forall ix :: IsKid(t, ix) <==> HasKid(c, ix)
    ensures forall i :: IsEntry(t, i) <==> HasEntry(c, i)
    ensures forall i | IsEntry(t, i) :: CellKey(c, i) == Key(t, i) && CellDatum(c, i) == Datum(t, i)
  {
  }

  lemma HoldsKid<D>(m: Cells<D>, c: Cell<D>, t: Node<D>, hole: nat, ix: nat)
    requires Holds(m, c, t, hole) && IsKid(t, ix) && ix != hole
    ensures HasKid(c, ix) && IsTree(m, Ptr(c, ix), Kid(t, ix))
  {
  }

  /** A pointer stored in the hole fills it. */
  lemma HoldsFilled<D>(m: Cells<D>, c: Cell<D>, t: Node<D>, ix: nat, a: nat, u: Node<D>)
    requires Holds(m, c, t, ix) && IsKid(t, ix)
    ensures HasKid(c, ix) && Holds(m, SetPtr(c, ix, a), t, ix)
    ensures IsTree(m, a, u) ==> Holds(m, SetPtr(c, ix, a), SetKid(t, ix, u), 0)
  {
    assert HasKid(c, ix);
  }

  lemma HoldsHole<D>(m: Cells<D>, c: Cell<D>, t: Node<D>, hole: nat)
    requires Holds(m, c, t, 0)
    ensures Holds(m, c, t, hole)
  {
  }

  lemma HoldsEntry<D>(m: Cells<D>, c: Cell<D>, t: Node<D>, hole: nat, i: nat, k: int, d: D)
    requires Holds(m, c, t, hole) && IsEntry(t, i)
    ensures HasEntry(c, i) && Holds(m, SetCellEntry(c, i, k, d), SetEntry(t, i, k, d), hole)
    ensures forall ix | HasKid(c, ix) :: Ptr(SetCellEntry(c, i, k, d), ix) == Ptr(c, ix)
  {
  }

  lemma HoldsWithoutEntry<D>(m: Cells<D>, c: Cell<D>, t: Node<D>, i: nat, a: nat, u: Node<D>)
    requires Holds(m, c, t, 0) && IsEntry(t, i) && NodeType(t) > 2
    ensures HasEntry(c, i) && CellType(c) > 2 && HasKid(CellWithoutEntry(c, i, a), i - 1)
    ensures Ptr(CellWithoutEntry(c, i, a), i - 1) == a
    ensures Holds(m, CellWithoutEntry(c, i, a), WithoutEntry(t, i, u), i - 1)
    ensures IsTree(m, a, u) ==> Holds(m, CellWithoutEntry(c, i, a), WithoutEntry(t, i, u), 0)
  {
  }

  // ---------- the store ----------

  /** The comparisons of one node, as the source makes them. */
  method ComparePlaces<D>(c: Cell<D>, key: int, ghost m: Cells<D>, ghost t: Node<D>) returns (r: Place)
    requires Holds(m, c, t, 0)
    ensures r == Compare(t, key)
  {
    if key == c.k1 {
      return AtEntry(2);
    }
    if key < c.k1 {
      return InKid(1);
    }
    if CellType(c) == 2 {
      return InKid(4);
    }
    if key == c.k2 {
      return AtEntry(5);
    }
    if key < c.k2 {
      return InKid(4);
    }
    if CellType(c) == 3 {
      return InKid(7);
    }
    if key == c.k3 {
      return AtEntry(8);
    }
    return if key < c.k3 then InKid(7) else InKid(10);
  }

  /** `ist234_find`. */
  method Find<D>(s: Store<Cell<D>>, root: nat, key: int, ghost t0: Node<D>) returns (r: Option<D>)
    requires IsTree(s.cells, root, t0)
    ensures r == Lookup(t0, key)
  {
    var p := root;
    ghost var t := t0;
    while p != 0
      invariant IsTree(s.cells, p, t) && Lookup(t, key) == Lookup(t0, key)
      decreases t
    {
      HoldsShape(s.cells, s.cells[p], t, 0);
      var place := ComparePlaces(s.cells[p], key, s.cells, t);
      match place
      case AtEntry(i) =>
        return Some(CellDatum(s.cells[p], i));
      case InKid(ix) =>
        HoldsKid(s.cells, s.cells[p], t, 0, ix);
        p, t := Ptr(s.cells[p], ix), Kid(t, ix);
    }
    return None;
  }
}
