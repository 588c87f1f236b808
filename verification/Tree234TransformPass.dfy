/** `copy_and_transform` over the cells of a store.  `frozen` are the cells that the deletion will
    not write to any more; the new node and its enlarged kid are left out of it. */
module Tree234TransformPass {
  import opened CellStore
  import opened Tree234
  import opened Tree234Cells
  import opened Tree234Delete

  /** Node `q` is the transformed node: of the cells allocated, only `q` and the enlarged kid may still be written to. */
  ghost predicate Made<D>(before: Cells<D>, cells: Cells<D>, frozen: Cells<D>, g: Cells<D>, q: nat, r: Transformed<D>) {
    && Extends(before, cells) && Extends(frozen, g) && Extends(g, cells)
    && (forall a | a in g :: a in frozen || a !in before)
    && q in cells && q !in before && q !in g
    && if r.levels == 1 then Holds(g, cells[q], r.node, 0) else
         && IsKid(r.node, r.ix) && HasKid(cells[q], r.ix) && Holds(g, cells[q], r.node, r.ix)
         && var e := Ptr(cells[q], r.ix);
            e in cells && e !in before && e !in g && e != q && Holds(g, cells[e], Kid(r.node, r.ix), 0)
  }

  /** The 4-node of two 2-nodes and the entry between them. */
  function MeltedCell<D>(left: Cell<D>, k: int, d: D, right: Cell<D>): Cell<D>
    requires left.Cell2? && right.Cell2?
  {
    Cell4(left.p1, left.k1, left.d1, left.p2, k, d, right.p1, right.k1, right.d1, right.p2)
  }

  function CellWithoutFirstKid<D>(b: Cell<D>): Cell<D>
    requires CellType(b) > 2
  {
    match b
    case Cell3(_, _, _, p2, k2, d2, p3) => Cell2(p2, k2, d2, p3)
    case Cell4(_, _, _, p2, k2, d2, p3, k3, d3, p4) => Cell3(p2, k2, d2, p3, k3, d3, p4)
  }

  function CellWithoutLastKid<D>(b: Cell<D>): Cell<D>
    requires CellType(b) > 2
  {
    match b
    case Cell3(p1, k1, d1, p2, _, _, _) => Cell2(p1, k1, d1, p2)
    case Cell4(p1, k1, d1, p2, k2, d2, p3, _, _, _) => Cell3(p1, k1, d1, p2, k2, d2, p3)
  }

  lemma MeltedHolds<D>(m: Cells<D>, a: Cell<D>, left: Node<D>, k: int, d: D, b: Cell<D>, right: Node<D>)
    requires Holds(m, a, left, 0) && Holds(m, b, right, 0) && left.Two? && right.Two?
    ensures a.Cell2? && b.Cell2? && Holds(m, MeltedCell(a, k, d, b), Pair(left, right, k, d), 0)
  {
  }

  // ---------- the four cases, in values ----------

  lemma MeltCase<D>(t: Node<D>, ix: nat)
    requires IsKid(t, ix) && Kid(t, ix).Two? && Brother(t, ix).Two?
    ensures var r, i := Transform(t, ix), if ix == 1 then 2 else ix - 2;
            var melted := if ix == 1 then Pair(Kid(t, 1), Kid(t, 4), t.k1, t.d1)
                          else Pair(Brother(t, ix), Kid(t, ix), Key(t, i), Datum(t, i));
            && IsEntry(t, i) && r.iOfKey == (if ix == 1 then 2 else 8)
            && (t.Two? ==> r == Transformed(melted, ix, r.iOfKey, 1))
            && (!t.Two? ==> r == Transformed(WithoutEntry(t, i, melted), i - 1, r.iOfKey, 2)
                            && IsKid(r.node, i - 1) && Kid(r.node, i - 1) == melted)
  {
  }

  lemma TakeFromNextCase<D>(t: Node<D>, ix: nat)
    requires IsKid(t, ix) && Kid(t, ix).Two? && NodeType(Brother(t, ix)) > 2 && ix == 1
    ensures var p, b := Kid(t, 1), Brother(t, 1);
            var left := Three(p.c1, p.k1, p.d1, p.c2, t.k1, t.d1, b.c1);
            var inner := SetEntry(SetKid(t, 1, left), 2, b.k1, b.d1);
            && Transform(t, 1) == Transformed(SetKid(inner, 4, WithoutFirstKid(b)), 1, 2, 2)
            && Kid(Transform(t, 1).node, 1) == left
            && IsKid(t, 4) && Transform(t, 1).node == SetKid(SetEntry(SetKid(t, 4, WithoutFirstKid(b)), 2, b.k1, b.d1), 1, left)
  {
  }

  lemma TakeFromPreviousCase<D>(t: Node<D>, ix: nat)
    requires IsKid(t, ix) && Kid(t, ix).Two? && NodeType(Brother(t, ix)) > 2 && ix > 1
    ensures var p, b := Kid(t, ix), Brother(t, ix);
            var last := LastKid(b);
            var right := Three(Kid(b, last), Key(t, ix - 2), Datum(t, ix - 2), p.c1, p.k1, p.d1, p.c2);
            && Transform(t, ix)
               == Transformed(SetKid(SetEntry(SetKid(t, ix - 3, WithoutLastKid(b)), ix - 2, Key(b, last - 2), Datum(b, last - 2)),
                                     ix, right), ix, 5, 2)
            && Kid(Transform(t, ix).node, ix) == right
  {
  }

  // ---------- the cases on cells ----------

  /** The kid that the way goes to, and its brother, as cells. */
  lemma KidCells<D>(m: Cells<D>, frozen: Cells<D>, c: Cell<D>, t: Node<D>, ix: nat)
    requires Extends(frozen, m) && Holds(frozen, c, t, 0) && IsKid(t, ix) && !Kid(t, ix).Null?
    ensures HasKid(c, ix) && Ptr(c, ix) in m && Ptr(c, ix) in frozen && Holds(frozen, m[Ptr(c, ix)], Kid(t, ix), 0)
  {
    HoldsKid(frozen, c, t, 0, ix);
  }

  /** Both 2-nodes and the entry between them become one 4-node (ist234.c:521-559 and 600-672). */
  method Melt<D(==)>(s: Store<Cell<D>>, node: nat, ix0: nat, ghost t: Node<D>, ghost frozen: Cells<D>)
    returns (q: nat, ix: nat, iOfKey: nat, levels: nat)
    requires s.Valid() && Extends(frozen, s.cells) && node in s.cells && Holds(frozen, s.cells[node], t, 0)
    requires IsKid(t, ix0) && Kid(t, ix0).Two? && Brother(t, ix0).Two?
    modifies s
    ensures s.Valid() && Made(old(s.cells), s.cells, frozen, frozen, q, Transform(t, ix0))
    ensures Grew(old(s.cells), old(s.next), s.cells, s.next)
    ensures ix == Transform(t, ix0).ix && iOfKey == Transform(t, ix0).iOfKey && levels == Transform(t, ix0).levels
  {
    hide Transform, Holds, WithoutEntry, CellWithoutEntry, MeltedCell;
    MeltCase(t, ix0);
    HoldsShape(frozen, s.cells[node], t, 0);
    var c := s.cells[node];
    var left, right, i := if ix0 == 1 then 1 else ix0 - 3, if ix0 == 1 then 4 else ix0, if ix0 == 1 then 2 else ix0 - 2;
    KidCells(s.cells, frozen, c, t, left);
    KidCells(s.cells, frozen, c, t, right);
    MeltedHolds(frozen, s.cells[Ptr(c, left)], Kid(t, left), Key(t, i), Datum(t, i), s.cells[Ptr(c, right)], Kid(t, right));
    ghost var before := s.cells;
    var melted := s.Allocate(MeltedCell(s.cells[Ptr(c, left)], CellKey(c, i), CellDatum(c, i), s.cells[Ptr(c, right)]));
    iOfKey := if ix0 == 1 then 2 else 8;
    if CellType(c) == 2 {
      return melted, ix0, iOfKey, 1;
    }
    HoldsWithoutEntry(frozen, c, t, i, melted, Pair(Kid(t, left), Kid(t, right), Key(t, i), Datum(t, i)));
    q := s.Allocate(CellWithoutEntry(c, i, melted));
    return q, i - 1, iOfKey, 2;
  }

  /** An entry and a kid come over from the next brother (ist234.c:561-597). */
  method TakeFromNext<D(==)>(s: Store<Cell<D>>, node: nat, ghost t: Node<D>, ghost frozen: Cells<D>)
    returns (q: nat, ghost g: Cells<D>)
    requires s.Valid() && Extends(frozen, s.cells) && node in s.cells && Holds(frozen, s.cells[node], t, 0)
    requires !t.Null? && Kid(t, 1).Two? && NodeType(Brother(t, 1)) > 2
    modifies s
    ensures s.Valid() && Made(old(s.cells), s.cells, frozen, g, q, Transform(t, 1))
    ensures Grew(old(s.cells), old(s.next), s.cells, s.next)
  {
    hide Transform, Holds, Made, SetPtr, SetCellEntry, CellWithoutFirstKid;
    var c := s.cells[node];
    HoldsShape(frozen, c, t, 0);
    KidCells(s.cells, frozen, c, t, 1);
    KidCells(s.cells, frozen, c, t, 4);
    var p, b := s.cells[Ptr(c, 1)], s.cells[Ptr(c, 4)];
    HoldsShape(frozen, p, Kid(t, 1), 0);
    HoldsShape(frozen, b, Kid(t, 4), 0);
    var left := s.Allocate(Cell3(p.p1, p.k1, p.d1, p.p2, CellKey(c, 2), CellDatum(c, 2), b.p1));
    var right := s.Allocate(CellWithoutFirstKid(b));
    q := s.Allocate(SetPtr(SetCellEntry(SetPtr(c, 4, right), 2, b.k1, b.d1), 1, left));
    g := TakenFromNext(old(s.cells), s.cells, frozen, c, t, left, right, q);
  }

  lemma TakenFromNext<D>(before: Cells<D>, cells: Cells<D>, frozen: Cells<D>, c: Cell<D>, t: Node<D>,
                         left: nat, right: nat, q: nat)
    returns (g: Cells<D>)
    requires Extends(frozen, before) && Extends(before, cells) && Holds(frozen, c, t, 0)
    requires !t.Null? && Kid(t, 1).Two? && NodeType(Brother(t, 1)) > 2
    requires Fresh(before, cells, left, right, q)
    requires HasKid(c, 1) && HasKid(c, 4) && HasEntry(c, 2) && Ptr(c, 1) in before && Ptr(c, 4) in before
    requires var p, b := before[Ptr(c, 1)], before[Ptr(c, 4)];
             && p.Cell2? && CellType(b) > 2
             && cells[left] == Cell3(p.p1, p.k1, p.d1, p.p2, CellKey(c, 2), CellDatum(c, 2), b.p1)
             && cells[right] == CellWithoutFirstKid(b)
             && cells[q] == SetPtr(SetCellEntry(SetPtr(c, 4, right), 2, b.k1, b.d1), 1, left)
    ensures Made(before, cells, frozen, g, q, Transform(t, 1))
  {
    hide Transform, Holds, SetPtr, SetCellEntry, SetEntry, SetKid, Made, WithoutFirstKid, CellWithoutFirstKid;
    TakeFromNextCase(t, 1);
    HoldsShape(frozen, c, t, 0);
    KidCells(before, frozen, c, t, 1);
    KidCells(before, frozen, c, t, 4);
    var p, b := before[Ptr(c, 1)], before[Ptr(c, 4)];
    TakenFromNextHolds(frozen, p, Kid(t, 1), CellKey(c, 2), CellDatum(c, 2), b, Kid(t, 4));
    g := frozen[right := cells[right]];
    Grown(frozen, g, c, t, cells[left], Kid(Transform(t, 1).node, 1), cells[right], WithoutFirstKid(Kid(t, 4)));
    Retaken(g, c, t, 4, right, WithoutFirstKid(Kid(t, 4)), 2, b.k1, b.d1, 1, left, Kid(Transform(t, 1).node, 1));
    MadeOfThree(before, cells, frozen, g, right, left, q, Transform(t, 1));
  }

  ghost predicate Fresh<D>(before: Cells<D>, cells: Cells<D>, a: nat, b: nat, c: nat) {
    && 0 !in {a, b, c} && a != b && a != c && b != c
    && a in cells && b in cells && c in cells && a !in before && b !in before && c !in before
  }

  /** The copy of a node with a new brother, a new entry and a new kid, which is left open. */
  lemma Retaken<D>(m: Cells<D>, c: Cell<D>, t: Node<D>, j: nat, a: nat, w: Node<D>, i: nat, k: int, d: D,
                   ix: nat, e: nat, u: Node<D>)
    requires Holds(m, c, t, 0) && IsKid(t, j) && IsKid(t, ix) && IsEntry(t, i) && j != ix && IsTree(m, a, w)
    ensures HasKid(c, j) && HasEntry(c, i) && HasKid(c, ix)
    ensures IsKid(SetEntry(SetKid(t, j, w), i, k, d), ix)
    ensures Holds(m, SetPtr(SetCellEntry(SetPtr(c, j, a), i, k, d), ix, e), SetKid(SetEntry(SetKid(t, j, w), i, k, d), ix, u), ix)
  {
    hide Holds, IsTree, SetPtr, SetCellEntry, SetEntry, SetKid;
    HoldsShape(m, c, t, 0);
    HoldsHole(m, c, t, j);
    HoldsFilled(m, c, t, j, a, w);
    var v := SetKid(t, j, w);
    HoldsEntry(m, SetPtr(c, j, a), v, 0, i, k, d);
    var f := SetCellEntry(SetPtr(c, j, a), i, k, d);
    HoldsHole(m, f, SetEntry(v, i, k, d), ix);
    HoldsFilled(m, f, SetEntry(v, i, k, d), ix, e, Null);
    HoleIsAny(m, SetPtr(f, ix, e), SetEntry(v, i, k, d), ix, u);
  }

  /** A new brother, which is done, a new kid and the new node. */
  lemma MadeOfThree<D>(before: Cells<D>, cells: Cells<D>, frozen: Cells<D>, g: Cells<D>,
                       b: nat, e: nat, q: nat, r: Transformed<D>)
    requires Extends(frozen, before) && Extends(before, cells)
    requires b !in before && e !in before && q !in before && b != e && b != q && e != q
    requires b in cells && e in cells && q in cells
    requires g == frozen[b := cells[b]] && r.levels == 2
    requires IsKid(r.node, r.ix) && HasKid(cells[q], r.ix) && Ptr(cells[q], r.ix) == e
    requires Holds(g, cells[q], r.node, r.ix) && Holds(g, cells[e], Kid(r.node, r.ix), 0)
    ensures Made(before, cells, frozen, g, q, r)
  {
    hide Holds;
  }

  /** What stands in the hole does not matter. */
  lemma HoleIsAny<D>(m: Cells<D>, c: Cell<D>, t: Node<D>, ix: nat, u: Node<D>)
    requires Holds(m, c, t, ix) && IsKid(t, ix)
    ensures Holds(m, c, SetKid(t, ix, u), ix)
  {
  }

  lemma TakenFromNextHolds<D>(m: Cells<D>, a: Cell<D>, p: Node<D>, k: int, d: D, b: Cell<D>, brother: Node<D>)
    requires Holds(m, a, p, 0) && Holds(m, b, brother, 0) && p.Two? && NodeType(brother) > 2
    ensures a.Cell2? && CellType(b) > 2 && b.k1 == brother.k1 && b.d1 == brother.d1
    ensures Holds(m, Cell3(a.p1, a.k1, a.d1, a.p2, k, d, b.p1), Three(p.c1, p.k1, p.d1, p.c2, k, d, brother.c1), 0)
    ensures Holds(m, CellWithoutFirstKid(b), WithoutFirstKid(brother), 0)
  {
  }

  lemma TakenFromPreviousHolds<D>(m: Cells<D>, a: Cell<D>, p: Node<D>, k: int, d: D, b: Cell<D>, brother: Node<D>)
    requires Holds(m, a, p, 0) && Holds(m, b, brother, 0) && p.Two? && NodeType(brother) > 2
    ensures a.Cell2? && CellType(b) == NodeType(brother) && HasKid(b, LastKid(brother))
    ensures Holds(m, Cell3(Ptr(b, LastKid(brother)), k, d, a.p1, a.k1, a.d1, a.p2),
                  Three(Kid(brother, LastKid(brother)), k, d, p.c1, p.k1, p.d1, p.c2), 0)
    ensures Holds(m, CellWithoutLastKid(b), WithoutLastKid(brother), 0)
  {
  }

  /** One more frozen cell. */
  lemma Grown<D>(frozen: Cells<D>, g: Cells<D>, c: Cell<D>, t: Node<D>, left: Cell<D>, u: Node<D>, right: Cell<D>, v: Node<D>)
    requires Extends(frozen, g) && Holds(frozen, c, t, 0) && Holds(frozen, left, u, 0) && Holds(frozen, right, v, 0)
    ensures Holds(g, c, t, 0) && Holds(g, left, u, 0) && Holds(g, right, v, 0)
    ensures forall a | a != 0 && a in g && g[a] == right :: IsTree(g, a, v)
  {
    HoldsKept(frozen, g, c, t, 0);
    HoldsKept(frozen, g, left, u, 0);
    HoldsKept(frozen, g, right, v, 0);
  }

  /** An entry and a kid come over from the previous brother (ist234.c:673-740). */
  method TakeFromPrevious<D(==)>(s: Store<Cell<D>>, node: nat, ix: nat, ghost t: Node<D>, ghost frozen: Cells<D>)
    returns (q: nat, ghost g: Cells<D>)
    requires s.Valid() && Extends(frozen, s.cells) && node in s.cells && Holds(frozen, s.cells[node], t, 0)
    requires IsKid(t, ix) && ix > 1 && Kid(t, ix).Two? && NodeType(Brother(t, ix)) > 2
    modifies s
    ensures s.Valid() && Made(old(s.cells), s.cells, frozen, g, q, Transform(t, ix))
    ensures Grew(old(s.cells), old(s.next), s.cells, s.next)
  {
    hide Transform, Holds, Made, IsTree, SetPtr, SetCellEntry, CellWithoutLastKid;
    var c := s.cells[node];
    HoldsShape(frozen, c, t, 0);
    KidCells(s.cells, frozen, c, t, ix - 3);
    KidCells(s.cells, frozen, c, t, ix);
    var b, p := s.cells[Ptr(c, ix - 3)], s.cells[Ptr(c, ix)];
    HoldsShape(frozen, b, Kid(t, ix - 3), 0);
    HoldsShape(frozen, p, Kid(t, ix), 0);
    var last := 3 * CellType(b) - 2;
    var left := s.Allocate(CellWithoutLastKid(b));
    var right := s.Allocate(Cell3(Ptr(b, last), CellKey(c, ix - 2), CellDatum(c, ix - 2), p.p1, p.k1, p.d1, p.p2));
    q := s.Allocate(SetPtr(SetCellEntry(SetPtr(c, ix - 3, left), ix - 2, CellKey(b, last - 2), CellDatum(b, last - 2)),
                           ix, right));
    g := TakenFromPrevious(old(s.cells), s.cells, frozen, c, t, ix, left, right, q);
  }

  lemma TakenFromPrevious<D>(before: Cells<D>, cells: Cells<D>, frozen: Cells<D>, c: Cell<D>, t: Node<D>, ix: nat,
                             left: nat, right: nat, q: nat)
    returns (g: Cells<D>)
    requires Extends(frozen, before) && Extends(before, cells) && Holds(frozen, c, t, 0)
    requires IsKid(t, ix) && ix > 1 && Kid(t, ix).Two? && NodeType(Brother(t, ix)) > 2
    requires Fresh(before, cells, left, right, q)
    requires HasKid(c, ix) && HasKid(c, ix - 3) && HasEntry(c, ix - 2) && Ptr(c, ix) in before && Ptr(c, ix - 3) in before
    requires var b, p := before[Ptr(c, ix - 3)], before[Ptr(c, ix)];
             var last := 3 * CellType(b) - 2;
             && p.Cell2? && CellType(b) > 2
             && cells[left] == CellWithoutLastKid(b)
             && cells[right] == Cell3(Ptr(b, last), CellKey(c, ix - 2), CellDatum(c, ix - 2), p.p1, p.k1, p.d1, p.p2)
             && cells[q] == SetPtr(SetCellEntry(SetPtr(c, ix - 3, left), ix - 2, CellKey(b, last - 2), CellDatum(b, last - 2)),
                                   ix, right)
    ensures Made(before, cells, frozen, g, q, Transform(t, ix))
  {
    hide Transform, Holds, SetPtr, SetCellEntry, SetEntry, SetKid, Made, WithoutLastKid, CellWithoutLastKid;
    TakeFromPreviousCase(t, ix);
    HoldsShape(frozen, c, t, 0);
    KidCells(before, frozen, c, t, ix - 3);
    KidCells(before, frozen, c, t, ix);
    var b, p := before[Ptr(c, ix - 3)], before[Ptr(c, ix)];
    var brother := Brother(t, ix);
    HoldsShape(frozen, b, brother, 0);
    TakenFromPreviousHolds(frozen, p, Kid(t, ix), CellKey(c, ix - 2), CellDatum(c, ix - 2), b, brother);
    g := frozen[left := cells[left]];
    Grown(frozen, g, c, t, cells[right], Kid(Transform(t, ix).node, ix), cells[left], WithoutLastKid(brother));
    var last := 3 * CellType(b) - 2;
    Retaken(g, c, t, ix - 3, left, WithoutLastKid(brother), ix - 2, CellKey(b, last - 2), CellDatum(b, last - 2),
            ix, right, Kid(Transform(t, ix).node, ix));
    MadeOfThree(before, cells, frozen, g, left, right, q, Transform(t, ix));
  }

  /** `copy_and_transform`. */
  method CopyAndTransform<D(==)>(s: Store<Cell<D>>, node: nat, ix0: nat, ghost t: Node<D>, ghost frozen: Cells<D>)
    returns (q: nat, ix: nat, iOfKey: nat, levels: nat, ghost g: Cells<D>)
    requires s.Valid() && Extends(frozen, s.cells) && node in s.cells && Holds(frozen, s.cells[node], t, 0)
    requires IsKid(t, ix0) && Kid(t, ix0).Two? && !Brother(t, ix0).Null?
    modifies s
    ensures s.Valid() && Made(old(s.cells), s.cells, frozen, g, q, Transform(t, ix0))
    ensures Grew(old(s.cells), old(s.next), s.cells, s.next)
    ensures ix == Transform(t, ix0).ix && iOfKey == Transform(t, ix0).iOfKey && levels == Transform(t, ix0).levels
  {
    hide Holds, Made;
    HoldsShape(frozen, s.cells[node], t, 0);
    var brotherIx := if ix0 == 1 then 4 else ix0 - 3;
    KidCells(s.cells, frozen, s.cells[node], t, brotherIx);
    var b := s.cells[Ptr(s.cells[node], brotherIx)];
    HoldsShape(frozen, b, Brother(t, ix0), 0);
    if CellType(b) == 2 {
      q, ix, iOfKey, levels := Melt(s, node, ix0, t, frozen);
      g := frozen;
    } else if ix0 == 1 {
      q, g := TakeFromNext(s, node, t, frozen);
      ix, iOfKey, levels := 1, 2, 2;
    } else {
      q, g := TakeFromPrevious(s, node, ix0, t, frozen);
      ix, iOfKey, levels := ix0, 5, 2;
    }
  }
}
