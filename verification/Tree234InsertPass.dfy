/** The loops of `ist234_insert`, over the cells of a store: every cell of the new tree that is not
    shared with the given one is allocated by the call, and no cell from before is changed. */
module Tree234InsertPass {

  import opened Wrappers
  import opened CellStore
  import opened Tree234
  import opened Tree234Cells
  import opened Tree234Insert

  /** A slot of `path`: a pointer to a node, and the slot through which the search left it. */
  datatype Step = Step(node: nat, i: nat)

  ghost predicate PathIs<D>(m: Cells<D>, path: seq<Step>, frames: seq<Frame<D>>) {
    && |path| == |frames| && GoodPath(frames)
    && forall j | 0 <= j < |path| ::
         path[j].i == frames[j].i && path[j].node in m && Holds(m, m[path[j].node], frames[j].node, 0)
  }

  lemma PathKept<D>(m: Cells<D>, g: Cells<D>, path: seq<Step>, frames: seq<Frame<D>>)
    requires PathIs(m, path, frames) && Extends(m, g)
    ensures PathIs(g, path, frames)
  {
    forall j | 0 <= j < |path| ensures Holds(g, g[path[j].node], frames[j].node, 0) {
      HoldsKept(m, g, m[path[j].node], frames[j].node, 0);
    }
  }

  // ---------- one more entry in a node ----------

  /** One new cell, or two and the entry that goes up between them. */
  datatype NewCells<D> = One(cell: Cell<D>) | Pair(left: Cell<D>, key: int, data: D, right: Cell<D>)

  function AddToCell<D>(c: Cell<D>, i: nat, a: nat, key: int, data: D, b: nat): NewCells<D>
    requires HasKid(c, i)
  {
    match c
    case Cell2(p1, k1, d1, p2) =>
      if i == 1 then One(Cell3(a, key, data, b, k1, d1, p2))
      else One(Cell3(p1, k1, d1, a, key, data, b))
    case Cell3(p1, k1, d1, p2, k2, d2, p3) =>
      if i == 1 then One(Cell4(a, key, data, b, k1, d1, p2, k2, d2, p3))
      else if i == 4 then One(Cell4(p1, k1, d1, a, key, data, b, k2, d2, p3))
      else One(Cell4(p1, k1, d1, p2, k2, d2, a, key, data, b))
    case Cell4(p1, k1, d1, p2, k2, d2, p3, k3, d3, p4) =>
      if i == 1 then Pair(Cell3(a, key, data, b, k1, d1, p2), k2, d2, Cell2(p3, k3, d3, p4))
      else if i == 4 then Pair(Cell3(p1, k1, d1, a, key, data, b), k2, d2, Cell2(p3, k3, d3, p4))
      else if i == 7 then Pair(Cell3(p1, k1, d1, p2, k2, d2, a), key, data, Cell2(b, k3, d3, p4))
      else Pair(Cell3(p1, k1, d1, p2, k2, d2, p3), k3, d3, Cell2(a, key, data, b))
  }

  lemma AddedToCell<D>(m: Cells<D>, c: Cell<D>, t: Node<D>, i: nat, a: nat, left: Node<D>, key: int, data: D,
                       b: nat, right: Node<D>)
    requires Holds(m, c, t, 0) && IsKid(t, i) && IsTree(m, a, left) && IsTree(m, b, right)
    ensures HasKid(c, i)
    ensures var n, o := AddToCell(c, i, a, key, data, b), AddEntry(t, i, left, key, data, right);
            && (n.One? <==> o.Whole?)
            && (o.Whole? ==> Holds(m, n.cell, o.node, 0))
            && (o.Split? ==> n.key == o.key && n.data == o.data && Holds(m, n.left, o.left, 0) && Holds(m, n.right, o.right, 0))
  {
  }

  // ---------- insertion ----------

  /** `ist234_insert`. */
  method Insert<D(==)>(s: Store<Cell<D>>, root: nat, key: int, update: Option<(D, D) -> D>, data: D, ghost t0: Node<D>)
    returns (r: nat)
    requires s.Valid() && IsTree(s.cells, root, t0)
    modifies s
    ensures s.Valid() && Extends(old(s.cells), s.cells) && IsTree(s.cells, r, Inserted(t0, key, update, data))
    ensures var w := if update.None? || Lookup(t0, key).None? then data else update.value(Lookup(t0, key).value, data);
            ComparesEqual(t0, key, w) ==> r == root && s.cells == old(s.cells)
  {
    hide Holds, Outcomes, Combine, SetEntry, SetCellEntry, NewDatum, Compare, ComparesEqual, Lookup;
    SameIff(t0, key, update, data);
    var p := root;
    var path: seq<Step> := [];
    ghost var t := t0;
    ghost var frames: seq<Frame<D>> := [];
    while p != 0
      invariant s.Valid() && s.cells == old(s.cells)
      invariant IsTree(s.cells, p, t) && PathIs(s.cells, path, frames)
      invariant Rise(frames, Outcomes(t, key, update, data)) == Outcomes(t0, key, update, data)
      decreases t
    {
      HoldsShape(s.cells, s.cells[p], t, 0);
      OutcomeCases(t, key, update, data);
      var place := ComparePlaces(s.cells[p], key, s.cells, t);
      match place
      case AtEntry(i) =>
        var datum := NewDatum(update, CellDatum(s.cells[p], i), data);
        if CellDatum(s.cells[p], ComparedSlot(i)) == datum {
          RiseSame(frames);
          return root;
        }
        HoldsEntry(s.cells, s.cells[p], t, 0, i, Key(t, i), datum);
        ghost var node := SetEntry(t, i, Key(t, i), datum);
        var c := SetCellEntry(s.cells[p], i, CellKey(s.cells[p], i), datum);
        r := AllocateNode(s, c, node);
        PathKept(old(s.cells), s.cells, path, frames);
        r := CopyPath(s, path, r, frames, node);
        return;
      case InKid(ix) =>
        RisePush(frames, Frame(t, ix), Outcomes(Kid(t, ix), key, update, data));
        HoldsKid(s.cells, s.cells[p], t, 0, ix);
        path, frames := path + [Step(p, ix)], frames + [Frame(t, ix)];
        p, t := Ptr(s.cells[p], ix), Kid(t, ix);
    }

    OutcomeAtEnd(key, update, data);
    r := InsertUp(s, path, key, data, frames, t0, Outcomes(t0, key, update, data));
  }

  /** The cases of insertion, one step deep. */
  lemma OutcomeCases<D>(t: Node<D>, key: int, update: Option<(D, D) -> D>, data: D)
    requires !t.Null?
    ensures Compare(t, key).AtEntry? ==>
              var i := Compare(t, key).i;
              var datum := NewDatum(update, Datum(t, i), data);
              && IsEntry(t, i) && IsEntry(t, ComparedSlot(i))
              && Outcomes(t, key, update, data) ==
                 if Datum(t, ComparedSlot(i)) == datum then Same else Whole(SetEntry(t, i, Key(t, i), datum))
    ensures Compare(t, key).InKid? ==>
              var ix := Compare(t, key).ix;
              && IsKid(t, ix)
              && Outcomes(t, key, update, data) == Combine(Frame(t, ix), Outcomes(Kid(t, ix), key, update, data))
  {
  }

  lemma OutcomeAtEnd<D>(key: int, update: Option<(D, D) -> D>, data: D)
    ensures Outcomes(Null, key, update, data) == Split(Null, key, data, Null)
  {
  }

  /** The insert phase: an entry between two new nodes goes up, and splits the 4-nodes that it comes to. */
  method InsertUp<D(==)>(s: Store<Cell<D>>, path0: seq<Step>, key: int, data: D, ghost frames0: seq<Frame<D>>,
                         ghost root: Node<D>, ghost outcome: Outcome<D>)
    returns (r: nat)
    requires s.Valid() && PathIs(s.cells, path0, frames0)
    requires Rise(frames0, Split(Null, key, data, Null)) == outcome
    modifies s
    ensures s.Valid() && Extends(old(s.cells), s.cells) && !outcome.Same? && IsTree(s.cells, r, AsTree(root, outcome))
  {
    hide Holds, AddEntry, AddToCell;
    var path := path0;
    ghost var frames := frames0;
    // insert: split 4-nodes on the way up
    var p1: nat, newKey, newData, p2: nat := 0, key, data, 0;
    ghost var t1, t2: Node<D> := Null, Null;
    while path != []
      invariant s.Valid() && Extends(old(s.cells), s.cells) && PathIs(s.cells, path, frames)
      invariant IsTree(s.cells, p1, t1) && IsTree(s.cells, p2, t2)
      invariant Rise(frames, Split(t1, newKey, newData, t2)) == outcome
      decreases |path|
    {
      var step := path[|path| - 1];
      ghost var f := frames[|frames| - 1];
      path, frames := path[..|path| - 1], frames[..|frames| - 1];
      AddedToCell(s.cells, s.cells[step.node], f.node, f.i, p1, t1, newKey, newData, p2, t2);
      ghost var o := AddEntry(f.node, f.i, t1, newKey, newData, t2);
      ghost var before := s.cells;
      var n := AddToCell(s.cells[step.node], step.i, p1, newKey, newData, p2);
      if n.One? {
        r := AllocateNode(s, n.cell, o.node);
        PathKept(before, s.cells, path, frames);
        r := CopyPath(s, path, r, frames, o.node);
        return;
      }
      p1 := AllocateNode(s, n.left, o.left);
      HoldsKept(before, s.cells, n.right, o.right, 0);
      ghost var middle := s.cells;
      p2 := AllocateNode(s, n.right, o.right);
      TreeKept(middle, s.cells, p1, o.left);
      PathKept(before, s.cells, path, frames);
      newKey, newData, t1, t2 := n.key, n.data, o.left, o.right;
    }
    r := AllocateNode(s, Cell2(p1, newKey, newData, p2), Two(t1, newKey, newData, t2));
  }

  /** A new cell over trees that are there. */
  method AllocateNode<D(==)>(s: Store<Cell<D>>, c: Cell<D>, ghost t: Node<D>) returns (p: nat)
    requires s.Valid() && Holds(s.cells, c, t, 0)
    modifies s
    ensures s.Valid() && Extends(old(s.cells), s.cells) && IsTree(s.cells, p, t)
  {
    p := s.Allocate(c);
    HoldsKept(old(s.cells), s.cells, c, t, 0);
  }

  /** The update phase: copy the nodes of the path, each pointing to the copy below it. */
  method CopyPath<D(==)>(s: Store<Cell<D>>, path: seq<Step>, newP: nat, ghost frames: seq<Frame<D>>, ghost node: Node<D>)
    returns (r: nat)
    requires s.Valid() && PathIs(s.cells, path, frames) && IsTree(s.cells, newP, node)
    modifies s
    ensures s.Valid() && Extends(old(s.cells), s.cells)
    ensures Rise(frames, Whole(node)).Whole? && IsTree(s.cells, r, Rise(frames, Whole(node)).node)
  {
    r := newP;
    ghost var t := node;
    var level := |path|;
    assert frames[..level] == frames;
    while level > 0
      invariant 0 <= level <= |path| && s.Valid() && Extends(old(s.cells), s.cells)
      invariant PathIs(s.cells, path, frames) && IsTree(s.cells, r, t)
      invariant Rise(frames[..level], Whole(t)) == Rise(frames, Whole(node))
    {
      level := level - 1;
      assert frames[..level + 1][..level] == frames[..level];
      ghost var f := frames[level];
      assert GoodFrame(f);
      ghost var before := s.cells;
      HoldsHole(s.cells, s.cells[path[level].node], f.node, f.i);
      HoldsFilled(s.cells, s.cells[path[level].node], f.node, f.i, r, t);
      t := SetKid(f.node, f.i, t);
      r := AllocateNode(s, SetPtr(s.cells[path[level].node], path[level].i, r), t);
      PathKept(before, s.cells, path, frames);
    }
    assert frames[..0] == [];
  }
}
