/** Cells and pointers of priq.c: which cells a list of trees is made of, and when a change
    of a cell cannot be seen from a pointer. */
module BinomialCells {
  import opened BinomialHeap

  /** `CELL_priq_item`.  Pointer 0 is the null pointer; cell 0 is never used. */
  datatype Cell = Cell(height: nat, item: int, son: nat, next: nat)

  /** From pointer `p` hangs exactly the list of trees `f`. */
  ghost predicate IsForest(cells: seq<Cell>, p: nat, f: Forest)
    decreases f
  {
    match f
    case Nil => p == 0
    case Tree(h, item, sons, next) =>
      && 0 < p < |cells| && cells[p].height == h && cells[p].item == item
      && IsForest(cells, cells[p].son, sons) && IsForest(cells, cells[p].next, next)
  }

  /** The cells that hang from `p`. */
  ghost function Foot(cells: seq<Cell>, p: nat, f: Forest): set<nat>
    requires IsForest(cells, p, f)
    decreases f
  {
    if f == Nil then {}
    else {p} + Foot(cells, cells[p].son, f.sons) + Foot(cells, cells[p].next, f.next)
  }

  ghost predicate AllBelow(s: set<nat>, n: nat) {
    forall a | a in s :: a < n
  }

  lemma {:induction false} FootInside(cells: seq<Cell>, p: nat, f: Forest)
    requires IsForest(cells, p, f)
    ensures AllBelow(Foot(cells, p, f), |cells|)
    decreases f
  {
    if f != Nil {
      FootInside(cells, cells[p].son, f.sons);
      FootInside(cells, cells[p].next, f.next);
    }
  }

  /** A list is untouched when none of its cells is. */
  lemma {:induction false} Untouched(cells: seq<Cell>, after: seq<Cell>, p: nat, f: Forest)
    requires IsForest(cells, p, f) && |cells| <= |after|
    requires forall a | a in Foot(cells, p, f) && a < |cells| :: after[a] == cells[a]
    ensures IsForest(after, p, f) && Foot(after, p, f) == Foot(cells, p, f)
    decreases f
  {
    if f != Nil {
      assert p in Foot(cells, p, f);
      Untouched(cells, after, cells[p].son, f.sons);
      Untouched(cells, after, cells[p].next, f.next);
    }
  }

  /** Allocation and changes of newer cells leave every older list as it was. */
  lemma OlderKept(cells: seq<Cell>, after: seq<Cell>, p: nat, f: Forest)
    requires IsForest(cells, p, f) && cells <= after
    ensures IsForest(after, p, f) && Foot(after, p, f) == Foot(cells, p, f)
  {
    Untouched(cells, after, p, f);
  }

  // ---------- a list whose last pointer is still open ----------

  /** From `p` hang the trees `out`; the last one is cell `last`, whose next pointer is not set yet. */
  ghost predicate IsSegment(cells: seq<Cell>, p: nat, last: nat, out: Forest)
    decreases out
  {
    && out.Tree?
    && 0 < p < |cells| && cells[p].height == out.height && cells[p].item == out.item
    && IsForest(cells, cells[p].son, out.sons)
    && if out.next == Nil then p == last else IsSegment(cells, cells[p].next, last, out.next)
  }

  /** All cells of the segment, without the last root. */
  ghost function Inner(cells: seq<Cell>, p: nat, last: nat, out: Forest): set<nat>
    requires IsSegment(cells, p, last, out)
    decreases out
  {
    Foot(cells, cells[p].son, out.sons)
    + if out.next == Nil then {} else {p} + Inner(cells, cells[p].next, last, out.next)
  }

  lemma {:induction false} SegmentUntouched(cells: seq<Cell>, after: seq<Cell>, p: nat, last: nat, out: Forest)
    requires IsSegment(cells, p, last, out) && |cells| <= |after| && last < |cells|
    requires forall a | a in Inner(cells, p, last, out) && a < |cells| :: after[a] == cells[a]
    requires after[last] == cells[last].(next := after[last].next)
    ensures IsSegment(after, p, last, out) && Inner(after, p, last, out) == Inner(cells, p, last, out)
    decreases out
  {
    Untouched(cells, after, cells[p].son, out.sons);
    if out.next != Nil {
      assert p in Inner(cells, p, last, out);
      SegmentUntouched(cells, after, cells[p].next, last, out.next);
    }
  }

  lemma {:induction false} InnerInside(cells: seq<Cell>, p: nat, last: nat, out: Forest)
    requires IsSegment(cells, p, last, out)
    ensures AllBelow(Inner(cells, p, last, out), |cells|) && 0 < last < |cells|
    decreases out
  {
    FootInside(cells, cells[p].son, out.sons);
    if out.next != Nil {
      InnerInside(cells, cells[p].next, last, out.next);
    }
  }

  /** Setting the open pointer to a list gives the segment followed by the list. */
  lemma {:induction false} CloseSegment(cells: seq<Cell>, p: nat, last: nat, out: Forest, x: nat, g: Forest)
    requires IsSegment(cells, p, last, out) && 0 < last < |cells| && last !in Inner(cells, p, last, out)
    requires IsForest(cells, x, g) && last !in Foot(cells, x, g)
    ensures IsForest(cells[last := cells[last].(next := x)], p, Append(out, g))
    decreases out
  {
    var after := cells[last := cells[last].(next := x)];
    Untouched(cells, after, cells[p].son, out.sons);
    if out.next == Nil {
      Untouched(cells, after, x, g);
    } else {
      CloseSegment(cells, cells[p].next, last, out.next, x, g);
    }
  }

  /** Setting the open pointer to one more cell makes the segment one tree longer. */
  lemma {:induction false} ExtendSegment(cells: seq<Cell>, p: nat, last: nat, out: Forest, t: nat, sons: Forest)
    requires IsSegment(cells, p, last, out) && 0 < last < |cells| && last !in Inner(cells, p, last, out)
    requires 0 < t < |cells| && t != last && IsForest(cells, cells[t].son, sons) && last !in Foot(cells, cells[t].son, sons)
    ensures var after := cells[last := cells[last].(next := t)];
            var longer := Append(out, Tree(cells[t].height, cells[t].item, sons, Nil));
            && IsSegment(after, p, t, longer)
            && Inner(after, p, t, longer) == Inner(cells, p, last, out) + {last} + Foot(cells, cells[t].son, sons)
    decreases out
  {
    var after := cells[last := cells[last].(next := t)];
    Untouched(cells, after, cells[p].son, out.sons);
    if out.next == Nil {
      Untouched(cells, after, cells[t].son, sons);
    } else {
      ExtendSegment(cells, cells[p].next, last, out.next, t, sons);
    }
  }

  lemma {:induction false} AppendAppend(a: Forest, b: Forest, c: Forest)
    ensures Append(Append(a, b), c) == Append(a, Append(b, c))
  {
    if a != Nil {
      AppendAppend(a.next, b, c);
    }
  }
}
