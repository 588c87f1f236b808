/** The loops of `ist234_delete`, over the cells of a store.  The cells made so far, with one pointer
    still to be filled in, are the spine; the nodes that they will be are a path of frames, and
    filling in the pointer is plugging the path.  No cell from before the call is ever written to. */
module Tree234DeletePass {

  import opened Wrappers
  import opened CellStore
  import opened Tree234
  import opened Tree234Cells
  import opened Tree234Insert
  import opened Tree234Delete
  import opened Tree234DeleteProofs
  import opened Tree234TransformPass

  function Plug<D>(path: seq<Frame<D>>, t: Node<D>): Node<D>
    requires GoodPath(path)
    decreases |path|
  {
    if path == [] then t
    else
      var f := path[|path| - 1];
      Plug(path[..|path| - 1], SetKid(f.node, f.i, t))
  }

  lemma PlugPush<D>(path: seq<Frame<D>>, f: Frame<D>, t: Node<D>)
    requires GoodPath(path) && GoodFrame(f)
    ensures GoodPath(path + [f]) && Plug(path + [f], t) == Plug(path, SetKid(f.node, f.i, t))
  {
    assert (path + [f])[..|path|] == path;
  }

  // ---------- the cells made so far ----------

  /** `pp`: the address of a slot of a cell. */
  datatype Slot = Slot(cell: nat, ix: nat)

  /** The cells of `spine` hang one from the other below `newRoot`, and the slot that is open has the
      pointer `target`; with no cell made yet, the open slot is `newRoot` itself.  No cell of the
      spine is frozen: those cells may still be written to. */
  ghost predicate Chain<D>(m: Cells<D>, frozen: Cells<D>, spine: seq<nat>, path: seq<Frame<D>>, newRoot: nat, target: nat)
    decreases |path|
  {
    if path == [] then spine == [] && newRoot == target
    else
      var f := path[|path| - 1];
      && |spine| == |path| && GoodFrame(f)
      && var a := spine[|spine| - 1];
         && a in m && a !in frozen && a !in spine[..|spine| - 1]
         && Holds(frozen, m[a], f.node, f.i) && HasKid(m[a], f.i) && Ptr(m[a], f.i) == target
         && Chain(m, frozen, spine[..|spine| - 1], path[..|path| - 1], newRoot, a)
  }

  lemma {:induction false} ChainIsPath<D>(m: Cells<D>, frozen: Cells<D>, spine: seq<nat>, path: seq<Frame<D>>, newRoot: nat, target: nat)
    requires Chain(m, frozen, spine, path, newRoot, target)
    ensures |spine| == |path| && GoodPath(path)
    ensures forall a | a in spine :: a in m && a !in frozen
    ensures path == [] ==> newRoot == target
    ensures path != [] ==> newRoot in spine
    decreases |path|
  {
    if path != [] {
      var n := |path| - 1;
      ChainIsPath(m, frozen, spine[..n], path[..n], newRoot, spine[n]);
      assert path == path[..n] + [path[n]] && spine == spine[..n] + [spine[n]];
    }
  }

  /** Other cells may be allocated, written to and frozen. */
  lemma {:induction false} ChainKept<D>(m: Cells<D>, g: Cells<D>, frozen: Cells<D>, more: Cells<D>,
                                        spine: seq<nat>, path: seq<Frame<D>>, newRoot: nat, target: nat)
    requires Chain(m, frozen, spine, path, newRoot, target) && Extends(frozen, more)
    requires forall a | a in spine :: a !in more && (a in m ==> a in g && g[a] == m[a])
    ensures Chain(g, more, spine, path, newRoot, target)
    decreases |path|
  {
    if path != [] {
      var n := |path| - 1;
      assert spine[n] in spine;
      HoldsKept(frozen, more, m[spine[n]], path[n].node, path[n].i);
      ChainKept(m, g, frozen, more, spine[..n], path[..n], newRoot, spine[n]);
    }
  }

  /** When a whole tree hangs from the open slot, the whole new tree hangs from `newRoot`. */
  lemma {:induction false} ChainClosed<D>(m: Cells<D>, frozen: Cells<D>, spine: seq<nat>, path: seq<Frame<D>>,
                                          newRoot: nat, target: nat, t: Node<D>)
    requires Chain(m, frozen, spine, path, newRoot, target) && GoodPath(path)
    requires Extends(frozen, m) && 0 !in m && IsTree(frozen, target, t)
    ensures IsTree(m, newRoot, Plug(path, t))
    decreases |path|
  {
    hide Holds;
    if path == [] {
      TreeKept(frozen, m, target, t);
    } else {
      var n := |path| - 1;
      var f, a := path[n], spine[n];
      ChainIsPath(m, frozen, spine[..n], path[..n], newRoot, a);
      HoldsFilled(frozen, m[a], f.node, f.i, target, t);
      assert SetPtr(m[a], f.i, target) == m[a] by {
        SameSlot(m[a], f.i);
      }
      var more := frozen[a := m[a]];
      HoldsKept(frozen, more, m[a], SetKid(f.node, f.i, t), 0);
      ChainKept(m, m, frozen, more, spine[..n], path[..n], newRoot, a);
      ChainClosed(m, more, spine[..n], path[..n], newRoot, a, SetKid(f.node, f.i, t));
    }
  }

  lemma SameSlot<D>(c: Cell<D>, ix: nat)
    requires HasKid(c, ix)
    ensures SetPtr(c, ix, Ptr(c, ix)) == c
  {
  }

  /** One more cell of the spine; the open slot is now in it. */
  lemma ChainPushed<D>(m: Cells<D>, frozen: Cells<D>, spine: seq<nat>, path: seq<Frame<D>>, newRoot: nat,
                       a: nat, f: Frame<D>)
    requires Chain(m, frozen, spine, path, newRoot, a) && GoodFrame(f)
    requires a in m && a !in frozen && a !in spine && Holds(frozen, m[a], f.node, f.i)
    ensures HasKid(m[a], f.i) && Chain(m, frozen, spine + [a], path + [f], newRoot, Ptr(m[a], f.i))
  {
    ChainIsPath(m, frozen, spine, path, newRoot, a);
    HoldsShape(frozen, m[a], f.node, f.i);
    assert (spine + [a])[..|spine|] == spine && (path + [f])[..|path|] == path;
  }

  /** A pointer stored in the open slot. */
  lemma ChainStored<D>(m: Cells<D>, frozen: Cells<D>, spine: seq<nat>, path: seq<Frame<D>>, newRoot: nat, target: nat, x: nat)
    requires Chain(m, frozen, spine, path, newRoot, target) && path != []
    ensures |spine| == |path|
    ensures var a, ix := spine[|spine| - 1], path[|path| - 1].i;
            a in m && HasKid(m[a], ix) && Chain(m[a := SetPtr(m[a], ix, x)], frozen, spine, path, newRoot, x)
  {
    var n := |path| - 1;
    var a, f := spine[n], path[n];
    var g := m[a := SetPtr(m[a], f.i, x)];
    HoldsFilled(frozen, m[a], f.node, f.i, x, Null);
    assert forall b | b in spine[..n] :: b != a;
    ChainIsPath(m, frozen, spine[..n], path[..n], newRoot, a);
    ChainKept(m, g, frozen, frozen, spine[..n], path[..n], newRoot, a);
  }

  /** An entry stored in a cell of the spine. */
  lemma {:induction false} ChainEntryStored<D>(m: Cells<D>, frozen: Cells<D>, spine: seq<nat>, path: seq<Frame<D>>,
                                               newRoot: nat, target: nat, j: nat, i: nat, k: int, d: D)
    requires Chain(m, frozen, spine, path, newRoot, target) && j < |path| == |spine| && IsEntry(path[j].node, i)
    ensures spine[j] in m && HasEntry(m[spine[j]], i)
    ensures Chain(m[spine[j] := SetCellEntry(m[spine[j]], i, k, d)], frozen, spine,
                  path[j := Frame(SetEntry(path[j].node, i, k, d), path[j].i)], newRoot, target)
    decreases |path|
  {
    hide Holds;
    var n := |path| - 1;
    ChainIsPath(m, frozen, spine, path, newRoot, target);
    HoldsShapes(m, frozen, spine, path, newRoot, target, j);
    var g := m[spine[j] := SetCellEntry(m[spine[j]], i, k, d)];
    var changed := path[j := Frame(SetEntry(path[j].node, i, k, d), path[j].i)];
    if j == n {
      HoldsEntry(frozen, m[spine[n]], path[n].node, path[n].i, i, k, d);
      ChainKept(m, g, frozen, frozen, spine[..n], path[..n], newRoot, spine[n]);
      assert changed[..n] == path[..n];
    } else {
      assert spine[j] in spine[..n] by { assert spine[..n][j] == spine[j]; }
      ChainEntryStored(m, frozen, spine[..n], path[..n], newRoot, spine[n], j, i, k, d);
      assert changed[..n] == path[..n][j := Frame(SetEntry(path[j].node, i, k, d), path[j].i)];
    }
  }

  lemma {:induction false} HoldsShapes<D>(m: Cells<D>, frozen: Cells<D>, spine: seq<nat>, path: seq<Frame<D>>,
                                          newRoot: nat, target: nat, j: nat)
    requires Chain(m, frozen, spine, path, newRoot, target) && j < |path| == |spine|
    ensures spine[j] in m && forall i :: IsEntry(path[j].node, i) <==> HasEntry(m[spine[j]], i)
    decreases |path|
  {
    var n := |path| - 1;
    if j == n {
      HoldsShape(frozen, m[spine[n]], path[n].node, path[n].i);
    } else {
      HoldsShapes(m, frozen, spine[..n], path[..n], newRoot, spine[n], j);
    }
  }

  // ---------- the node that the deletion has come to ----------

  /** Cell `p` is node `t`.  `is_not_copied_yet` says whether it is a cell that must not be written to. */
  ghost predicate Working<D>(m: Cells<D>, frozen: Cells<D>, spine: seq<nat>, path: seq<Frame<D>>, newRoot: nat, pp: Slot,
                             target: nat, p: nat, t: Node<D>, isNotCopiedYet: bool) {
    && Extends(frozen, m) && 0 !in m
    && Chain(m, frozen, spine, path, newRoot, target)
    && p in m && p !in spine && Holds(frozen, m[p], t, 0)
    && (isNotCopiedYet <==> p in frozen)
    && (!isNotCopiedYet ==> target == p)
    && (path == [] && isNotCopiedYet ==> newRoot == 0)
    && SlotIsOpen(spine, path, pp)
  }

  ghost predicate SlotIsOpen<D>(spine: seq<nat>, path: seq<Frame<D>>, pp: Slot) {
    |spine| == |path| && (path != [] ==> pp == Slot(spine[|spine| - 1], path[|path| - 1].i))
  }

  /** The test of the source for a pointer that goes to `new_root` and not to `*pp`. */
  lemma RootTest<D>(m: Cells<D>, frozen: Cells<D>, spine: seq<nat>, path: seq<Frame<D>>, newRoot: nat, pp: Slot,
                    target: nat, p: nat, t: Node<D>, isNotCopiedYet: bool)
    requires Working(m, frozen, spine, path, newRoot, pp, target, p, t, isNotCopiedYet)
    ensures newRoot == 0 || newRoot == p <==> path == []
  {
    ChainIsPath(m, frozen, spine, path, newRoot, target);
  }

  /** `if (new_root == NULL_PTR || new_root == p) new_root = x; else *pp = x;` */
  method Link<D(==)>(s: Store<Cell<D>>, root: nat, p: nat, pp: Slot, x: nat,
                     ghost frozen: Cells<D>, ghost spine: seq<nat>, ghost path: seq<Frame<D>>, ghost target: nat)
    returns (newRoot: nat)
    requires s.Valid() && Extends(frozen, s.cells) && Chain(s.cells, frozen, spine, path, root, target)
    requires SlotIsOpen(spine, path, pp) && (root == 0 || root == p <==> path == [])
    modifies s
    ensures s.Valid() && Extends(frozen, s.cells) && Chain(s.cells, frozen, spine, path, newRoot, x)
    ensures s.cells.Keys == old(s.cells).Keys && s.next == old(s.next)
    ensures forall a | a in s.cells && a !in spine :: s.cells[a] == old(s.cells)[a]
    ensures newRoot == if path == [] then x else root
  {
    ChainIsPath(s.cells, frozen, spine, path, root, target);
    if root == 0 || root == p {
      newRoot := x;
    } else {
      ChainStored(s.cells, frozen, spine, path, root, target, x);
      assert pp.cell in spine;
      s.cells := s.cells[pp.cell := SetPtr(s.cells[pp.cell], pp.ix, x)];
      newRoot := root;
    }
  }

  /** `copy_node`, unless the node is a copy already: afterwards it may be written to. */
  method Own<D(==)>(s: Store<Cell<D>>, p: nat, isNotCopiedYet: bool, root: nat, pp: Slot, ghost frozen: Cells<D>,
                    ghost spine: seq<nat>, ghost path: seq<Frame<D>>, ghost target: nat, ghost t: Node<D>)
    returns (q: nat, newRoot: nat)
    requires s.Valid() && Working(s.cells, frozen, spine, path, root, pp, target, p, t, isNotCopiedYet)
    modifies s
    ensures s.Valid() && Working(s.cells, frozen, spine, path, newRoot, pp, q, q, t, false)
    ensures Grew(old(s.cells), old(s.next), s.cells, s.next)
    ensures isNotCopiedYet ==> s.next > old(s.next)
  {
    hide Holds, Chain;
    if !isNotCopiedYet {
      return p, root;
    }
    RootTest(s.cells, frozen, spine, path, root, pp, target, p, t, isNotCopiedYet);
    ChainIsPath(s.cells, frozen, spine, path, root, target);
    ghost var before := s.cells;
    q := s.Allocate(s.cells[p]);
    ChainKept(before, s.cells, frozen, frozen, spine, path, root, target);
    newRoot := Link(s, root, p, pp, q, frozen, spine, path, target);
  }

  /** On to a kid of a node that may be written to. */
  lemma Stepped<D>(m: Cells<D>, frozen: Cells<D>, spine: seq<nat>, path: seq<Frame<D>>, newRoot: nat, pp: Slot,
                   q: nat, t: Node<D>, ix: nat)
    requires Working(m, frozen, spine, path, newRoot, pp, q, q, t, false) && IsKid(t, ix) && !Kid(t, ix).Null?
    ensures HasKid(m[q], ix)
    ensures var p := Ptr(m[q], ix);
            Working(m, frozen, spine + [q], path + [Frame(t, ix)], newRoot, Slot(q, ix), p, p, Kid(t, ix), true)
  {
    hide Holds, Chain;
    HoldsShape(frozen, m[q], t, 0);
    HoldsKid(frozen, m[q], t, 0, ix);
    HoldsHole(frozen, m[q], t, ix);
    ChainPushed(m, frozen, spine, path, newRoot, q, Frame(t, ix));
    ChainIsPath(m, frozen, spine + [q], path + [Frame(t, ix)], newRoot, Ptr(m[q], ix));
  }

  /** `copy_and_transform`, and the new node linked to what has been made so far (ist234.c:883-893, 969-977 and 1013-1019). */
  method TransformAndLink<D(==)>(s: Store<Cell<D>>, p: nat, ix0: nat, isNotCopiedYet: bool, root: nat, pp0: Slot,
                                 ghost frozen: Cells<D>, ghost spine0: seq<nat>, ghost path0: seq<Frame<D>>,
                                 ghost target: nat, ghost t: Node<D>)
    returns (q: nat, ix: nat, iOfKey: nat, newRoot: nat, pp: Slot, ghost more: Cells<D>, ghost spine: seq<nat>)
    requires s.Valid() && Working(s.cells, frozen, spine0, path0, root, pp0, target, p, t, isNotCopiedYet)
    requires IsKid(t, ix0) && Kid(t, ix0).Two? && !Brother(t, ix0).Null?
    modifies s
    ensures s.Valid() && Extends(frozen, more) && Grew(old(s.cells), old(s.next), s.cells, s.next) && spine0 <= spine
    ensures s.next > old(s.next)
    ensures var r := Transform(t, ix0);
            && ix == r.ix && iOfKey == r.iOfKey
            && (r.levels == 1 ==> Working(s.cells, more, spine, path0, newRoot, pp, q, q, r.node, false))
            && (r.levels == 2 ==>
                  Working(s.cells, more, spine, path0 + [Frame(r.node, r.ix)], newRoot, pp, q, q, Kid(r.node, r.ix), false))
  {
    hide Holds, Chain, Transform;
    RootTest(s.cells, frozen, spine0, path0, root, pp0, target, p, t, isNotCopiedYet);
    ChainIsPath(s.cells, frozen, spine0, path0, root, target);
    ghost var before := s.cells;
    var levels;
    q, ix, iOfKey, levels, more := CopyAndTransform(s, p, ix0, t, frozen);
    ChainKept(before, s.cells, frozen, more, spine0, path0, root, target);
    newRoot := Link(s, root, p, pp0, q, more, spine0, path0, target);
    ghost var r := Transform(t, ix0);
    spine, pp := spine0, pp0;
    if levels == 2 {
      ChainPushed(s.cells, more, spine0, path0, newRoot, q, Frame(r.node, r.ix));
      var e := Ptr(s.cells[q], ix);
      spine, pp, q := spine0 + [q], Slot(q, ix), e;
    }
  }

  /** Down to a kid of a node with more than two: the node is copied, or transformed when the kid is a
      2-node (ist234.c:962-978 and 1003-1020). */
  method GoDown<D(==)>(s: Store<Cell<D>>, p0: nat, ix0: nat, isNotCopied0: bool, root: nat, pp0: Slot,
                       ghost frozen0: Cells<D>, ghost spine0: seq<nat>, ghost path0: seq<Frame<D>>,
                       ghost target: nat, ghost t: Node<D>)
    returns (p: nat, isNotCopiedYet: bool, newRoot: nat, pp: Slot, ghost frozen: Cells<D>, ghost spine: seq<nat>)
    requires s.Valid() && Working(s.cells, frozen0, spine0, path0, root, pp0, target, p0, t, isNotCopied0)
    requires NodeType(t) > 2 && IsKid(t, ix0) && !Kid(t, ix0).Null? && !Brother(t, ix0).Null?
    modifies s
    ensures s.Valid() && Extends(frozen0, frozen) && spine0 <= spine
    ensures var (node, kid) := Entered(t, ix0);
            Working(s.cells, frozen, spine, path0 + [Frame(node, kid)], newRoot, pp, p, p, Kid(node, kid), isNotCopiedYet)
  {
    hide Holds, Chain, Working, Transform;
    WorkingFacts(s.cells, frozen0, spine0, path0, root, pp0, target, p0, t, isNotCopied0);
    KidCells(s.cells, frozen0, s.cells[p0], t, ix0);
    HoldsShape(frozen0, s.cells[Ptr(s.cells[p0], ix0)], Kid(t, ix0), 0);
    if CellType(s.cells[Ptr(s.cells[p0], ix0)]) > 2 {
      var own;
      own, newRoot := Own(s, p0, isNotCopied0, root, pp0, frozen0, spine0, path0, target, t);
      Stepped(s.cells, frozen0, spine0, path0, newRoot, pp0, own, t, ix0);
      WorkingFacts(s.cells, frozen0, spine0, path0, newRoot, pp0, own, own, t, false);
      frozen, spine := frozen0, spine0 + [own];
      pp, p, isNotCopiedYet := Slot(own, ix0), Ptr(s.cells[own], ix0), true;
    } else {
      var ix, iOfKey;
      p, ix, iOfKey, newRoot, pp, frozen, spine :=
        TransformAndLink(s, p0, ix0, isNotCopied0, root, pp0, frozen0, spine0, path0, target, t);
      isNotCopiedYet := false;
    }
  }

  // ---------- deleting an entry that has been found ----------

  /** When node `x` is stored in the open slot the new tree is complete. */
  method Finish<D(==)>(s: Store<Cell<D>>, root: nat, p: nat, pp: Slot, x: nat, ghost t: Node<D>,
                       ghost frozen: Cells<D>, ghost spine: seq<nat>, ghost path: seq<Frame<D>>, ghost target: nat)
    returns (newRoot: nat)
    requires s.Valid() && Extends(frozen, s.cells) && Chain(s.cells, frozen, spine, path, root, target) && GoodPath(path)
    requires SlotIsOpen(spine, path, pp) && (root == 0 || root == p <==> path == [])
    requires x != 0 && x in s.cells && x !in frozen && x !in spine && !t.Null? && Holds(frozen, s.cells[x], t, 0)
    modifies s
    ensures s.Valid() && Extends(frozen, s.cells) && IsTree(s.cells, newRoot, Plug(path, t))
  {
    hide Holds, Chain;
    ChainIsPath(s.cells, frozen, spine, path, root, target);
    ghost var more := frozen[x := s.cells[x]];
    HoldsKept(frozen, more, s.cells[x], t, 0);
    ChainKept(s.cells, s.cells, frozen, more, spine, path, root, target);
    newRoot := Link(s, root, p, pp, x, more, spine, path, target);
    ChainClosed(s.cells, more, spine, path, newRoot, x, t);
  }

  /** `delete_leaf`: the entry goes, with the whole tree if that was its only one (ist234.c:1130-1195). */
  method DeleteLeaf<D(==)>(s: Store<Cell<D>>, p: nat, i: nat, isNotCopiedYet: bool, root: nat, pp: Slot, ghost frozen: Cells<D>,
                           ghost spine: seq<nat>, ghost path: seq<Frame<D>>, ghost target: nat, ghost t: Node<D>)
    returns (r: nat)
    requires s.Valid() && Working(s.cells, frozen, spine, path, root, pp, target, p, t, isNotCopiedYet)
    requires GoodPath(path) && IsEntry(t, i) && (t.Two? ==> root == 0)
    modifies s
    ensures s.Valid() && Extends(frozen, s.cells)
    ensures IsTree(s.cells, r, Plug(path, if t.Two? then Null else WithoutEntry(t, i, Null)))
  {
    hide Holds, Chain;
    HoldsShape(frozen, s.cells[p], t, 0);
    RootTest(s.cells, frozen, spine, path, root, pp, target, p, t, isNotCopiedYet);
    ChainIsPath(s.cells, frozen, spine, path, root, target);
    if CellType(s.cells[p]) == 2 {
      return 0;
    }
    HoldsWithoutEntry(frozen, s.cells[p], t, i, 0, Null);
    ghost var before := s.cells;
    var newP := s.Allocate(CellWithoutEntry(s.cells[p], i, 0));
    ChainKept(before, s.cells, frozen, frozen, spine, path, root, target);
    r := Finish(s, root, p, pp, newP, WithoutEntry(t, i, Null), frozen, spine, path, target);
  }

  /** What the end entry `e` and what is left without it are, seen from node `t` on the way; `f` is what
      the frame at place `m` will be once the entry has been stored there. */
  ghost predicate EndsAs<D>(path0: seq<Frame<D>>, f: Frame<D>, path: seq<Frame<D>>, m: nat,
                            t: Node<D>, last: bool, h: nat, e: Taken<D>) {
    && m < |path| && GoodPath(path) && GoodPath(path0) && GoodFrame(f) && GoodPath(path[m := f])
    && 0 < h && NodeType(t) > 2 && Uniform(t, h)
    && var below := TakeEnd(t, last, h);
       && below.key == e.key && below.data == e.data
       && Plug(path[m := f], below.rest) == Plug(path0, SetKid(f.node, f.i, e.rest))
  }

  lemma EndsAsStart<D>(path0: seq<Frame<D>>, f: Frame<D>, g: Frame<D>, t: Node<D>, last: bool, h: nat)
    requires GoodPath(path0) && GoodFrame(f) && GoodFrame(g) && 0 < h && NodeType(t) > 2 && Uniform(t, h)
    ensures EndsAs(path0, f, path0 + [g], |path0|, t, last, h, TakeEnd(t, last, h))
  {
    assert (path0 + [g])[|path0| := f] == path0 + [f];
    PlugPush(path0, f, TakeEnd(t, last, h).rest);
  }

  lemma EndsAsStep<D>(path0: seq<Frame<D>>, f: Frame<D>, path: seq<Frame<D>>, m: nat,
                      t: Node<D>, last: bool, h: nat, e: Taken<D>)
    requires EndsAs(path0, f, path, m, t, last, h, e) && !t.c1.Null?
    ensures h > 1 && IsKid(t, if last then LastKid(t) else 1)
    ensures var ix := if last then LastKid(t) else 1;
            && !Kid(t, ix).Null? && !Brother(t, ix).Null?
            && var (node, kid) := Entered(t, ix);
               EndsAs(path0, f, path + [Frame(node, kid)], m, Kid(node, kid), last, h - 1, e)
  {
    hide Transform, SetKid;
    TakeEndCase(t, last, h);
    var (node, kid) := Entered(t, if last then LastKid(t) else 1);
    assert path[m := f] + [Frame(node, kid)] == (path + [Frame(node, kid)])[m := f];
    PlugPush(path[m := f], Frame(node, kid), TakeEnd(Kid(node, kid), last, h - 1).rest);
  }

  lemma EndsAsLeaf<D>(path0: seq<Frame<D>>, f: Frame<D>, path: seq<Frame<D>>, m: nat,
                      t: Node<D>, last: bool, h: nat, e: Taken<D>)
    requires EndsAs(path0, f, path, m, t, last, h, e) && t.c1.Null?
    ensures var i := if last then LastKid(t) - 2 else 2;
            && IsEntry(t, i) && GoodPath(path[m := f]) && e.key == Key(t, i) && e.data == Datum(t, i)
            && Plug(path[m := f], WithoutEntry(t, i, Null)) == Plug(path0, SetKid(f.node, f.i, e.rest))
  {
    TakeEndCase(t, last, h);
  }

  /** The entry after (or before) entry `i` takes its place: it comes up from the leaf at the left end of
      the next kid (at the right end of the previous one), and is stored in the cell `q` that has been
      copied above (ist234.c:955-983 and 997-1027). */
  method ReplaceByEnd<D(==)>(s: Store<Cell<D>>, q: nat, i: nat, last: bool, root: nat, pp0: Slot, ghost frozen0: Cells<D>,
                             ghost spine0: seq<nat>, ghost path0: seq<Frame<D>>, ghost t0: Node<D>, ghost h: nat)
    returns (r: nat)
    requires s.Valid() && Working(s.cells, frozen0, spine0, path0, root, pp0, q, q, t0, false) && GoodPath(path0)
    requires IsEntry(t0, i) && Uniform(t0, h) && h > 1 && NodeType(Kid(t0, if last then i - 1 else i + 2)) > 2
    requires Uniform(Kid(t0, if last then i - 1 else i + 2), h - 1)
    modifies s
    ensures s.Valid() && Extends(frozen0, s.cells)
    ensures var j := if last then i - 1 else i + 2;
            var e := TakeEnd(Kid(t0, j), last, h - 1);
            IsTree(s.cells, r, Plug(path0, SetKid(SetEntry(t0, i, e.key, e.data), j, e.rest)))
  {
    hide Holds, Chain, Working, Transform, TakeEnd, WithoutEntry, SetKid, SetEntry, Uniform, Plug, EndsAs;
    var j := if last then i - 1 else i + 2;
    ghost var e := TakeEnd(Kid(t0, j), last, h - 1);
    ghost var m, f := |path0|, Frame(SetEntry(t0, i, e.key, e.data), j);
    Stepped(s.cells, frozen0, spine0, path0, root, pp0, q, t0, j);
    WorkingFacts(s.cells, frozen0, spine0, path0, root, pp0, q, q, t0, false);
    EndsAsStart(path0, f, Frame(t0, j), Kid(t0, j), last, h - 1);
    var newRoot, pp, p, isNotCopiedYet := root, Slot(q, j), Ptr(s.cells[q], j), true;
    ghost var frozen, spine, path, t := frozen0, spine0 + [q], path0 + [Frame(t0, j)], Kid(t0, j);
    newRoot, pp, p, isNotCopiedYet, frozen, spine, path, t :=
      GoToEnd(s, p, last, newRoot, pp, frozen, spine, path, t, path0, f, m, h - 1, e);
    WorkingFacts(s.cells, frozen, spine, path, newRoot, pp, p, p, t, isNotCopiedYet);
    HoldsShape(frozen, s.cells[p], t, 0);
    var end := if last then 3 * CellType(s.cells[p]) - 4 else 2;
    var key, data := CellKey(s.cells[p], end), CellDatum(s.cells[p], end);
    StoreEntry(s.cells, frozen, spine, path, newRoot, pp, p, p, t, isNotCopiedYet, m, i, key, data);
    s.cells := s.cells[q := SetCellEntry(s.cells[q], i, key, data)];
    r := DeleteLeaf(s, p, end, isNotCopiedYet, newRoot, pp, frozen, spine, path[m := f], p, t);
  }

  /** Down to the leaf at one end. */
  method GoToEnd<D(==)>(s: Store<Cell<D>>, p0: nat, last: bool, root: nat, pp0: Slot, ghost frozen0: Cells<D>,
                        ghost spine0: seq<nat>, ghost path1: seq<Frame<D>>, ghost t0: Node<D>,
                        ghost path0: seq<Frame<D>>, ghost f: Frame<D>, ghost m: nat, ghost h: nat, ghost e: Taken<D>)
    returns (newRoot: nat, pp: Slot, p: nat, isNotCopiedYet: bool,
             ghost frozen: Cells<D>, ghost spine: seq<nat>, ghost path: seq<Frame<D>>, ghost t: Node<D>)
    requires s.Valid() && Working(s.cells, frozen0, spine0, path1, root, pp0, p0, p0, t0, true)
    requires EndsAs(path0, f, path1, m, t0, last, h, e)
    modifies s
    ensures s.Valid() && Working(s.cells, frozen, spine, path, newRoot, pp, p, p, t, isNotCopiedYet)
    ensures Extends(frozen0, frozen) && spine0 <= spine && path1 <= path && NodeType(t) > 2
    ensures var i := if last then LastKid(t) - 2 else 2;
            && m < |path| && IsEntry(t, i) && GoodPath(path[m := f]) && e.key == Key(t, i) && e.data == Datum(t, i)
            && Plug(path[m := f], WithoutEntry(t, i, Null)) == Plug(path0, SetKid(f.node, f.i, e.rest))
  {
    hide Holds, Chain, Working, Transform, TakeEnd, WithoutEntry, SetKid, Uniform, Plug, Entered;
    newRoot, pp, p, isNotCopiedYet, frozen, spine, path, t := root, pp0, p0, true, frozen0, spine0, path1, t0;
    ghost var hp: nat := h;
    WorkingFacts(s.cells, frozen, spine, path, newRoot, pp, p, p, t, isNotCopiedYet);
    LeafTest(s.cells, frozen, p, t, hp);
    while s.cells[p].p1 != 0
      invariant s.Valid() && Working(s.cells, frozen, spine, path, newRoot, pp, p, p, t, isNotCopiedYet)
      invariant EndsAs(path0, f, path, m, t, last, hp, e)
      invariant Extends(frozen0, frozen) && spine0 <= spine && path1 <= path
      invariant p in s.cells && (s.cells[p].p1 == 0 <==> t.c1.Null?)
      decreases hp
    {
      WorkingFacts(s.cells, frozen, spine, path, newRoot, pp, p, p, t, isNotCopiedYet);
      HoldsShape(frozen, s.cells[p], t, 0);
      var ix := if last then 3 * CellType(s.cells[p]) - 2 else 1;
      EndsAsStep(path0, f, path, m, t, last, hp, e);
      ghost var (node, kid) := Entered(t, ix);
      p, isNotCopiedYet, newRoot, pp, frozen, spine :=
        GoDown(s, p, ix, isNotCopiedYet, newRoot, pp, frozen, spine, path, p, t);
      path, t, hp := path + [Frame(node, kid)], Kid(node, kid), hp - 1;
      WorkingFacts(s.cells, frozen, spine, path, newRoot, pp, p, p, t, isNotCopiedYet);
      LeafTest(s.cells, frozen, p, t, hp);
    }
    EndsAsLeaf(path0, f, path, m, t, last, hp, e);
  }

  lemma WorkingFacts<D>(m: Cells<D>, frozen: Cells<D>, spine: seq<nat>, path: seq<Frame<D>>, newRoot: nat, pp: Slot,
                        target: nat, p: nat, t: Node<D>, isNotCopiedYet: bool)
    requires Working(m, frozen, spine, path, newRoot, pp, target, p, t, isNotCopiedYet)
    ensures Extends(frozen, m) && 0 !in m && |spine| == |path| && GoodPath(path)
    ensures p in m && p !in spine && Holds(frozen, m[p], t, 0) && Chain(m, frozen, spine, path, newRoot, target)
    ensures newRoot == 0 || newRoot == p <==> path == []
    ensures path != [] ==> newRoot != 0
    ensures SlotIsOpen(spine, path, pp)
  {
    ChainIsPath(m, frozen, spine, path, newRoot, target);
  }

  /** `LEAF`. */
  lemma LeafTest<D>(m: Cells<D>, frozen: Cells<D>, p: nat, t: Node<D>, h: nat)
    requires p in m && Holds(frozen, m[p], t, 0) && Uniform(t, h)
    ensures !t.Null? && h > 0 && (m[p].p1 == 0 <==> t.c1.Null?)
  {
    KidUniform(t, 1, h);
    HoldsKid(frozen, m[p], t, 0, 1);
  }

  /** The cases of the way to the end entry, one step deep. */
  lemma TakeEndCase<D>(t: Node<D>, last: bool, h: nat)
    requires NodeType(t) > 2 && Uniform(t, h)
    ensures var ix := if last then LastKid(t) else 1;
            var i := if last then ix - 2 else 2;
            && IsKid(t, ix) && IsEntry(t, i)
            && (t.c1.Null? ==> TakeEnd(t, last, h) == Taken(Key(t, i), Datum(t, i), WithoutEntry(t, i, Null)))
            && (!t.c1.Null? ==>
                  && h > 1 && !Kid(t, ix).Null? && !Brother(t, ix).Null?
                  && (NodeType(Kid(t, ix)) > 2 || Kid(t, ix).Two?)
                  && (Kid(t, ix).Two? ==> Transform(t, ix).levels == 2)
                  && var (node, kid) := Entered(t, ix);
                     && IsKid(node, kid) && Uniform(Kid(node, kid), h - 1) && NodeType(Kid(node, kid)) > 2
                     && (if Kid(t, ix).Two? then node == Transform(t, ix).node && kid == Transform(t, ix).ix
                         else node == t && kid == ix)
                     && var below := TakeEnd(Kid(node, kid), last, h - 1);
                        TakeEnd(t, last, h) == Taken(below.key, below.data, SetKid(node, kid, below.rest)))
  {
    hide Transform;
    var ix := if last then LastKid(t) else 1;
    KidUniform(t, ix, h);
    if !t.c1.Null? {
      EnteredUniform(t, ix, h);
    }
  }

  /** An entry may be stored in a cell of the spine while the deletion works further down. */
  lemma StoreEntry<D>(m: Cells<D>, frozen: Cells<D>, spine: seq<nat>, path: seq<Frame<D>>, newRoot: nat, pp: Slot,
                      target: nat, p: nat, t: Node<D>, isNotCopiedYet: bool, j: nat, i: nat, k: int, d: D)
    requires Working(m, frozen, spine, path, newRoot, pp, target, p, t, isNotCopiedYet)
    requires j < |path| == |spine| && IsEntry(path[j].node, i)
    ensures spine[j] in m && spine[j] !in frozen && spine[j] != p && HasEntry(m[spine[j]], i)
    ensures Working(m[spine[j] := SetCellEntry(m[spine[j]], i, k, d)], frozen, spine,
                    path[j := Frame(SetEntry(path[j].node, i, k, d), path[j].i)], newRoot, pp, target, p, t, isNotCopiedYet)
  {
    hide Holds, Chain;
    ChainIsPath(m, frozen, spine, path, newRoot, target);
    assert spine[j] in spine;
    ChainEntryStored(m, frozen, spine, path, newRoot, target, j, i, k, d);
  }

  // ---------- joining two 2-nodes ----------

  /** The open slot waits for what the two 2-nodes `left` and `right`, both older cells, are joined to. */
  ghost predicate Joining<D>(m: Cells<D>, frozen: Cells<D>, spine: seq<nat>, path: seq<Frame<D>>, newRoot: nat, pp: Slot,
                             target: nat, left: nat, l: Node<D>, right: nat, r: Node<D>) {
    && Extends(frozen, m) && 0 !in m && Chain(m, frozen, spine, path, newRoot, target)
    && SlotIsOpen(spine, path, pp) && (newRoot == 0 <==> path == [])
    && l.Two? && r.Two? && IsTree(frozen, left, l) && IsTree(frozen, right, r)
  }

  lemma JoiningFacts<D>(m: Cells<D>, frozen: Cells<D>, spine: seq<nat>, path: seq<Frame<D>>, newRoot: nat, pp: Slot,
                        target: nat, left: nat, l: Node<D>, right: nat, r: Node<D>)
    requires Joining(m, frozen, spine, path, newRoot, pp, target, left, l, right, r)
    ensures left in m && m[left].Cell2? && right in m && m[right].Cell2? && GoodPath(path) && |spine| == |path|
    ensures Holds(frozen, m[left], l, 0) && Holds(frozen, m[right], r, 0)
    ensures IsTree(frozen, m[left].p2, l.c2) && IsTree(frozen, m[right].p1, r.c1)
  {
    HoldsShape(frozen, m[left], l, 0);
    HoldsShape(frozen, m[right], r, 0);
    ChainIsPath(m, frozen, spine, path, newRoot, target);
  }

  /** The 3-node that is left when the middle kids are joined further down. */
  lemma JointHolds<D>(m: Cells<D>, a: Cell<D>, l: Node<D>, b: Cell<D>, r: Node<D>)
    requires Holds(m, a, l, 0) && Holds(m, b, r, 0) && l.Two? && r.Two?
    ensures a.Cell2? && b.Cell2?
    ensures Holds(m, Cell3(a.p1, a.k1, a.d1, 0, b.k1, b.d1, b.p2), Three(l.c1, l.k1, l.d1, Null, r.k1, r.d1, r.c2), 0)
  {
  }

  /** A new cell of the spine, linked to what has been made so far, with slot `ix` open. */
  method Extend<D(==)>(s: Store<Cell<D>>, c: Cell<D>, ix: nat, root: nat, p: nat, pp0: Slot, ghost t: Node<D>,
                       ghost frozen: Cells<D>, ghost spine: seq<nat>, ghost path: seq<Frame<D>>, ghost target: nat)
    returns (q: nat, newRoot: nat, pp: Slot)
    requires s.Valid() && Extends(frozen, s.cells) && Chain(s.cells, frozen, spine, path, root, target)
    requires SlotIsOpen(spine, path, pp0) && (root == 0 || root == p <==> path == [])
    requires Holds(frozen, c, t, ix) && IsKid(t, ix)
    modifies s
    ensures s.Valid() && Extends(frozen, s.cells) && q !in old(s.cells) && q !in spine && HasKid(c, ix)
    ensures Chain(s.cells, frozen, spine + [q], path + [Frame(t, ix)], newRoot, Ptr(c, ix)) && newRoot != 0
    ensures SlotIsOpen(spine + [q], path + [Frame(t, ix)], pp) && pp == Slot(q, ix)
  {
    hide Holds, Chain;
    ChainIsPath(s.cells, frozen, spine, path, root, target);
    ghost var before := s.cells;
    q := s.Allocate(c);
    ChainKept(before, s.cells, frozen, frozen, spine, path, root, target);
    newRoot := Link(s, root, p, pp0, q, frozen, spine, path, target);
    ChainPushed(s.cells, frozen, spine, path, newRoot, q, Frame(t, ix));
    ChainIsPath(s.cells, frozen, spine + [q], path + [Frame(t, ix)], newRoot, Ptr(c, ix));
    pp := Slot(q, ix);
  }

  /** One turn of the loop that joins two 2-nodes, above the leaves. */
  method JoinStep<D(==)>(s: Store<Cell<D>>, left: nat, right: nat, root: nat, pp0: Slot, ghost l: Node<D>, ghost r: Node<D>,
                         ghost frozen: Cells<D>, ghost spine: seq<nat>, ghost path: seq<Frame<D>>, ghost target: nat)
    returns (newLeft: nat, newRight: nat, newRoot: nat, pp: Slot, ghost newSpine: seq<nat>)
    requires s.Valid() && Joining(s.cells, frozen, spine, path, root, pp0, target, left, l, right, r)
    requires l.c2.Two? && r.c1.Two?
    modifies s
    ensures s.Valid()
    ensures var f := Frame(Three(l.c1, l.k1, l.d1, Null, r.k1, r.d1, r.c2), 4);
            Joining(s.cells, frozen, newSpine, path + [f], newRoot, pp, 0, newLeft, l.c2, newRight, r.c1)
  {
    hide Holds, Chain, Extends;
    JoiningFacts(s.cells, frozen, spine, path, root, pp0, target, left, l, right, r);
    var a, b := s.cells[left], s.cells[right];
    JointHolds(frozen, a, l, b, r);
    ghost var t := Three(l.c1, l.k1, l.d1, Null, r.k1, r.d1, r.c2);
    HoldsHole(frozen, Cell3(a.p1, a.k1, a.d1, 0, b.k1, b.d1, b.p2), t, 4);
    var q;
    q, newRoot, pp := Extend(s, Cell3(a.p1, a.k1, a.d1, 0, b.k1, b.d1, b.p2), 4, root, 0, pp0, t, frozen, spine, path, target);
    newSpine := spine + [q];
    newLeft, newRight := a.p2, b.p1;
  }

  /** Joining two 2-nodes, down to the leaves, or to kids that allow the deletion to go on (ist234.c:1082-1128). */
  method JoinKids<D(==)>(s: Store<Cell<D>>, left0: nat, right0: nat, root: nat, pp0: Slot, ghost l0: Node<D>, ghost r0: Node<D>,
                         ghost key: int, ghost datum: D, ghost frozen: Cells<D>, ghost spine0: seq<nat>,
                         ghost path0: seq<Frame<D>>, ghost target0: nat, ghost h: nat)
    returns (p: nat, done: bool, newRoot: nat, pp: Slot,
             ghost t: Node<D>, ghost spine: seq<nat>, ghost path: seq<Frame<D>>, ghost hp: nat)
    requires s.Valid() && Joining(s.cells, frozen, spine0, path0, root, pp0, target0, left0, l0, right0, r0)
    requires Uniform(l0, h) && Uniform(r0, h) && GoodPath(path0)
    modifies s
    ensures s.Valid() && GoodPath(path) && Extends(frozen, s.cells)
    ensures done ==> IsTree(s.cells, newRoot, Plug(path0, Joined(l0, r0, key, datum, h)))
    ensures !done ==>
              && Working(s.cells, frozen, spine, path, newRoot, pp, p, p, t, false)
              && t.Four? && !t.c1.Null? && 0 < hp <= h && Uniform(t, hp)
              && Plug(path0, Joined(l0, r0, key, datum, h)) == Plug(path, EntryDeleted(t, 5, hp))
  {
    hide Holds, Chain, Joining, Joined, EntryDeleted, Plug, Uniform, Working;
    var left, right := left0, right0;
    newRoot, pp, spine, path, hp := root, pp0, spine0, path0, h;
    ghost var l, r, target := l0, r0, target0;
    JoinTest(s.cells, frozen, spine, path, newRoot, pp, target, left, l, right, r, hp);
    while s.cells[left].p1 == 0
          || (CellType(s.cells[s.cells[left].p2]) == 2 && CellType(s.cells[s.cells[right].p1]) == 2)
      invariant s.Valid() && Joining(s.cells, frozen, spine, path, newRoot, pp, target, left, l, right, r)
      invariant 0 < hp <= h && Uniform(l, hp) && Uniform(r, hp) && JoinTested(s.cells, left, l, right, r)
      invariant GoodPath(path) && Plug(path0, Joined(l0, r0, key, datum, h)) == Plug(path, Joined(l, r, key, datum, hp))
      decreases hp
    {
      JoiningFacts(s.cells, frozen, spine, path, newRoot, pp, target, left, l, right, r);
      JoinedCases(l, r, key, datum, hp);
      if s.cells[left].p1 == 0 {
        newRoot := JoinLeaves(s, left, right, newRoot, pp, l, r, frozen, spine, path, target);
        return 0, true, newRoot, pp, Null, spine, path, hp;
      }
      ghost var f := Frame(Three(l.c1, l.k1, l.d1, Null, r.k1, r.d1, r.c2), 4);
      left, right, newRoot, pp, spine := JoinStep(s, left, right, newRoot, pp, l, r, frozen, spine, path, target);
      PlugPush(path, f, Joined(l.c2, r.c1, key, datum, hp - 1));
      path, target, l, r, hp := path + [f], 0, l.c2, r.c1, hp - 1;
      JoinTest(s.cells, frozen, spine, path, newRoot, pp, target, left, l, right, r, hp);
    }
    JoinedCases(l, r, key, datum, hp);
    JoinedForgets(l, r, key, datum, l.k1, l.d1, hp);
    JoinedCases(l, r, l.k1, l.d1, hp);
    t := Pair(l, r, l.k1, l.d1);
    p, newRoot := JoinPair(s, left, right, newRoot, pp, l, r, frozen, spine, path, target);
    WorkingFacts(s.cells, frozen, spine, path, newRoot, pp, p, p, t, false);
    done := false;
  }

  /** What the test of the loop finds in the cells. */
  ghost predicate JoinTested<D>(m: Cells<D>, left: nat, l: Node<D>, right: nat, r: Node<D>) {
    && l.Two? && r.Two? && left in m && m[left].Cell2? && right in m && m[right].Cell2?
    && (m[left].p1 == 0 <==> l.c1.Null?)
    && (m[left].p1 != 0 ==>
          && m[left].p2 in m && m[right].p1 in m
          && (m[m[left].p2].Cell2? <==> l.c2.Two?) && (m[m[right].p1].Cell2? <==> r.c1.Two?))
  }

  lemma JoinTest<D>(m: Cells<D>, frozen: Cells<D>, spine: seq<nat>, path: seq<Frame<D>>, newRoot: nat, pp: Slot,
                    target: nat, left: nat, l: Node<D>, right: nat, r: Node<D>, h: nat)
    requires Joining(m, frozen, spine, path, newRoot, pp, target, left, l, right, r) && Uniform(l, h) && Uniform(r, h)
    ensures JoinTested(m, left, l, right, r) && h > 0
  {
    KidUniform(l, 1, h);
    KidUniform(l, 4, h);
    KidUniform(r, 1, h);
    LeafTest(m, frozen, left, l, h);
    JoiningFacts(m, frozen, spine, path, newRoot, pp, target, left, l, right, r);
    if !l.c1.Null? {
      KidCells(m, frozen, m[left], l, 4);
      HoldsShape(frozen, m[m[left].p2], l.c2, 0);
      KidCells(m, frozen, m[right], r, 1);
      HoldsShape(frozen, m[m[right].p1], r.c1, 0);
    }
  }

  /** The cases of joining, one step deep. */
  lemma JoinedCases<D>(l: Node<D>, r: Node<D>, key: int, datum: D, h: nat)
    requires l.Two? && r.Two? && Uniform(l, h) && Uniform(r, h)
    ensures h > 0 && Uniform(Pair(l, r, key, datum), h)
    ensures l.c1.Null? ==> Joined(l, r, key, datum, h) == Three(Null, l.k1, l.d1, Null, r.k1, r.d1, Null)
                           && l.c2.Null? && r.c1.Null? && r.c2.Null?
    ensures !l.c1.Null? && l.c2.Two? && r.c1.Two? ==>
              && h > 1 && Uniform(l.c2, h - 1) && Uniform(r.c1, h - 1)
              && Joined(l, r, key, datum, h)
                 == Three(l.c1, l.k1, l.d1, Joined(l.c2, r.c1, key, datum, h - 1), r.k1, r.d1, r.c2)
              && Joined(l, r, key, datum, h)
                 == SetKid(Three(l.c1, l.k1, l.d1, Null, r.k1, r.d1, r.c2), 4, Joined(l.c2, r.c1, key, datum, h - 1))
    ensures !l.c1.Null? && !(l.c2.Two? && r.c1.Two?) ==>
              Joined(l, r, key, datum, h) == EntryDeleted(Pair(l, r, key, datum), 5, h)
  {
    hide EntryDeleted;
    KidUniform(l, 1, h);
    KidUniform(l, 4, h);
    KidUniform(r, 1, h);
    KidUniform(r, 4, h);
  }

  /** Two leaves are joined to a leaf with both entries. */
  method JoinLeaves<D(==)>(s: Store<Cell<D>>, left: nat, right: nat, root: nat, pp: Slot, ghost l: Node<D>, ghost r: Node<D>,
                           ghost frozen: Cells<D>, ghost spine: seq<nat>, ghost path: seq<Frame<D>>, ghost target: nat)
    returns (newRoot: nat)
    requires s.Valid() && Joining(s.cells, frozen, spine, path, root, pp, target, left, l, right, r)
    requires l.c1.Null? && l.c2.Null? && r.c1.Null? && r.c2.Null? && GoodPath(path)
    modifies s
    ensures s.Valid() && Extends(frozen, s.cells)
    ensures IsTree(s.cells, newRoot, Plug(path, Three(Null, l.k1, l.d1, Null, r.k1, r.d1, Null)))
  {
    hide Holds, Chain;
    JoiningFacts(s.cells, frozen, spine, path, root, pp, target, left, l, right, r);
    ChainIsPath(s.cells, frozen, spine, path, root, target);
    var a, b := s.cells[left], s.cells[right];
    JointHolds(frozen, a, l, b, r);
    ghost var before := s.cells;
    var joint := s.Allocate(Cell3(a.p1, a.k1, a.d1, 0, b.k1, b.d1, b.p2));
    ChainKept(before, s.cells, frozen, frozen, spine, path, root, target);
    newRoot := Finish(s, root, 0, pp, joint, Three(Null, l.k1, l.d1, Null, r.k1, r.d1, Null), frozen, spine, path, target);
  }

  /** The entry that goes is not read: what is left does not depend on it. */
  lemma {:induction false} EntryDeletedForgets<D>(p: Node<D>, i: nat, k: int, d: D, h: nat)
    requires IsEntry(p, i) && Uniform(p, h) && Uniform(SetEntry(p, i, k, d), h)
    ensures EntryDeleted(SetEntry(p, i, k, d), i, h) == EntryDeleted(p, i, h)
    decreases h, 0
  {
    hide TakeEnd;
    KidUniform(p, i - 1, h);
    KidUniform(p, i + 2, h);
    if !p.c1.Null? && NodeType(Kid(p, i + 2)) <= 2 && NodeType(Kid(p, i - 1)) <= 2 {
      JoinedForgets(Kid(p, i - 1), Kid(p, i + 2), Key(p, i), Datum(p, i), k, d, h - 1);
    }
  }

  lemma {:induction false} JoinedForgets<D>(l: Node<D>, r: Node<D>, key: int, datum: D, k: int, d: D, h: nat)
    requires l.Two? && r.Two? && Uniform(l, h) && Uniform(r, h)
    ensures Joined(l, r, key, datum, h) == Joined(l, r, k, d, h)
    decreases h, 1
  {
    hide EntryDeleted;
    KidUniform(l, 1, h);
    KidUniform(l, 4, h);
    KidUniform(r, 1, h);
    if !l.c1.Null? {
      if l.c2.Two? && r.c1.Two? {
        JoinedForgets(l.c2, r.c1, key, datum, k, d, h - 1);
      } else {
        assert Pair(l, r, k, d) == SetEntry(Pair(l, r, key, datum), 5, k, d);
        EntryDeletedForgets(Pair(l, r, key, datum), 5, k, d, h);
      }
    }
  }

  lemma PairHolds<D>(m: Cells<D>, a: Cell<D>, l: Node<D>, k: int, d: D, b: Cell<D>, r: Node<D>)
    requires Holds(m, a, l, 0) && Holds(m, b, r, 0) && l.Two? && r.Two?
    ensures a.Cell2? && b.Cell2? && Holds(m, MeltedCell(a, k, d, b), Pair(l, r, k, d), 0)
    ensures a.k1 == l.k1 && a.d1 == l.d1
  {
  }

  /** The 4-node in which the deletion goes on (ist234.c:1109-1128).  What its slots 5 and 6 hold is not
      known yet, and is not read: here it is the entry before. */
  method JoinPair<D(==)>(s: Store<Cell<D>>, left: nat, right: nat, root: nat, pp: Slot, ghost l: Node<D>, ghost r: Node<D>,
                         ghost frozen: Cells<D>, ghost spine: seq<nat>, ghost path: seq<Frame<D>>, ghost target: nat)
    returns (p: nat, newRoot: nat)
    requires s.Valid() && Joining(s.cells, frozen, spine, path, root, pp, target, left, l, right, r)
    modifies s
    ensures s.Valid() && Working(s.cells, frozen, spine, path, newRoot, pp, p, p, Pair(l, r, l.k1, l.d1), false)
  {
    hide Holds, Chain;
    JoiningFacts(s.cells, frozen, spine, path, root, pp, target, left, l, right, r);
    ChainIsPath(s.cells, frozen, spine, path, root, target);
    var a, b := s.cells[left], s.cells[right];
    ghost var before := s.cells;
    p := s.Allocate(MeltedCell(a, a.k1, a.d1, b));
    PairHolds(frozen, a, l, a.k1, a.d1, b, r);
    ChainKept(before, s.cells, frozen, frozen, spine, path, root, target);
    newRoot := Link(s, root, 0, pp, p, frozen, spine, path, target);
  }

  // ---------- deletion ----------

  /** The cases of deleting entry `i` above the leaves, one step deep. */
  lemma EntryDeletedCases<D>(p: Node<D>, i: nat, h: nat)
    requires IsEntry(p, i) && Uniform(p, h) && !p.c1.Null?
    ensures h > 1 && IsKid(p, i - 1) && IsKid(p, i + 2) && !Kid(p, i - 1).Null? && !Kid(p, i + 2).Null?
    ensures Uniform(Kid(p, i - 1), h - 1) && Uniform(Kid(p, i + 2), h - 1)
    ensures NodeType(Kid(p, i + 2)) > 2 ==>
              var r := TakeEnd(Kid(p, i + 2), false, h - 1);
              EntryDeleted(p, i, h) == SetKid(SetEntry(p, i, r.key, r.data), i + 2, r.rest)
    ensures NodeType(Kid(p, i + 2)) <= 2 < NodeType(Kid(p, i - 1)) ==>
              var r := TakeEnd(Kid(p, i - 1), true, h - 1);
              EntryDeleted(p, i, h) == SetKid(SetEntry(p, i, r.key, r.data), i - 1, r.rest)
    ensures NodeType(Kid(p, i + 2)) <= 2 && NodeType(Kid(p, i - 1)) <= 2 ==>
              && Kid(p, i - 1).Two? && Kid(p, i + 2).Two?
              && var joint := Joined(Kid(p, i - 1), Kid(p, i + 2), Key(p, i), Datum(p, i), h - 1);
                 && (p.Two? ==> EntryDeleted(p, i, h) == joint)
                 && (!p.Two? ==> IsKid(WithoutEntry(p, i, Null), i - 1)
                                 && EntryDeleted(p, i, h) == SetKid(WithoutEntry(p, i, Null), i - 1, joint))
  {
    hide TakeEnd, Joined;
    KidUniform(p, i - 1, h);
    KidUniform(p, i + 2, h);
  }

  /** The node is ready for its two kids around entry `i` to be joined: without the entry, unless it was the only one. */
  method RemoveForJoining<D(==)>(s: Store<Cell<D>>, p: nat, i: nat, isNotCopiedYet: bool, root: nat, pp0: Slot,
                                 ghost frozen: Cells<D>, ghost spine0: seq<nat>, ghost path0: seq<Frame<D>>,
                                 ghost target0: nat, ghost t: Node<D>, ghost h: nat)
    returns (newRoot: nat, pp: Slot, ghost spine: seq<nat>, ghost path: seq<Frame<D>>, ghost target: nat)
    requires s.Valid() && Working(s.cells, frozen, spine0, path0, root, pp0, target0, p, t, isNotCopiedYet) && GoodPath(path0)
    requires IsEntry(t, i) && Uniform(t, h) && !t.c1.Null? && (t.Two? ==> root == 0)
    requires IsKid(t, i - 1) && IsKid(t, i + 2) && Kid(t, i - 1).Two? && Kid(t, i + 2).Two?
    modifies s
    ensures s.Valid() && GoodPath(path) && h > 1
    ensures p in old(s.cells) && HasKid(old(s.cells)[p], i - 1) && HasKid(old(s.cells)[p], i + 2)
    ensures Joining(s.cells, frozen, spine, path, newRoot, pp, target, Ptr(old(s.cells)[p], i - 1), Kid(t, i - 1),
                    Ptr(old(s.cells)[p], i + 2), Kid(t, i + 2))
    ensures Plug(path0, EntryDeleted(t, i, h)) ==
            Plug(path, Joined(Kid(t, i - 1), Kid(t, i + 2), Key(t, i), Datum(t, i), h - 1))
  {
    hide Holds, Chain, Joined, EntryDeleted, WithoutEntry, CellWithoutEntry, SetKid;
    WorkingFacts(s.cells, frozen, spine0, path0, root, pp0, target0, p, t, isNotCopiedYet);
    EntryDeletedCases(t, i, h);
    var c := s.cells[p];
    HoldsShape(frozen, c, t, 0);
    HoldsKid(frozen, c, t, 0, i - 1);
    HoldsKid(frozen, c, t, 0, i + 2);
    newRoot, pp, spine, path, target := root, pp0, spine0, path0, target0;
    if CellType(c) > 2 {
      HoldsWithoutEntry(frozen, c, t, i, 0, Null);
      ghost var f := Frame(WithoutEntry(t, i, Null), i - 1);
      PlugPush(path0, f, Joined(Kid(t, i - 1), Kid(t, i + 2), Key(t, i), Datum(t, i), h - 1));
      var q;
      q, newRoot, pp := Extend(s, CellWithoutEntry(c, i, 0), i - 1, root, p, pp0, f.node, frozen, spine0, path0, target0);
      spine, path, target := spine0 + [q], path0 + [f], 0;
    }
  }

  /** Entry `i` of a node that has been found (ist234.c:935-1195). */
  method DeleteEntry<D(==)>(s: Store<Cell<D>>, p0: nat, i0: nat, isNotCopied0: bool, root: nat, pp0: Slot,
                            ghost frozen: Cells<D>, ghost spine0: seq<nat>, ghost path0: seq<Frame<D>>,
                            ghost target0: nat, ghost t0: Node<D>, ghost h: nat)
    returns (r: nat)
    requires s.Valid() && Working(s.cells, frozen, spine0, path0, root, pp0, target0, p0, t0, isNotCopied0) && GoodPath(path0)
    requires IsEntry(t0, i0) && Uniform(t0, h) && (t0.Two? ==> root == 0)
    modifies s
    ensures s.Valid() && Extends(frozen, s.cells)
    ensures IsTree(s.cells, r, Plug(path0, EntryDeleted(t0, i0, h)))
  {
    hide Holds, Chain, Working, Joining, Joined, EntryDeleted, TakeEnd, Plug, Uniform, SetKid, SetEntry, WithoutEntry, Extends;
    WorkingFacts(s.cells, frozen, spine0, path0, root, pp0, target0, p0, t0, isNotCopied0);
    LeafTest(s.cells, frozen, p0, t0, h);
    if s.cells[p0].p1 == 0 {
      LeafDeleted(t0, i0, h);
      r := DeleteLeaf(s, p0, i0, isNotCopied0, root, pp0, frozen, spine0, path0, target0, t0);
      return;
    }
    var p, i, isNotCopiedYet, newRoot, pp := p0, i0, isNotCopied0, root, pp0;
    ghost var spine, path, target, t := spine0, path0, target0, t0;
    ghost var hp: nat := h;
    while true
      invariant s.Valid() && Working(s.cells, frozen, spine, path, newRoot, pp, target, p, t, isNotCopiedYet) && GoodPath(path)
      invariant IsEntry(t, i) && Uniform(t, hp) && !t.c1.Null? && (t.Two? ==> newRoot == 0)
      invariant Plug(path0, EntryDeleted(t0, i0, h)) == Plug(path, EntryDeleted(t, i, hp))
      decreases hp
    {
      WorkingFacts(s.cells, frozen, spine, path, newRoot, pp, target, p, t, isNotCopiedYet);
      EntryDeletedCases(t, i, hp);
      var c := s.cells[p];
      HoldsShape(frozen, c, t, 0);
      KidCells(s.cells, frozen, c, t, i - 1);
      KidCells(s.cells, frozen, c, t, i + 2);
      HoldsShape(frozen, s.cells[Ptr(c, i - 1)], Kid(t, i - 1), 0);
      HoldsShape(frozen, s.cells[Ptr(c, i + 2)], Kid(t, i + 2), 0);
      var left, right := Ptr(c, i - 1), Ptr(c, i + 2);
      if CellType(s.cells[right]) > 2 || CellType(s.cells[left]) > 2 {
        var last := CellType(s.cells[right]) <= 2;
        var q;
        q, newRoot := Own(s, p, isNotCopiedYet, newRoot, pp, frozen, spine, path, target, t);
        r := ReplaceByEnd(s, q, i, last, newRoot, pp, frozen, spine, path, t, hp);
        return;
      }
      ghost var key, datum, l0, r0 := Key(t, i), Datum(t, i), Kid(t, i - 1), Kid(t, i + 2);
      newRoot, pp, spine, path, target :=
        RemoveForJoining(s, p, i, isNotCopiedYet, newRoot, pp, frozen, spine, path, target, t, hp);
      var done;
      p, done, newRoot, pp, t, spine, path, hp :=
        JoinKids(s, left, right, newRoot, pp, l0, r0, key, datum, frozen, spine, path, target, hp - 1);
      if done {
        return newRoot;
      }
      i, isNotCopiedYet, target := 5, false, p;
    }
  }

  lemma LeafDeleted<D>(p: Node<D>, i: nat, h: nat)
    requires IsEntry(p, i) && Uniform(p, h) && p.c1.Null?
    ensures EntryDeleted(p, i, h) == if p.Two? then Null else WithoutEntry(p, i, Null)
  {
  }

  /** What the whole deletion gives, from what it gives for the node the pass has reached. */
  ghost predicate Reached<D>(root: Node<D>, key: int, change: Option<D -> D>, h: nat, path: seq<Frame<D>>, p: Node<D>, hp: nat)
    requires Uniform(root, h) && Uniform(p, hp) && GoodPath(path)
  {
    && Lookup(root, key) == Lookup(p, key)
    && (Deleted(root, key, change, h).Some? <==> Deleted(p, key, change, hp).Some?)
    && (Deleted(p, key, change, hp).Some? ==> Deleted(root, key, change, h).value == Plug(path, Deleted(p, key, change, hp).value))
  }

  /** The datum of an entry is changed in the node, or in a copy of it (ist234.c:915-930). */
  method ChangeEntry<D(==)>(s: Store<Cell<D>>, p: nat, i: nat, d: D, isNotCopiedYet: bool, root: nat, pp: Slot,
                            ghost frozen: Cells<D>, ghost spine: seq<nat>, ghost path: seq<Frame<D>>,
                            ghost target: nat, ghost t: Node<D>)
    returns (r: nat)
    requires s.Valid() && Working(s.cells, frozen, spine, path, root, pp, target, p, t, isNotCopiedYet)
    requires GoodPath(path) && IsEntry(t, i)
    modifies s
    ensures s.Valid() && Extends(frozen, s.cells)
    ensures IsTree(s.cells, r, Plug(path, SetEntry(t, i, Key(t, i), d)))
  {
    hide Holds, Chain, SetEntry, Plug;
    var q;
    q, r := Own(s, p, isNotCopiedYet, root, pp, frozen, spine, path, target, t);
    HoldsShape(frozen, s.cells[q], t, 0);
    HoldsEntry(frozen, s.cells[q], t, 0, i, Key(t, i), d);
    ChainIsPath(s.cells, frozen, spine, path, r, q);
    ghost var before := s.cells;
    s.cells := s.cells[q := SetCellEntry(s.cells[q], i, CellKey(s.cells[q], i), d)];
    ghost var n := SetEntry(t, i, Key(t, i), d);
    ghost var more := frozen[q := s.cells[q]];
    HoldsKept(frozen, more, s.cells[q], n, 0);
    ChainKept(before, s.cells, frozen, more, spine, path, r, q);
    SetEntryIsNode(t, i, Key(t, i), d);
    ChainClosed(s.cells, more, spine, path, r, q, n);
  }

  lemma SetEntryIsNode<D>(t: Node<D>, i: nat, k: int, d: D)
    requires IsEntry(t, i)
    ensures !SetEntry(t, i, k, d).Null?
  {
  }

  /** Where the search has come to: the node `t` of height `h`, with keys between `lo` and `hi`, and what has
      been made on the way. */
  datatype Way<D> = Way(frozen: Cells<D>, spine: seq<nat>, path: seq<Frame<D>>, target: nat, t: Node<D>, h: nat, lo: End, hi: End)

  ghost predicate OnWay<D>(cells0: Cells<D>, ap: nat, m: Cells<D>, next: nat, w: Way<D>, newRoot: nat, pp: Slot, p: nat,
                           isNotCopiedYet: bool, t0: Node<D>, key: int, change: Option<D -> D>, h: nat)
    requires Uniform(t0, h)
  {
    && Working(m, w.frozen, w.spine, w.path, newRoot, pp, w.target, p, w.t, isNotCopiedYet)
    && GoodPath(w.path) && !w.t.Null? && (w.t.Two? ==> newRoot == 0)
    && Extends(cells0, w.frozen) && Grew(cells0, ap, m, next)
    && Uniform(w.t, w.h) && Ordered(w.t, w.lo, w.hi) && Reached(t0, key, change, h, w.path, w.t, w.h)
    && !t0.Null? && if next == ap then w.t == t0 && isNotCopiedYet else next > ap && !Compare(t0, key).AtEntry?
  }

  lemma OnWayFacts<D>(cells0: Cells<D>, ap: nat, m: Cells<D>, next: nat, w: Way<D>, newRoot: nat, pp: Slot, p: nat,
                      isNotCopiedYet: bool, t0: Node<D>, key: int, change: Option<D -> D>, h: nat)
    requires Uniform(t0, h) && OnWay(cells0, ap, m, next, w, newRoot, pp, p, isNotCopiedYet, t0, key, change, h)
    ensures p in m && Holds(w.frozen, m[p], w.t, 0) && Extends(w.frozen, m) && 0 !in m && !w.t.Null?
    ensures Uniform(w.t, w.h) && Reached(t0, key, change, h, w.path, w.t, w.h) && GoodPath(w.path)
  {
    WorkingFacts(m, w.frozen, w.spine, w.path, newRoot, pp, w.target, p, w.t, isNotCopiedYet);
  }

  /** On to a kid with more than two: the node is copied. */
  method EnterLarge<D(==)>(s: Store<Cell<D>>, p0: nat, ix: nat, isNotCopiedYet: bool, root: nat, pp0: Slot, ghost w0: Way<D>,
                           ghost cells0: Cells<D>, ghost ap: nat, ghost t0: Node<D>, key: int, ghost change: Option<D -> D>, ghost h: nat)
    returns (p: nat, newRoot: nat, pp: Slot, place: Place, ghost w: Way<D>)
    requires s.Valid() && Uniform(t0, h)
    requires OnWay(cells0, ap, s.cells, s.next, w0, root, pp0, p0, isNotCopiedYet, t0, key, change, h)
    requires Compare(w0.t, key) == InKid(ix) && IsKid(w0.t, ix) && NodeType(Kid(w0.t, ix)) > 2
    modifies s
    ensures s.Valid() && OnWay(cells0, ap, s.cells, s.next, w, newRoot, pp, p, true, t0, key, change, h)
    ensures place == Compare(w.t, key) && w.h < w0.h
  {
    hide Holds, Chain, Working, Uniform, Ordered, Reached, Compare, KidLow, KidHigh, Extends, Grew, Plug, Deleted, DeletedBelow, IsTree, SlotIsOpen, SetKid, Lookup;
    ghost var before, mid, t := s.cells, s.next, w0.t;
    WorkingFacts(s.cells, w0.frozen, w0.spine, w0.path, root, pp0, w0.target, p0, t, isNotCopiedYet);
    KidUniform(t, ix, w0.h);
    KidOrdered(t, w0.lo, w0.hi, ix);
    Enter(t0, key, change, h, w0.path, t, w0.h, ix);
    var q;
    q, newRoot := Own(s, p0, isNotCopiedYet, root, pp0, w0.frozen, w0.spine, w0.path, w0.target, t);
    GrewOn(cells0, ap, before, mid, s.cells, s.next);
    GrewNext(before, mid, s.cells, s.next);
    WorkingFacts(s.cells, w0.frozen, w0.spine, w0.path, newRoot, pp0, q, q, t, false);
    Stepped(s.cells, w0.frozen, w0.spine, w0.path, newRoot, pp0, q, t, ix);
    pp, p := Slot(q, ix), Ptr(s.cells[q], ix);
    w := Way(w0.frozen, w0.spine + [q], w0.path + [Frame(t, ix)], p, Kid(t, ix), w0.h - 1,
             KidLow(t, ix, w0.lo), KidHigh(t, ix, w0.hi));
    WorkingFacts(s.cells, w.frozen, w.spine, w.path, newRoot, pp, p, p, w.t, true);
    HoldsKept(w.frozen, s.cells, s.cells[p], w.t, 0);
    place := ComparePlaces(s.cells[p], key, s.cells, w.t);
  }

  /** On to a kid that is a 2-node: the node is transformed. */
  method EnterSmall<D(==)>(s: Store<Cell<D>>, p0: nat, ix0: nat, isNotCopiedYet: bool, root: nat, pp0: Slot, ghost w0: Way<D>,
                           ghost cells0: Cells<D>, ghost ap: nat, ghost t0: Node<D>, key: int, ghost change: Option<D -> D>, ghost h: nat)
    returns (p: nat, newRoot: nat, pp: Slot, place: Place, ghost w: Way<D>)
    requires s.Valid() && Uniform(t0, h)
    requires OnWay(cells0, ap, s.cells, s.next, w0, root, pp0, p0, isNotCopiedYet, t0, key, change, h)
    requires Compare(w0.t, key) == InKid(ix0) && IsKid(w0.t, ix0) && Kid(w0.t, ix0).Two? && !Brother(w0.t, ix0).Null?
    modifies s
    ensures s.Valid() && OnWay(cells0, ap, s.cells, s.next, w, newRoot, pp, p, false, t0, key, change, h)
    ensures place == Compare(w.t, key) && w.h < w0.h
  {
    hide Holds, Chain, Working, Uniform, Ordered, Reached, Compare, KidLow, KidHigh, Extends, Grew, Plug, Deleted, DeletedBelow, Transform;
    ghost var before, mid, t := s.cells, s.next, w0.t;
    WorkingFacts(s.cells, w0.frozen, w0.spine, w0.path, root, pp0, w0.target, p0, t, isNotCopiedYet);
    TransformUniform(t, ix0, w0.h);
    TransformOrdered(t, ix0, w0.lo, w0.hi);
    TransformCompare(t, ix0, w0.lo, w0.hi, key);
    EnterTransformed(t0, key, change, h, w0.path, t, w0.h, ix0, w0.lo, w0.hi);
    ghost var made := Transform(t, ix0);
    var ix, iOfKey;
    ghost var frozen, spine;
    p, ix, iOfKey, newRoot, pp, frozen, spine :=
      TransformAndLink(s, p0, ix0, isNotCopiedYet, root, pp0, w0.frozen, w0.spine, w0.path, w0.target, t);
    ExtendsOn(cells0, w0.frozen, frozen);
    GrewOn(cells0, ap, before, mid, s.cells, s.next);
    GrewNext(cells0, ap, before, mid);
    if made.levels == 1 {
      w := Way(frozen, spine, w0.path, p, made.node, w0.h - 1, w0.lo, w0.hi);
    } else {
      KidOrdered(made.node, w0.lo, w0.hi, made.ix);
      w := Way(frozen, spine, w0.path + [Frame(made.node, made.ix)], p, Kid(made.node, made.ix), w0.h - 1,
               KidLow(made.node, made.ix, w0.lo), KidHigh(made.node, made.ix, w0.hi));
    }
    WorkingFacts(s.cells, frozen, spine, w.path, newRoot, pp, p, p, w.t, false);
    HoldsShape(frozen, s.cells[p], w.t, 0);
    var k := CellKey(s.cells[p], iOfKey);
    place := if key == k then AtEntry(iOfKey)
    else if key < k then InKid(iOfKey - 1) else InKid(iOfKey + 2);
  }

  /** The search for the key, which copies on its way and enlarges each 2-node before it is entered. */
  method Search<D(==)>(s: Store<Cell<D>>, root: nat, key: int, ghost t0: Node<D>, ghost change: Option<D -> D>, ghost h: nat)
    returns (found: bool, p: nat, i: nat, isNotCopiedYet: bool, newRoot: nat, pp: Slot, ghost w: Way<D>)
    requires s.Valid() && root != 0 && IsTree(s.cells, root, t0) && Ordered(t0, Open, Open) && Uniform(t0, h)
    modifies s
    ensures s.Valid() && Extends(old(s.cells), w.frozen) && Extends(w.frozen, s.cells)
    ensures Grew(old(s.cells), old(s.next), s.cells, s.next)
    ensures !found ==> Lookup(t0, key).None?
    ensures found ==>
              && OnWay(old(s.cells), old(s.next), s.cells, s.next, w, newRoot, pp, p, isNotCopiedYet, t0, key, change, h)
              && Compare(w.t, key) == AtEntry(i)
  {
    hide Holds, Working, Uniform, Ordered, Reached, Compare, Extends, Grew, OnWay, Lookup;
    ghost var cells0, ap := s.cells, s.next;
    p, i, isNotCopiedYet, newRoot, pp := root, 0, true, 0, Slot(0, 0);
    w := Way(s.cells, [], [], 0, t0, h, Open, Open);
    StartOnWay(s.cells, ap, root, t0, pp, key, change, h);
    var place := ComparePlaces(s.cells[p], key, s.cells, t0);
    while place.InKid?
      invariant s.Valid() && !w.t.Null? && place == Compare(w.t, key)
      invariant OnWay(cells0, ap, s.cells, s.next, w, newRoot, pp, p, isNotCopiedYet, t0, key, change, h)
      decreases w.h
    {
      var ix := place.ix;
      OnWayFacts(cells0, ap, s.cells, s.next, w, newRoot, pp, p, isNotCopiedYet, t0, key, change, h);
      WayKid(s.cells, w, p, key, ix);
      if Ptr(s.cells[p], ix) == 0 {
        ReachedNothing(t0, key, change, h, w.path, w.t, w.h, ix);
        WayGrew(cells0, ap, s.cells, s.next, w, newRoot, pp, p, isNotCopiedYet, t0, key, change, h);
        found := false;
        return;
      }
      if CellType(s.cells[Ptr(s.cells[p], ix)]) > 2 {
        p, newRoot, pp, place, w := EnterLarge(s, p, ix, isNotCopiedYet, newRoot, pp, w, cells0, ap, t0, key, change, h);
        isNotCopiedYet := true;
      } else {
        p, newRoot, pp, place, w := EnterSmall(s, p, ix, isNotCopiedYet, newRoot, pp, w, cells0, ap, t0, key, change, h);
        isNotCopiedYet := false;
      }
      OnWayFacts(cells0, ap, s.cells, s.next, w, newRoot, pp, p, isNotCopiedYet, t0, key, change, h);
    }
    WayGrew(cells0, ap, s.cells, s.next, w, newRoot, pp, p, isNotCopiedYet, t0, key, change, h);
    found, i := true, place.i;
  }

  lemma StartOnWay<D>(m: Cells<D>, ap: nat, root: nat, t: Node<D>, pp: Slot, key: int, change: Option<D -> D>, h: nat)
    requires IsTree(m, root, t) && root != 0 && 0 !in m && Ordered(t, Open, Open) && Uniform(t, h)
    ensures root in m && Holds(m, m[root], t, 0) && !t.Null?
    ensures OnWay(m, ap, m, ap, Way(m, [], [], 0, t, h, Open, Open), 0, pp, root, true, t, key, change, h)
  {
    hide Holds, Working, Uniform, Ordered, Reached, Compare;
    NothingGrew(m, ap);
    StartWorking(m, root, t, pp);
    ReachedStart(t, key, change, h);
  }

  lemma WayGrew<D>(cells0: Cells<D>, ap: nat, m: Cells<D>, next: nat, w: Way<D>, newRoot: nat, pp: Slot, p: nat,
                   isNotCopiedYet: bool, t0: Node<D>, key: int, change: Option<D -> D>, h: nat)
    requires Uniform(t0, h) && OnWay(cells0, ap, m, next, w, newRoot, pp, p, isNotCopiedYet, t0, key, change, h)
    ensures Extends(cells0, w.frozen) && Extends(w.frozen, m) && Grew(cells0, ap, m, next)
  {
  }

  /** The kid that the search goes on to. */
  lemma WayKid<D>(m: Cells<D>, w: Way<D>, p: nat, key: int, ix: nat)
    requires p in m && Holds(w.frozen, m[p], w.t, 0) && Extends(w.frozen, m) && 0 !in m && !w.t.Null?
    requires Uniform(w.t, w.h) && Compare(w.t, key) == InKid(ix)
    ensures IsKid(w.t, ix) && HasKid(m[p], ix) && (Ptr(m[p], ix) == 0 <==> Kid(w.t, ix).Null?)
    ensures Ptr(m[p], ix) != 0 ==>
              && Ptr(m[p], ix) in m && CellType(m[Ptr(m[p], ix)]) == NodeType(Kid(w.t, ix)) >= 2
              && !Brother(w.t, ix).Null? && (NodeType(Kid(w.t, ix)) == 2 ==> Kid(w.t, ix).Two?)
  {
    KidUniform(w.t, ix, w.h);
    HoldsKid(w.frozen, m[p], w.t, 0, ix);
    if Ptr(m[p], ix) != 0 {
      KidCells(m, w.frozen, m[p], w.t, ix);
      HoldsShape(w.frozen, m[Ptr(m[p], ix)], Kid(w.t, ix), 0);
    }
  }

  lemma NothingGrew<D>(cells: Cells<D>, next: nat)
    ensures Extends(cells, cells) && Grew(cells, next, cells, next)
  {
  }

  lemma GrewNext<D>(before: Cells<D>, ap: nat, cells: Cells<D>, next: nat)
    requires Grew(before, ap, cells, next)
    ensures ap <= next
  {
  }

  /** `ist234_delete`: the tree without the key, or with its datum changed by a `delete_fun`, hangs from `r`, and
      every cell from before the call is as it was.  If the key is not there, nothing at all has been allocated;
      a change without effect returns the given root, but gives nothing back of what the search has copied. */
  method Delete<D(==)>(s: Store<Cell<D>>, root: nat, key: int, deleteFun: Option<D -> D>, ghost t0: Node<D>, ghost h: nat)
    returns (r: nat)
    requires s.Valid() && IsTree(s.cells, root, t0) && Ordered(t0, Open, Open) && Uniform(t0, h)
    modifies s
    ensures s.Valid() && Extends(old(s.cells), s.cells) && IsTree(s.cells, r, Removed(t0, key, deleteFun, h))
    ensures Lookup(t0, key).None? ==> r == root && s.cells == old(s.cells) && s.next == old(s.next)
    ensures deleteFun.Some? && Lookup(t0, key).Some? && deleteFun.value(Lookup(t0, key).value) == Lookup(t0, key).value ==>
              r == root && !t0.Null? && (s.next == old(s.next) <==> Compare(t0, key).AtEntry?)
  {
    hide Holds, Chain, Working, Deleted, EntryHandled, Plug, Uniform, Ordered, Lookup, Reached, Compare, Extends, Grew, Removed, NoEffect, IsTree, SetEntry, OnWay;
    ghost var cells0 := s.cells;
    NothingGrew(cells0, s.next);
    if root == 0 {
      NullRemoved(cells0, t0, key, deleteFun, h);
      return root;
    }
    var ap := s.next;
    AbsentRemoved(t0, key, deleteFun, h);
    if Lookup(t0, key).Some? {
      NoEffectIs(t0, key, deleteFun, Lookup(t0, key).value);
    }
    var found, p, i, isNotCopiedYet, newRoot, pp;
    ghost var w;
    found, p, i, isNotCopiedYet, newRoot, pp, w := Search(s, root, key, t0, deleteFun, h);
    ExtendsOn(cells0, w.frozen, s.cells);
    if !found {
      s.Restore(ap, cells0);
      return root;
    }
    Found(cells0, ap, s.cells, s.next, w, newRoot, pp, p, isNotCopiedYet, t0, key, deleteFun, h, i);
    if deleteFun.Some? {
      var datum := CellDatum(s.cells[p], i);
      var d := deleteFun.value(datum);
      if d == datum {
        TreeKept(cells0, s.cells, root, t0);
        return root;
      }
      r := ChangeEntry(s, p, i, d, isNotCopiedYet, newRoot, pp, w.frozen, w.spine, w.path, w.target, w.t);
    } else {
      r := DeleteEntry(s, p, i, isNotCopiedYet, newRoot, pp, w.frozen, w.spine, w.path, w.target, w.t, w.h);
    }
    ExtendsOn(cells0, w.frozen, s.cells);
  }

  /** What is known when the entry has been found. */
  lemma Found<D>(cells0: Cells<D>, ap: nat, m: Cells<D>, next: nat, w: Way<D>, newRoot: nat, pp: Slot, p: nat,
                 isNotCopiedYet: bool, t0: Node<D>, key: int, change: Option<D -> D>, h: nat, i: nat)
    requires Uniform(t0, h) && OnWay(cells0, ap, m, next, w, newRoot, pp, p, isNotCopiedYet, t0, key, change, h)
    requires !w.t.Null? && Compare(w.t, key) == AtEntry(i)
    ensures Working(m, w.frozen, w.spine, w.path, newRoot, pp, w.target, p, w.t, isNotCopiedYet) && GoodPath(w.path)
    ensures Uniform(w.t, w.h) && (w.t.Two? ==> newRoot == 0) && IsEntry(w.t, i)
    ensures p in m && HasEntry(m[p], i) && CellDatum(m[p], i) == Datum(w.t, i)
    ensures !t0.Null? && Lookup(t0, key).Some? && (next == ap <==> Compare(t0, key).AtEntry?)
    ensures NoEffect(t0, key, change) <==> change.Some? && change.value(Datum(w.t, i)) == Datum(w.t, i)
    ensures NoEffect(t0, key, change) ==> Removed(t0, key, change, h) == t0
    ensures !NoEffect(t0, key, change) ==>
              Removed(t0, key, change, h)
              == Plug(w.path, if change.None? then EntryDeleted(w.t, i, w.h)
                              else SetEntry(w.t, i, Key(w.t, i), change.value(Datum(w.t, i))))
  {
    hide Working, Deleted, EntryHandled, EntryDeleted, Plug, Uniform, Ordered, Lookup, Reached, Removed, NoEffect, SetEntry, Extends, Grew;
    OnWayFacts(cells0, ap, m, next, w, newRoot, pp, p, isNotCopiedYet, t0, key, change, h);
    ReachedEntry(t0, key, change, h, w.path, w.t, w.h, i);
    NoEffectIs(t0, key, change, Datum(w.t, i));
    HoldsShape(w.frozen, m[p], w.t, 0);
  }

  lemma NullRemoved<D>(m: Cells<D>, t: Node<D>, key: int, change: Option<D -> D>, h: nat)
    requires IsTree(m, 0, t) && Uniform(t, h)
    ensures Removed(t, key, change, h) == t && Lookup(t, key).None? && !NoEffect(t, key, change)
  {
  }

  lemma AbsentRemoved<D>(t: Node<D>, key: int, change: Option<D -> D>, h: nat)
    requires Uniform(t, h) && Ordered(t, Open, Open)
    ensures Lookup(t, key).None? ==> Removed(t, key, change, h) == t && !NoEffect(t, key, change)
  {
    hide Deleted, Lookup, Ordered;
    DeletedKeeps(t, key, change, h, Open, Open, key);
  }

  lemma NoEffectIs<D>(t: Node<D>, key: int, change: Option<D -> D>, d: D)
    requires Lookup(t, key) == Some(d)
    ensures NoEffect(t, key, change) <==> change.Some? && change.value(d) == d
  {
  }

  /** At the start nothing has been copied, and no cell that is there may be written to. */
  lemma StartWorking<D>(m: Cells<D>, root: nat, t: Node<D>, pp: Slot)
    requires IsTree(m, root, t) && root != 0 && 0 !in m
    ensures Working(m, m, [], [], 0, pp, 0, root, t, true) && root in m && Holds(m, m[root], t, 0) && !t.Null?
  {
  }

  /** The cases of deletion, one step deep. */
  lemma DeletedCases<D>(t: Node<D>, key: int, change: Option<D -> D>, h: nat)
    requires Uniform(t, h)
    ensures t.Null? ==> Deleted(t, key, change, h) == None
    ensures !t.Null? && Compare(t, key).AtEntry? ==>
              IsEntry(t, Compare(t, key).i) && Deleted(t, key, change, h) == Some(EntryHandled(t, Compare(t, key).i, change, h))
    ensures !t.Null? && Compare(t, key).InKid? ==>
              var ix := Compare(t, key).ix; IsKid(t, ix) && (Kid(t, ix).Null? ==> Deleted(t, key, change, h) == None)
  {
    hide EntryHandled;
  }

  lemma ReachedStart<D>(t: Node<D>, key: int, change: Option<D -> D>, h: nat)
    requires Uniform(t, h)
    ensures Reached(t, key, change, h, [], t, h)
  {
    hide Deleted;
  }

  lemma ReachedNothing<D>(root: Node<D>, key: int, change: Option<D -> D>, h: nat, path: seq<Frame<D>>, t: Node<D>, hp: nat, ix: nat)
    requires Uniform(root, h) && Uniform(t, hp) && GoodPath(path) && Reached(root, key, change, h, path, t, hp)
    requires !t.Null? && Compare(t, key) == InKid(ix) && IsKid(t, ix) && Kid(t, ix).Null?
    ensures Lookup(root, key).None?
  {
    hide Deleted;
    AnswerInKid(t, key, ix);
  }

  lemma ReachedEntry<D>(root: Node<D>, key: int, change: Option<D -> D>, h: nat, path: seq<Frame<D>>, t: Node<D>, hp: nat, i: nat)
    requires Uniform(root, h) && Uniform(t, hp) && GoodPath(path) && Reached(root, key, change, h, path, t, hp)
    requires !t.Null? && Compare(t, key) == AtEntry(i)
    ensures IsEntry(t, i) && Lookup(root, key) == Some(Datum(t, i))
    ensures Removed(root, key, change, h) == if NoEffect(root, key, change) then root
                                             else Plug(path, EntryHandled(t, i, change, hp))
    ensures EntryHandled(t, i, change, hp) == if change.None? then EntryDeleted(t, i, hp)
                                              else SetEntry(t, i, Key(t, i), change.value(Datum(t, i)))
  {
    hide Deleted, EntryDeleted;
    AnswerAtEntry(t, key);
    DeletedCases(t, key, change, hp);
  }

  lemma Enter<D>(root: Node<D>, key: int, change: Option<D -> D>, h: nat, path: seq<Frame<D>>, p: Node<D>, hp: nat, ix: nat)
    requires Uniform(root, h) && Uniform(p, hp) && GoodPath(path) && Reached(root, key, change, h, path, p, hp)
    requires p != Null && Compare(p, key) == InKid(ix) && NodeType(Kid(p, ix)) > 2
    ensures hp > 0 && Uniform(Kid(p, ix), hp - 1) && GoodPath(path + [Frame(p, ix)])
    ensures Reached(root, key, change, h, path + [Frame(p, ix)], Kid(p, ix), hp - 1)
  {
    KidUniform(p, ix, hp);
    AnswerInKid(p, key, ix);
    assert Deleted(p, key, change, hp) == DeletedBelow(p, ix, key, change, hp);
    var below := Deleted(Kid(p, ix), key, change, hp - 1);
    PlugPush(path, Frame(p, ix), if below.Some? then below.value else Null);
  }

  lemma EnterTransformed<D>(root: Node<D>, key: int, change: Option<D -> D>, h: nat, path: seq<Frame<D>>, p: Node<D>,
                           hp: nat, ix: nat, lo: End, hi: End)
    requires Uniform(root, h) && Uniform(p, hp) && GoodPath(path) && Reached(root, key, change, h, path, p, hp)
    requires p != Null && Compare(p, key) == InKid(ix) && Kid(p, ix).Two? && Brother(p, ix) != Null && Ordered(p, lo, hi)
    ensures hp > 1
    ensures var t := Transform(p, ix);
            && (t.levels == 1 ==> Uniform(t.node, hp - 1) && Reached(root, key, change, h, path, t.node, hp - 1))
            && (t.levels == 2 ==>
                  && Uniform(Kid(t.node, t.ix), hp - 1) && GoodPath(path + [Frame(t.node, t.ix)])
                  && Reached(root, key, change, h, path + [Frame(t.node, t.ix)], Kid(t.node, t.ix), hp - 1))
  {
    TransformUniform(p, ix, hp);
    TransformLookup(p, ix, lo, hi, key);
    TransformCompare(p, ix, lo, hi, key);
    assert Deleted(p, key, change, hp) == DeletedBelow(p, ix, key, change, hp);
    var t := Transform(p, ix);
    if t.levels == 2 {
      AnswerInKid(t.node, key, t.ix);
      KidUniform(t.node, t.ix, hp);
      var below := Deleted(Kid(t.node, t.ix), key, change, hp - 1);
      PlugPush(path, Frame(t.node, t.ix), if below.Some? then below.value else Null);
    }
  }
}
