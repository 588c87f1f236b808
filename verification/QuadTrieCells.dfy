/** The cells of trie.c: which trie hangs from a word, and the path of new cells of a call, which may still be
    written to while all others are frozen. */
module QuadTrieCells {

  import opened Wrappers
  import opened CellStore
  import opened TrieKeys
  import opened QuadTrie

  /** A word of a node: nothing, a pointer to a node, or, where the key has been used up, to a datum. */
  datatype Word<D> = NullWord | Ptr(p: nat) | Datum(value: D)

  /** `CELL_quad_trie`: the prefix in the header word, and a slot for each digit. */
  datatype Cell<D> = Cell(prefix: Key, slots: seq<Word<D>>)

  type Cells<D> = map<nat, Cell<D>>

  /** No slot is left out. */
  const NO_HOLE: nat := 4

  ghost predicate IsTrie<D>(m: Cells<D>, w: Word<D>, t: Trie<D>)
    decreases t, 1
  {
    match t
    case Null => w == NullWord
    case Data(v) => w == Datum(v)
    case Node(_, _) => w.Ptr? && w.p in m && Holds(m, m[w.p], t, NO_HOLE)
  }

  /** Cell `c` is the root of `t`, except that its slot `hole` may have any word. */
  ghost predicate Holds<D>(m: Cells<D>, c: Cell<D>, t: Trie<D>, hole: nat)
    decreases t, 0
  {
    && t.Node? && |t.sons| == 4 == |c.slots| && c.prefix == t.prefix
    && forall i | 0 <= i < 4 :: i == hole || IsTrie(m, c.slots[i], t.sons[i])
  }

  /** New cells cannot be seen from an older trie. */
  lemma {:induction false} TrieKept<D>(m: Cells<D>, g: Cells<D>, w: Word<D>, t: Trie<D>)
    requires IsTrie(m, w, t) && Extends(m, g)
    ensures IsTrie(g, w, t)
    decreases t, 1
  {
    if t.Node? {
      HoldsKept(m, g, m[w.p], t, NO_HOLE);
    }
  }

  lemma {:induction false} HoldsKept<D>(m: Cells<D>, g: Cells<D>, c: Cell<D>, t: Trie<D>, hole: nat)
    requires Holds(m, c, t, hole) && Extends(m, g)
    ensures Holds(g, c, t, hole)
    decreases t, 0
  {
    forall i | 0 <= i < 4 && i != hole ensures IsTrie(g, c.slots[i], t.sons[i]) {
      TrieKept(m, g, c.slots[i], t.sons[i]);
    }
  }

  lemma HoldsSlot<D>(m: Cells<D>, c: Cell<D>, t: Trie<D>, ix: Digit)
    requires Holds(m, c, t, NO_HOLE)
    ensures |c.slots| == 4 == |t.sons| && IsTrie(m, c.slots[ix], t.sons[ix]) && Holds(m, c, t, ix)
  {
  }

  /** A word in the slot that was left out. */
  lemma HoldsFilled<D>(m: Cells<D>, c: Cell<D>, t: Trie<D>, ix: Digit, x: Trie<D>)
    requires Holds(m, c, t, ix) && IsTrie(m, c.slots[ix], x)
    ensures Holds(m, c, WithSon(t, ix, x), NO_HOLE)
  {
  }

  /** The same trie hangs from a word over a node, whatever else is written. */
  lemma NodeIsTrie<D>(m: Cells<D>, a: nat, t: Trie<D>)
    requires a in m && Holds(m, m[a], t, NO_HOLE)
    ensures IsTrie(m, Ptr(a), t)
  {
  }

  // ---------- the path ----------

  /** An entry of `path`: a new node, and the slot in which the path goes on. */
  datatype Entry = Entry(node: nat, ix: Digit)

  ghost predicate OffPath(path: seq<Entry>, a: nat) {
    forall k | 0 <= k < |path| :: path[k].node != a
  }

  /** The nodes of the path hang one from the other, and the slot that is open has the word `w`.  None of
      them is frozen: those cells may still be written to. */
  ghost predicate Chain<D>(m: Cells<D>, frozen: Cells<D>, path: seq<Entry>, frames: seq<Frame<D>>, w: Word<D>)
    decreases |path|
  {
    |path| == |frames| &&
    (path != [] ==>
      var n := |path| - 1;
      var a, f := path[n].node, frames[n];
      && FrameOk(f) && f.ix == path[n].ix
      && a in m && a !in frozen && OffPath(path[..n], a)
      && Holds(frozen, m[a], f.node, f.ix) && m[a].slots[f.ix] == w
      && Chain(m, frozen, path[..n], frames[..n], Ptr(a)))
  }

  lemma {:induction false} ChainIsPath<D>(m: Cells<D>, frozen: Cells<D>, path: seq<Entry>, frames: seq<Frame<D>>, w: Word<D>)
    requires Chain(m, frozen, path, frames, w)
    ensures |path| == |frames| && FramesOk(frames)
    ensures forall k | 0 <= k < |path| :: path[k].node in m && path[k].node !in frozen
    decreases |path|
  {
    if path != [] {
      var n := |path| - 1;
      ChainIsPath(m, frozen, path[..n], frames[..n], Ptr(path[n].node));
      assert path == path[..n] + [path[n]] && frames == frames[..n] + [frames[n]];
    }
  }

  /** Other cells may be allocated, written to and frozen. */
  lemma {:induction false} ChainKept<D>(m: Cells<D>, g: Cells<D>, frozen: Cells<D>, more: Cells<D>,
                                        path: seq<Entry>, frames: seq<Frame<D>>, w: Word<D>)
    requires Chain(m, frozen, path, frames, w) && Extends(frozen, more)
    requires forall k | 0 <= k < |path| ::
               var a := path[k].node; a !in more && (a in m ==> a in g && g[a] == m[a])
    ensures Chain(g, more, path, frames, w)
    decreases |path|
  {
    if path != [] {
      var n := |path| - 1;
      assert path[n].node !in more;
      HoldsKept(frozen, more, m[path[n].node], frames[n].node, frames[n].ix);
      ChainKept(m, g, frozen, more, path[..n], frames[..n], Ptr(path[n].node));
    }
  }

  /** Another word in the open slot. */
  lemma ChainLinked<D>(m: Cells<D>, g: Cells<D>, frozen: Cells<D>, path: seq<Entry>, frames: seq<Frame<D>>, w: Word<D>, v: Word<D>)
    requires Chain(m, frozen, path, frames, w) && path != []
    requires var e := path[|path| - 1];
             e.node in m && e.ix < |m[e.node].slots|
             && g == m[e.node := Cell(m[e.node].prefix, m[e.node].slots[e.ix := v])]
    ensures Chain(g, frozen, path, frames, v)
  {
    var n := |path| - 1;
    ChainIsPath(m, frozen, path[..n], frames[..n], Ptr(path[n].node));
    forall k | 0 <= k < n ensures path[..n][k].node != path[n].node {
      assert path[..n][k].node != path[n].node;
    }
    ChainKept(m, g, frozen, frozen, path[..n], frames[..n], Ptr(path[n].node));
  }

  /** One node more; the open slot is now in it. */
  lemma ChainPushed<D>(m: Cells<D>, frozen: Cells<D>, path: seq<Entry>, frames: seq<Frame<D>>, a: nat, t: Trie<D>, ix: Digit)
    requires Chain(m, frozen, path, frames, Ptr(a)) && a in m && a !in frozen && OffPath(path, a)
    requires Holds(frozen, m[a], t, NO_HOLE)
    ensures |m[a].slots| == 4 == |t.sons| && IsTrie(frozen, m[a].slots[ix], t.sons[ix])
    ensures Chain(m, frozen, path + [Entry(a, ix)], frames + [Frame(t, ix)], m[a].slots[ix])
  {
    HoldsSlot(frozen, m[a], t, ix);
    assert (path + [Entry(a, ix)])[..|path|] == path && (frames + [Frame(t, ix)])[..|path|] == frames;
  }

  /** The last node goes off the path, with all that hangs below it. */
  lemma ChainPopped<D>(m: Cells<D>, frozen: Cells<D>, path: seq<Entry>, frames: seq<Frame<D>>, w: Word<D>, x: Trie<D>)
    requires Chain(m, frozen, path, frames, w) && path != [] && IsTrie(frozen, w, x)
    ensures var n := |path| - 1;
            var a, f := path[n].node, frames[n];
            && FrameOk(f) && a in m && a !in frozen && OffPath(path[..n], a)
            && Holds(frozen, m[a], WithSon(f.node, f.ix, x), NO_HOLE)
            && Chain(m, frozen, path[..n], frames[..n], Ptr(a))
  {
    var n := |path| - 1;
    HoldsFilled(frozen, m[path[n].node], frames[n].node, frames[n].ix, x);
  }

  /** A node that is off the path is frozen. */
  lemma ChainFrozen<D>(m: Cells<D>, frozen: Cells<D>, path: seq<Entry>, frames: seq<Frame<D>>, a: nat, t: Trie<D>)
    requires Chain(m, frozen, path, frames, Ptr(a)) && a in m && a !in frozen && OffPath(path, a)
    requires Holds(frozen, m[a], t, NO_HOLE)
    ensures Chain(m, frozen[a := m[a]], path, frames, Ptr(a)) && IsTrie(frozen[a := m[a]], Ptr(a), t)
    ensures Extends(frozen, frozen[a := m[a]])
  {
    var more := frozen[a := m[a]];
    ChainIsPath(m, frozen, path, frames, Ptr(a));
    HoldsKept(frozen, more, m[a], t, NO_HOLE);
    NodeIsTrie(more, a, t);
    ChainKept(m, m, frozen, more, path, frames, Ptr(a));
  }

  /** `path[0].node`, or what is there when there is no path. */
  function RootOf<D>(path: seq<Entry>, w: Word<D>): Word<D> {
    if path == [] then w else Ptr(path[0].node)
  }

  /** When a whole trie hangs from the open slot, the whole new trie hangs from the root. */
  lemma {:induction false} ChainClosed<D>(m: Cells<D>, frozen: Cells<D>, path: seq<Entry>, frames: seq<Frame<D>>,
                                          w: Word<D>, x: Trie<D>)
    requires Chain(m, frozen, path, frames, w) && Extends(frozen, m) && IsTrie(frozen, w, x)
    requires FramesOk(frames)
    ensures IsTrie(m, RootOf(path, w), Plug(frames, x))
    decreases |path|
  {
    hide Holds, IsTrie;
    if path == [] {
      TrieKept(frozen, m, w, x);
    } else {
      var n := |path| - 1;
      var a, f := path[n].node, frames[n];
      ChainPopped(m, frozen, path, frames, w, x);
      ChainFrozen(m, frozen, path[..n], frames[..n], a, WithSon(f.node, f.ix, x));
      ChainClosed(m, frozen[a := m[a]], path[..n], frames[..n], Ptr(a), WithSon(f.node, f.ix, x));
    }
  }
}
