/** `trie_insert` and `trie_insert_set` over the cells of a store.  Each new node is linked to the one above it
    as soon as it is there, and filled in afterwards; a node of an earlier key of the set may get another
    prefix and other slots.  No cell from before the call is ever written to. */
module QuadTriePass {

  import opened Wrappers
  import opened CellStore
  import opened TrieKeys
  import opened QuadTrie
  import opened QuadTrieCells

  function NullSlots<D>(): seq<Word<D>> {
    [NullWord, NullWord, NullWord, NullWord]
  }

  /** Only the node at `a` has been written to since, and what is frozen now was frozen or is new. */
  ghost predicate OnlyWrote<D>(before: Cells<D>, cells: Cells<D>, a: nat, frozen: Cells<D>, more: Cells<D>) {
    && Extends(frozen, more) && Extends(more, cells) && a in cells && a !in more
    && (forall x | x in before && x != a :: x in cells && cells[x] == before[x])
    && (forall x | x in more :: x in frozen || x !in before)
  }

  /** A level of the new path: node `a` becomes a copy of the node at `p`, or one with a prefix of its own where
      there is none, or one over the rest of the node at `p`, which may be node `a` itself. */
  method Fill<D>(s: Store<Cell<D>>, a: nat, p: Word<D>, key: Key, at: nat, ghost t: Trie<D>, ghost frozen: Cells<D>)
    returns (ghost more: Cells<D>)
    requires s.Valid() && a in s.cells && a !in frozen && Extends(frozen, s.cells)
    requires at < |key| && Valid(t, |key| - at)
    requires IsTrie(frozen, p, t) || (p == Ptr(a) && Holds(frozen, s.cells[a], t, NO_HOLE))
    modifies s
    ensures s.Valid() && Grew(old(s.cells), old(s.next), s.cells, s.next)
    ensures OnlyWrote(old(s.cells), s.cells, a, frozen, more)
    ensures Holds(more, s.cells[a], Ready(t, key, at), NO_HOLE)
  {
    hide Extends, Agrees, Holds, IsTrie, Ready, Valid;
    NodeAt(s.cells, frozen, a, p, t, |key| - at);
    if p.NullWord? {
      NullHolds(frozen, key, at);
      var m := if |key| - at > MAX_PREFIX + 1 then MAX_PREFIX else |key| - at - 1;
      s.cells := s.cells[a := Cell(key[at..at + m], NullSlots())];
      more := frozen;
      ExtendsOff(frozen, old(s.cells), s.cells, a);
    } else {
      var oldNode := s.cells[p.p];
      if oldNode.prefix == [] || Agrees(oldNode.prefix, key, at) {
        ReadyIsCopy(t, key, at);
        s.cells := s.cells[a := oldNode];
        more := frozen;
        ExtendsOff(frozen, old(s.cells), s.cells, a);
      } else {
        var j := Parting(oldNode.prefix, key, at, 0);
        var below := Cell(oldNode.prefix[j + 1..], oldNode.slots);
        var b := s.Allocate(below);
        s.cells := s.cells[a := Cell(oldNode.prefix[..j], NullSlots()[oldNode.prefix[j] := Ptr(b)])];
        more := frozen[b := below];
        ExtendsNew(frozen, old(s.cells), s.cells, a, b, below);
        SplitHolds(frozen, oldNode, t, key, at, j, b);
      }
    }
  }

  lemma NullHolds<D>(frozen: Cells<D>, key: Key, at: nat)
    requires at < |key|
    ensures var m := if |key| - at > MAX_PREFIX + 1 then MAX_PREFIX else |key| - at - 1;
            Holds(frozen, Cell(key[at..at + m], NullSlots()), Ready<D>(Null, key, at), NO_HOLE)
  {
    var r := Ready<D>(Null, key, at);
    forall i | 0 <= i < 4 ensures IsTrie(frozen, NullSlots<D>()[i], r.sons[i]) {
      assert r.sons[i].Null? && NullSlots<D>()[i].NullWord?;
    }
  }

  lemma ReadyIsCopy<D>(t: Trie<D>, key: Key, at: nat)
    requires at < |key| && Valid(t, |key| - at) && t.Node? && (t.prefix == [] || Agrees(t.prefix, key, at))
    ensures Ready(t, key, at) == t
  {
  }

  lemma NodeAt<D>(m: Cells<D>, frozen: Cells<D>, a: nat, p: Word<D>, t: Trie<D>, n: nat)
    requires a in m && Extends(frozen, m) && n > 0 && Valid(t, n)
    requires IsTrie(frozen, p, t) || (p == Ptr(a) && Holds(frozen, m[a], t, NO_HOLE))
    ensures p.NullWord? <==> t.Null?
    ensures p.NullWord? || (p.Ptr? && p.p in m && Holds(frozen, m[p.p], t, NO_HOLE))
    ensures !p.NullWord? ==>
              t.Node? && m[p.p].prefix == t.prefix && |t.prefix| < n && |m[p.p].slots| == 4
  {
  }

  lemma ExtendsOff<C>(frozen: map<nat, C>, before: map<nat, C>, cells: map<nat, C>, a: nat)
    requires Extends(frozen, before) && a !in frozen && a in cells && cells == before[a := cells[a]]
    ensures Extends(frozen, frozen) && Extends(frozen, cells)
  {
  }

  lemma ExtendsNew<C>(frozen: map<nat, C>, before: map<nat, C>, cells: map<nat, C>, a: nat, b: nat, c: C)
    requires Extends(frozen, before) && a !in frozen && b !in before && a in before && a in cells
    requires cells == before[b := c][a := cells[a]]
    ensures b !in frozen && Extends(frozen, frozen[b := c]) && Extends(frozen[b := c], cells)
  {
  }

  /** The split node, with the rest of the old one in a cell of its own. */
  lemma SplitHolds<D>(frozen: Cells<D>, c: Cell<D>, t: Trie<D>, key: Key, at: nat, j: nat, b: nat)
    requires at < |key| && Valid(t, |key| - at) && Holds(frozen, c, t, NO_HOLE) && b !in frozen
    requires !Agrees(t.prefix, key, at) && j == Parting(t.prefix, key, at, 0)
    ensures var below := Cell(c.prefix[j + 1..], c.slots);
            Holds(frozen[b := below], Cell(c.prefix[..j], NullSlots()[c.prefix[j] := Ptr(b)]), Ready(t, key, at), NO_HOLE)
  {
    var below := Cell(c.prefix[j + 1..], c.slots);
    var more := frozen[b := below];
    HoldsKept(frozen, more, c, t, NO_HOLE);
    var rest := Node(t.prefix[j + 1..], t.sons);
    assert Holds(more, below, rest, NO_HOLE);
    NodeIsTrie(more, b, rest);
    var slots, sons := NullSlots()[c.prefix[j] := Ptr(b)], [Null, Null, Null, Null][t.prefix[j] := rest];
    forall i | 0 <= i < 4 ensures IsTrie(more, slots[i], sons[i]) {
    }
  }

  /** Where a path goes on: a trie over frozen cells, or a new node that is to be used again. */
  ghost predicate GoesOn<D>(m: Cells<D>, frozen: Cells<D>, path: seq<Entry>, frames: seq<Frame<D>>, isNew: bool, p: Word<D>, t: Trie<D>) {
    && Extends(frozen, m) && Chain(m, frozen, path, frames, p)
    && if isNew then p.Ptr? && p.p in m && p.p !in frozen && OffPath(path, p.p) && Holds(frozen, m[p.p], t, NO_HOLE)
       else IsTrie(frozen, p, t)
  }

  /** The node for the next level: a new one, linked to the node above it, or the one used again. */
  method NextNode<D>(s: Store<Cell<D>>, path: seq<Entry>, isNew: bool, p: Word<D>,
                     ghost frozen: Cells<D>, ghost frames: seq<Frame<D>>, ghost t: Trie<D>) returns (a: nat)
    requires s.Valid() && GoesOn(s.cells, frozen, path, frames, isNew, p, t)
    modifies s
    ensures s.Valid() && Grew(old(s.cells), old(s.next), s.cells, s.next)
    ensures a in s.cells && a !in frozen && OffPath(path, a) && Extends(frozen, s.cells) && Chain(s.cells, frozen, path, frames, Ptr(a))
    ensures IsTrie(frozen, p, t) || (p == Ptr(a) && Holds(frozen, s.cells[a], t, NO_HOLE))
  {
    hide Holds, IsTrie;
    if isNew {
      return p.p;
    }
    ChainIsPath(s.cells, frozen, path, frames, p);
    a := s.Allocate(Cell([], NullSlots()));
    ChainKept(old(s.cells), s.cells, frozen, frozen, path, frames, p);
    if path != [] {
      var e := path[|path| - 1];
      ChainSlots(s.cells, frozen, path, frames, p);
      ghost var before := s.cells;
      s.cells := s.cells[e.node := Cell(s.cells[e.node].prefix, s.cells[e.node].slots[e.ix := Ptr(a)])];
      ChainLinked(before, s.cells, frozen, path, frames, p, Ptr(a));
    }
  }

  lemma ChainSlots<D>(m: Cells<D>, frozen: Cells<D>, path: seq<Entry>, frames: seq<Frame<D>>, w: Word<D>)
    requires Chain(m, frozen, path, frames, w) && path != []
    ensures var e := path[|path| - 1];
            e.node in m && e.node !in frozen && e.ix < |m[e.node].slots| && m[e.node].slots[e.ix] == w
  {
  }

  /** A level that has been filled in: the path goes on in the slot of the next digit. */
  lemma LevelDone<D>(before: Cells<D>, cells: Cells<D>, a: nat, frozen: Cells<D>, more: Cells<D>,
                     path: seq<Entry>, frames: seq<Frame<D>>, r: Trie<D>, ix: Digit)
    requires OnlyWrote(before, cells, a, frozen, more) && a in before && OffPath(path, a)
    requires Chain(before, frozen, path, frames, Ptr(a)) && Holds(more, cells[a], r, NO_HOLE)
    ensures |cells[a].slots| == 4 == |r.sons|
    ensures GoesOn(cells, more, path + [Entry(a, ix)], frames + [Frame(r, ix)], false, cells[a].slots[ix], r.sons[ix])
  {
    hide Holds, IsTrie;
    ChainIsPath(before, frozen, path, frames, Ptr(a));
    ChainKept(before, cells, frozen, more, path, frames, Ptr(a));
    ChainPushed(cells, more, path, frames, a, r, ix);
  }

  /** The way down from a place on the path: the nodes of each level, up to the end of the key. */
  method Descend<D>(s: Store<Cell<D>>, path0: seq<Entry>, key: Key, at0: nat, p0: Word<D>, isNew0: bool,
                    ghost frozen0: Cells<D>, ghost frames0: seq<Frame<D>>, ghost t0: Trie<D>, ghost v: D)
    returns (path: seq<Entry>, p: Word<D>, ghost frozen: Cells<D>, ghost frames: seq<Frame<D>>, ghost t: Trie<D>)
    requires s.Valid() && at0 <= |key| && (isNew0 ==> at0 < |key|)
    requires GoesOn(s.cells, frozen0, path0, frames0, isNew0, p0, t0)
    requires Along(frames0, key, at0) && FramesOk(frames0) && Valid(t0, |key| - at0)
    modifies s
    ensures s.Valid() && Grew(old(s.cells), old(s.next), s.cells, s.next)
    ensures GoesOn(s.cells, frozen, path, frames, false, p, t) && Extends(frozen0, frozen)
    ensures Along(frames, key, |key|) && FramesOk(frames) && Valid(t, 0)
    ensures Plug(frames, Data(v)) == Plug(frames0, Inserted(t0, key, at0, v))
    ensures Lookup(t, key, |key|) == Lookup(t0, key, at0)
  {
    hide Along, Agrees, Inserted, Ready, Lookup, Plug, Holds, IsTrie, Chain, GoesOn, Extends, Grew, OnlyWrote, OffPath, Valid;
    path, p, frozen, frames, t := path0, p0, frozen0, frames0, t0;
    var at, isNew := at0, isNew0;
    ghost var cells0, next0 := s.cells, s.next;
    NothingYet(frozen0, cells0, next0);
    while at < |key|
      invariant s.Valid() && Grew(cells0, next0, s.cells, s.next) && Extends(frozen0, frozen)
      invariant at <= |key| && (isNew ==> at < |key|) && GoesOn(s.cells, frozen, path, frames, isNew, p, t)
      invariant Along(frames, key, at) && FramesOk(frames) && Valid(t, |key| - at)
      invariant Plug(frames, Inserted(t, key, at, v)) == Plug(frames0, Inserted(t0, key, at0, v))
      invariant Lookup(t, key, at) == Lookup(t0, key, at0)
    {
      ghost var before, mid := s.cells, s.next;
      var a := NextNode(s, path, isNew, p, frozen, frames, t);
      GrewOn(cells0, next0, before, mid, s.cells, s.next);
      before, mid := s.cells, s.next;
      ghost var more := Fill(s, a, p, key, at, t, frozen);
      GrewOn(cells0, next0, before, mid, s.cells, s.next);
      Filled(before, s.cells, a, frozen, more, t, key, at);
      ExtendsOn(frozen0, frozen, more);
      var ix := key[at + |s.cells[a].prefix|];
      ghost var r := Ready(t, key, at);
      LevelDone(before, s.cells, a, frozen, more, path, frames, r, ix);
      LevelMeans(frames, key, at, t, v, r, at + |r.prefix|);
      path, frames, frozen := path + [Entry(a, ix)], frames + [Frame(r, ix)], more;
      at := at + |s.cells[a].prefix| + 1;
      p, t, isNew := s.cells[a].slots[ix], r.sons[ix], false;
    }
    GoesOnOver(s.cells, frozen, path, frames, isNew, p, t);
    AtEnd(t, key, v, key);
  }

  lemma NothingYet<D>(frozen: Cells<D>, cells: Cells<D>, next: nat)
    ensures Extends(frozen, frozen) && Grew(cells, next, cells, next)
  {
  }

  lemma Filled<D>(before: Cells<D>, cells: Cells<D>, a: nat, frozen: Cells<D>, more: Cells<D>, t: Trie<D>, key: Key, at: nat)
    requires OnlyWrote(before, cells, a, frozen, more) && at < |key| && Valid(t, |key| - at)
    requires Holds(more, cells[a], Ready(t, key, at), NO_HOLE)
    ensures a in cells && cells[a].prefix == Ready(t, key, at).prefix && Extends(frozen, more)
  {
  }

  lemma GoesOnOver<D>(m: Cells<D>, frozen: Cells<D>, path: seq<Entry>, frames: seq<Frame<D>>, isNew: bool, p: Word<D>, t: Trie<D>)
    requires GoesOn(m, frozen, path, frames, isNew, p, t)
    ensures Extends(frozen, m) && Chain(m, frozen, path, frames, p)
    ensures !isNew ==> IsTrie(frozen, p, t)
  {
  }

  /** One level of the way down on values. */
  lemma LevelMeans<D>(frames: seq<Frame<D>>, key: Key, at: nat, t: Trie<D>, v: D, r: Trie<D>, next: nat)
    requires at < |key| && Along(frames, key, at) && FramesOk(frames) && Valid(t, |key| - at)
    requires r == Ready(t, key, at) && next == at + |r.prefix|
    ensures next < |key| && |r.sons| == 4 && Valid(r.sons[key[next]], |key| - next - 1)
    ensures FramesOk(frames + [Frame(r, key[next])]) && Along(frames + [Frame(r, key[next])], key, next + 1)
    ensures Plug(frames + [Frame(r, key[next])], Inserted(r.sons[key[next]], key, next + 1, v))
            == Plug(frames, Inserted(t, key, at, v))
    ensures Lookup(r.sons[key[next]], key, next + 1) == Lookup(t, key, at)
  {
    hide Along, Agrees, Inserted, Ready, Lookup, Plug;
    InsertedCase(t, key, at, v);
    AlongPushed(frames, key, at, r);
    PlugPushed(frames, Frame(r, key[next]), Inserted(r.sons[key[next]], key, next + 1, v));
    ReadyLookup(t, key, at, key);
    LookupAt(r, key, at);
  }

  /** The datum goes into the open slot, unless it is there. */
  method StoreDatum<D(==)>(s: Store<Cell<D>>, path: seq<Entry>, d: D,
                           ghost p: Word<D>, ghost frozen: Cells<D>, ghost frames: seq<Frame<D>>, ghost t: Trie<D>)
    returns (stored: bool)
    requires s.Valid() && path != [] && GoesOn(s.cells, frozen, path, frames, false, p, t) && Valid(t, 0)
    modifies s
    ensures s.Valid() && Grew(old(s.cells), old(s.next), s.cells, s.next)
    ensures GoesOn(s.cells, frozen, path, frames, false, Datum(d), Data(d)) && Valid(Data(d), 0)
    ensures stored <==> t != Data(d)
  {
    ChainSlots(s.cells, frozen, path, frames, p);
    var e := path[|path| - 1];
    stored := s.cells[e.node].slots[e.ix] != Datum(d);
    if stored {
      ghost var before := s.cells;
      s.cells := s.cells[e.node := Cell(s.cells[e.node].prefix, s.cells[e.node].slots[e.ix := Datum(d)])];
      ChainLinked(before, s.cells, frozen, path, frames, p, Datum(d));
    }
  }

  /** A node popped from the path, and what hangs below it. */
  lemma Popped<D>(m: Cells<D>, frozen: Cells<D>, path: seq<Entry>, frames: seq<Frame<D>>, p: Word<D>, x: Trie<D>,
                  key: Key, at: nat)
    requires GoesOn(m, frozen, path, frames, false, p, x) && at <= |key| && Along(frames, key, at) && path != []
    requires FramesOk(frames) && Valid(x, |key| - at)
    ensures var n := |path| - 1;
            var a, f := path[n].node, frames[n];
            && FrameOk(f) && a in m && m[a].prefix == f.node.prefix && at >= |f.node.prefix| + 1
            && var y, fAt := WithSon(f.node, f.ix, x), at - 1 - |f.node.prefix|;
               && GoesOn(m, frozen, path[..n], frames[..n], true, Ptr(a), y)
               && Along(frames[..n], key, fAt) && FramesOk(frames[..n]) && Valid(y, |key| - fAt)
               && Plug(frames[..n], y) == Plug(frames, x)
  {
    hide Valid, Agrees, Inserted;
    var n := |path| - 1;
    var f := frames[n];
    ChainPopped(m, frozen, path, frames, p, x);
    AlongOk(frames[..n], key, at - 1 - |f.node.prefix|);
    FrameValid(f, key, at - 1 - |f.node.prefix|, x);
  }

  /** The node over `x` may be taken for a trie over frozen cells. */
  lemma NowFrozen<D>(m: Cells<D>, frozen: Cells<D>, path: seq<Entry>, frames: seq<Frame<D>>, a: nat, t: Trie<D>)
    requires GoesOn(m, frozen, path, frames, true, Ptr(a), t)
    ensures a in m && GoesOn(m, frozen[a := m[a]], path, frames, false, Ptr(a), t) && Extends(frozen, frozen[a := m[a]])
  {
    ChainFrozen(m, frozen, path, frames, a, t);
  }

  /** The way up to the node where the next key leaves the path: the one whose prefix or branching has the first
      digit, `d`, in which the keys differ.  That node will be used again. */
  method Climb<D>(s: Store<Cell<D>>, path0: seq<Entry>, key: Key, ghost other: Key, d: nat,
                  ghost frozen0: Cells<D>, ghost frames0: seq<Frame<D>>, ghost p0: Word<D>, ghost x0: Trie<D>)
    returns (path: seq<Entry>, at: nat, a: nat, ghost frozen: Cells<D>, ghost frames: seq<Frame<D>>, ghost x: Trie<D>)
    requires GoesOn(s.cells, frozen0, path0, frames0, false, p0, x0) && path0 != [] && Valid(x0, 0)
    requires Along(frames0, key, |key|) && FramesOk(frames0)
    requires |other| == |key| && d < |key| && forall i | 0 <= i < d :: key[i] == other[i]
    ensures at <= d && GoesOn(s.cells, frozen, path, frames, true, Ptr(a), x) && Extends(frozen0, frozen)
    ensures a in s.cells && d <= at + |s.cells[a].prefix|
    ensures Along(frames, other, at) && FramesOk(frames) && Valid(x, |key| - at)
    ensures Plug(frames, x) == Plug(frames0, x0)
  {
    hide Along, Valid, Plug, GoesOn, Extends, WithSon;
    Popped(s.cells, frozen0, path0, frames0, p0, x0, key, |key|);
    PathIsLong(s.cells, frozen0, path0, frames0, p0, x0);
    a, frozen := path0[|path0| - 1].node, frozen0;
    at := |key| - 1 - |s.cells[a].prefix|;
    x := WithSon(frames0[|path0| - 1].node, frames0[|path0| - 1].ix, x0);
    path, frames := path0[..|path0| - 1], frames0[..|path0| - 1];
    NothingYet(frozen0, s.cells, 0);
    while at > d
      invariant at <= |key| && GoesOn(s.cells, frozen, path, frames, true, Ptr(a), x) && Extends(frozen0, frozen)
      invariant Along(frames, key, at) && FramesOk(frames) && Valid(x, |key| - at) && Plug(frames, x) == Plug(frames0, x0)
      invariant a in s.cells && d <= at + |s.cells[a].prefix|
      decreases at
    {
      NowFrozen(s.cells, frozen, path, frames, a, x);
      ghost var more := frozen[a := s.cells[a]];
      ExtendsOn(frozen0, frozen, more);
      NotAtTop(frames, key, at);
      PathIsLong(s.cells, more, path, frames, Ptr(a), x);
      Popped(s.cells, more, path, frames, Ptr(a), x, key, at);
      var n := |path| - 1;
      a, frozen := path[n].node, more;
      at := at - 1 - |s.cells[a].prefix|;
      x := WithSon(frames[n].node, frames[n].ix, x);
      path, frames := path[..n], frames[..n];
    }
    AlongOther(frames, key, other, at);
  }

  lemma NotAtTop<D>(frames: seq<Frame<D>>, key: Key, at: nat)
    requires at <= |key| && Along(frames, key, at) && at > 0
    ensures frames != []
  {
  }

  lemma PathIsLong<D>(m: Cells<D>, frozen: Cells<D>, path: seq<Entry>, frames: seq<Frame<D>>, p: Word<D>, x: Trie<D>)
    requires GoesOn(m, frozen, path, frames, false, p, x)
    ensures |path| == |frames|
  {
  }

  /** The first digit in which two keys differ. */
  method FirstDifference(key: Key, other: Key) returns (d: nat)
    requires |key| == |other| && key != other
    ensures d < |key| && key[d] != other[d] && forall i | 0 <= i < d :: key[i] == other[i]
  {
    d := 0;
    while d < |key| && key[d] == other[d]
      invariant d <= |key| && forall i | 0 <= i < d :: key[i] == other[i]
    {
      d := d + 1;
    }
    assert d == |key| ==> key == other;
  }

  /** Where the prefix of the node agrees with the next key, the path goes on in another slot of it. */
  lemma Reentered<D>(m: Cells<D>, frozen: Cells<D>, path: seq<Entry>, frames: seq<Frame<D>>, a: nat, x: Trie<D>,
                     key: Key, at: nat)
    requires GoesOn(m, frozen, path, frames, true, Ptr(a), x) && at < |key|
    requires Along(frames, key, at) && FramesOk(frames) && Valid(x, |key| - at)
    ensures a in m && x.Node? && |x.sons| == 4 == |m[a].slots| && m[a].prefix == x.prefix && at + |x.prefix| < |key|
    ensures Agrees(x.prefix, key, at) ==>
              var next := at + |x.prefix|;
              var ix := key[next];
              && GoesOn(m, frozen, path + [Entry(a, ix)], frames + [Frame(x, ix)], false, m[a].slots[ix], x.sons[ix])
              && Along(frames + [Frame(x, ix)], key, next + 1) && FramesOk(frames + [Frame(x, ix)])
              && Valid(x.sons[ix], |key| - next - 1)
              && Plug(frames + [Frame(x, ix)], x.sons[ix]) == Plug(frames, x)
  {
    hide Agrees, Along, Plug, Holds, IsTrie, Chain, Extends, Valid, OffPath;
    SlotFacts(frozen, m[a], x, key, at);
    if Agrees(x.prefix, key, at) {
      var ix := key[at + |x.prefix|];
      ChainPushed(m, frozen, path, frames, a, x, ix);
      AlongPushed(frames, key, at, x);
      PlugPushed(frames, Frame(x, ix), x.sons[ix]);
      assert x.sons[ix := x.sons[ix]] == x.sons;
    }
  }

  lemma SlotFacts<D>(frozen: Cells<D>, c: Cell<D>, x: Trie<D>, key: Key, at: nat)
    requires Holds(frozen, c, x, NO_HOLE) && at < |key| && Valid(x, |key| - at)
    ensures x.Node? && |x.sons| == 4 == |c.slots| && c.prefix == x.prefix && at + |x.prefix| < |key|
    ensures Valid(x.sons[key[at + |x.prefix|]], |key| - at - |x.prefix| - 1)
  {
  }

  /** Insertion at a place on the path of a trie, and search there. */
  lemma InsertedThere<D>(frames: seq<Frame<D>>, key: Key, at: nat, t: Trie<D>, v: D)
    requires at <= |key| && Along(frames, key, at) && FramesOk(frames) && Valid(t, |key| - at)
    ensures Valid(Plug(frames, t), |key|)
    ensures Plug(frames, Inserted(t, key, at, v)) == Inserted(Plug(frames, t), key, 0, v)
    ensures Lookup(Plug(frames, t), key, 0) == Lookup(t, key, at)
  {
    PlugInserted(frames, key, at, t, v);
    PlugLookup(frames, key, at, t);
  }

  /** The nodes made so far make up the new trie, and no cell from before has changed. */
  lemma Finished<D>(before: Cells<D>, m: Cells<D>, frozen: Cells<D>, path: seq<Entry>, frames: seq<Frame<D>>, d: D)
    requires GoesOn(m, frozen, path, frames, false, Datum(d), Data(d)) && path != [] && FramesOk(frames)
    requires Extends(before, frozen)
    ensures IsTrie(m, Ptr(path[0].node), Plug(frames, Data(d))) && Extends(before, m)
  {
    ChainClosed(m, frozen, path, frames, Datum(d), Data(d));
  }

  /** `trie_insert_set`: in one pass over the set it builds the trie that single insertions would build one by
      one; no cell from before the call has changed, and nothing is left of a call that changes no datum. */
  method InsertSet<D(==)>(s: Store<Cell<D>>, root: Word<D>, n: nat, keys: seq<Key>, data: seq<D>, ghost t0: Trie<D>)
    returns (r: Word<D>)
    requires s.Valid() && IsTrie(s.cells, root, t0) && n > 0 && Valid(t0, n)
    requires |keys| == |data| > 0 && (forall i | 0 <= i < |keys| :: |keys[i]| == n)
    requires forall i | 0 < i < |keys| :: keys[i - 1] != keys[i]
    modifies s
    ensures s.Valid() && Extends(old(s.cells), s.cells)
    ensures IsTrie(s.cells, r, InsertedAll(t0, n, keys, data))
    ensures (forall i | 0 <= i < |keys| :: Lookup(t0, keys[i], 0) == Some(data[i])) ==>
              r == root && s.cells == old(s.cells) && s.next == old(s.next)
  {
    hide Along, Inserted, InsertedAll, Plug, Lookup, GoesOn, Extends, Grew, IsTrie, Agrees, Valid, FramesOk;
    ghost var cells0, next0 := s.cells, s.next;
    var ap := s.next;
    NothingYet(cells0, cells0, next0);
    StartsAt(cells0, root, t0);
    EmptyPath(keys[0], t0);
    NoneInserted(t0, n, keys, data);
    var path: seq<Entry>, at: nat, p, isNew := [], 0, root, false;
    ghost var frozen, frames, t: Trie<D> := cells0, [], t0;
    var i, numberOfInsertions := 0, 0;
    while true
      invariant i < |keys| && at <= n && (isNew ==> at < n) && s.Valid()
      invariant Grew(cells0, next0, s.cells, s.next) && Extends(cells0, frozen)
      invariant GoesOn(s.cells, frozen, path, frames, isNew, p, t)
      invariant Along(frames, keys[i], at) && FramesOk(frames) && Valid(t, n - at)
      invariant Plug(frames, t) == InsertedAll(t0, n, keys[..i], data[..i])
      invariant numberOfInsertions == 0 ==> InsertedAll(t0, n, keys[..i], data[..i]) == t0
      invariant (forall j | 0 <= j < i :: Lookup(t0, keys[j], 0) == Some(data[j])) ==> numberOfInsertions == 0
      decreases |keys| - i
    {
      ghost var before, mid := s.cells, s.next;
      InsertedThere(frames, keys[i], at, t, data[i]);
      OneMoreInserted(t0, n, keys, data, i);
      ghost var frozen1;
      path, p, frozen1, frames, t := Descend(s, path, keys[i], at, p, isNew, frozen, frames, t, data[i]);
      GrewOn(cells0, next0, before, mid, s.cells, s.next);
      ExtendsOn(cells0, frozen, frozen1);
      frozen := frozen1;
      PathNotEmpty(s.cells, frozen, path, frames, p, t, keys[i]);
      LeafLookup(t, keys[i]);
      before, mid := s.cells, s.next;
      var stored := StoreDatum(s, path, data[i], p, frozen, frames, t);
      GrewOn(cells0, next0, before, mid, s.cells, s.next);
      if stored {
        numberOfInsertions := numberOfInsertions + 1;
      }
      if i == |keys| - 1 {
        assert keys[..i + 1] == keys && data[..i + 1] == data;
        Finished(cells0, s.cells, frozen, path, frames, data[i]);
        if numberOfInsertions == 0 {
          s.Restore(ap, cells0);
          return root;
        }
        return Ptr(path[0].node);
      }
      var d := FirstDifference(keys[i], keys[i + 1]);
      var a;
      path, at, a, frozen1, frames, t := Climb(s, path, keys[i], keys[i + 1], d, frozen, frames, Datum(data[i]), Data(data[i]));
      ExtendsOn(cells0, frozen, frozen1);
      frozen := frozen1;
      i := i + 1;
      Reentered(s.cells, frozen, path, frames, a, t, keys[i], at);
      if Agrees(s.cells[a].prefix, keys[i], at) {
        var ix := keys[i][at + |s.cells[a].prefix|];
        path, frames := path + [Entry(a, ix)], frames + [Frame(t, ix)];
        at := at + |s.cells[a].prefix| + 1;
        p, isNew, t := s.cells[a].slots[ix], false, t.sons[ix];
      } else {
        p, isNew := Ptr(a), true;
      }
    }
  }

  lemma NoneInserted<D>(t: Trie<D>, n: nat, keys: seq<Key>, data: seq<D>)
    requires Valid(t, n)
    ensures keys[..0] == [] && data[..0] == [] && InsertedAll(t, n, keys[..0], data[..0]) == t && FramesOk<D>([])
  {
  }

  lemma StartsAt<D>(m: Cells<D>, root: Word<D>, t: Trie<D>)
    requires IsTrie(m, root, t)
    ensures GoesOn(m, m, [], [], false, root, t)
  {
  }

  lemma PathNotEmpty<D>(m: Cells<D>, frozen: Cells<D>, path: seq<Entry>, frames: seq<Frame<D>>, p: Word<D>, t: Trie<D>, key: Key)
    requires GoesOn(m, frozen, path, frames, false, p, t) && Along(frames, key, |key|) && key != []
    ensures path != []
  {
  }

  lemma OneMoreInserted<D>(t: Trie<D>, n: nat, keys: seq<Key>, data: seq<D>, i: nat)
    requires |keys| == |data| && i < |keys| && Valid(t, n) && forall j | 0 <= j < |keys| :: |keys[j]| == n
    ensures Valid(InsertedAll(t, n, keys[..i], data[..i]), n)
    ensures InsertedAll(t, n, keys[..i + 1], data[..i + 1])
            == Inserted(InsertedAll(t, n, keys[..i], data[..i]), keys[i], 0, data[i])
    ensures Lookup(InsertedAll(t, n, keys[..i], data[..i]), keys[i], 0) == Some(data[i]) ==>
              InsertedAll(t, n, keys[..i + 1], data[..i + 1]) == InsertedAll(t, n, keys[..i], data[..i])
  {
    hide Inserted, Lookup;
    assert keys[..i + 1][..i] == keys[..i] && data[..i + 1][..i] == data[..i];
    if Lookup(InsertedAll(t, n, keys[..i], data[..i]), keys[i], 0) == Some(data[i]) {
      NilpotentInsert(InsertedAll(t, n, keys[..i], data[..i]), keys[i], 0, data[i]);
    }
  }

  /** `trie_insert` with a function of the old datum, if any, and the new. */
  method Insert<D(==)>(s: Store<Cell<D>>, root: Word<D>, key: Key, f: (Option<D>, D) -> D, data0: D, ghost t0: Trie<D>)
    returns (r: Word<D>)
    requires s.Valid() && IsTrie(s.cells, root, t0) && key != [] && Valid(t0, |key|)
    modifies s
    ensures s.Valid() && Extends(old(s.cells), s.cells)
    ensures IsTrie(s.cells, r, Inserted(t0, key, 0, f(Lookup(t0, key, 0), data0)))
    ensures Lookup(t0, key, 0) == Some(f(Lookup(t0, key, 0), data0)) ==>
              r == root && s.cells == old(s.cells) && s.next == old(s.next)
  {
    hide Along, Inserted, Plug, Lookup, GoesOn, Extends, Grew, IsTrie, Agrees, Valid;
    ghost var cells0, next0 := s.cells, s.next;
    var ap := s.next;
    NothingYet(cells0, cells0, next0);
    StartsAt(cells0, root, t0);
    EmptyPath(key, t0);
    ghost var v := f(Lookup(t0, key, 0), data0);
    EmptyPath(key, Inserted(t0, key, 0, v));
    var path, p;
    ghost var frozen, frames, t;
    path, p, frozen, frames, t := Descend(s, [], key, 0, root, false, cells0, [], t0, v);
    PathNotEmpty(s.cells, frozen, path, frames, p, t, key);
    LeafLookup(t, key);
    LeafWord(s.cells, frozen, path, frames, p, t);
    var data := f(if p.Datum? then Some(p.value) else None, data0);
    ghost var before, mid := s.cells, s.next;
    var stored := StoreDatum(s, path, data, p, frozen, frames, t);
    GrewOn(cells0, next0, before, mid, s.cells, s.next);
    Finished(cells0, s.cells, frozen, path, frames, data);
    if !stored {
      NilpotentInsert(t0, key, 0, data);
      s.Restore(ap, cells0);
      return root;
    }
    return Ptr(path[0].node);
  }

  lemma LeafWord<D>(m: Cells<D>, frozen: Cells<D>, path: seq<Entry>, frames: seq<Frame<D>>, p: Word<D>, t: Trie<D>)
    requires GoesOn(m, frozen, path, frames, false, p, t) && Valid(t, 0)
    ensures p == if t.Data? then Datum(t.value) else NullWord
  {
  }
}
