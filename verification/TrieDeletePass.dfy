/** The loops of `triev2_delete`: down along the key, up while sons vanish, and up copying. */
module TrieDeletePass {

  import opened Wrappers
  import opened TrieKeys
  import opened TrieTables
  import opened Trie
  import opened TrieInsert
  import opened TrieDelete

  /** An entry of `path`: the node, the digit taken and the slot of the son. */
  datatype Frame<D> = Frame(node: Trie<D>, ix: Digit, slot: nat)

  /** The way for `key` from `root` goes through the nodes of `path` to `p`, with `at` digits used up. */
  ghost predicate OnPath<D>(root: Trie<D>, key: Key, path: seq<Frame<D>>, at: nat, p: Trie<D>)
    requires at <= |key|
    decreases |path|
  {
    if path == [] then at == 0 && p == root
    else
      var f := path[|path| - 1];
      && f.node.Node? && at >= |f.node.prefix| + 1
      && var fAt: nat := at - 1 - |f.node.prefix|;
         && WellFormed(f.node, |key| - fAt) && Agrees(f.node.prefix, key, fAt)
         && f.ix == key[at - 1] && Has(f.node.ct, f.ix) && f.slot == Slot(f.node.ct, f.ix)
         && p == Son(f.node, f.ix)
         && OnPath(root, key, path[..|path| - 1], fAt, f.node)
  }

  lemma PathPushed<D>(root: Trie<D>, key: Key, path: seq<Frame<D>>, at: nat, p: Trie<D>)
    requires at < |key| && OnPath(root, key, path, at, p) && WellFormed(p, |key| - at)
    requires Agrees(p.prefix, key, at) && Has(p.ct, key[at + |p.prefix|])
    ensures var next := at + |p.prefix|;
            OnPath(root, key, path + [Frame(p, key[next], Slot(p.ct, key[next]))], next + 1, Son(p, key[next]))
  {
    hide Agrees, Slot, Has, Son;
    var next := at + |p.prefix|;
    var longer := path + [Frame(p, key[next], Slot(p.ct, key[next]))];
    assert longer[..|longer| - 1] == path;
  }

  ghost predicate FrameShaped<D>(f: Frame<D>) {
    Shaped(f.node) && Has(f.node.ct, f.ix)
  }

  ghost predicate FramesShaped<D>(path: seq<Frame<D>>) {
    forall i :: 0 <= i < |path| ==> FrameShaped(path[i])
  }

  /** Going up: each node becomes what it is after its son has become `u`. */
  ghost function Up<D>(path: seq<Frame<D>>, u: Trie<D>): Trie<D>
    requires FramesShaped(path)
  {
    if path == [] then u
    else var f := path[|path| - 1]; assert FrameShaped(f); Up(path[..|path| - 1], After(f.node, f.ix, u))
  }

  lemma {:induction false} PathShaped<D>(root: Trie<D>, key: Key, path: seq<Frame<D>>, at: nat, p: Trie<D>)
    requires at <= |key| && OnPath(root, key, path, at, p)
    ensures FramesShaped(path)
    decreases |path|
  {
    hide OFFSET, CELL_SIZE;
    if path != [] {
      var f := path[|path| - 1];
      PathShaped(root, key, path[..|path| - 1], at - 1 - |f.node.prefix|, f.node);
      forall i | 0 <= i < |path| ensures FrameShaped(path[i]) {
        if i < |path| - 1 {
          assert path[..|path| - 1][i] == path[i];
        }
      }
    }
  }

  lemma {:induction false} ChangedIsUp<D>(
    root: Trie<D>, key: Key, path: seq<Frame<D>>, at: nat, p: Trie<D>, d: Option<D>)
    requires at <= |key| && OnPath(root, key, path, at, p)
    requires Valid(p, |key| - at) && Lookup(p, key, at).Some? && Valid(root, |key|) && Lookup(root, key, 0).Some?
    requires FramesShaped(path)
    ensures Changed(root, key, 0, d) == Up(path, Changed(p, key, at, d))
    decreases |path|
  {
    hide OFFSET, CELL_SIZE, Lookup, Changed, After, Son, Agrees;
    if path != [] {
      var f := path[|path| - 1];
      var fAt := at - 1 - |f.node.prefix|;
      LookupAt(f.node, key, fAt);
      ChangedCase(f.node, key, fAt, d);
      ChangedIsUp(root, key, path[..|path| - 1], fAt, f.node, d);
    }
  }

  /** Sons are nodes, except those of the node where the key ends. */
  lemma SonIsNode<D>(t: Trie<D>, n: nat, b: Digit)
    requires WellFormed(t, n) && n > 0 && Has(t.ct, b)
    ensures Son(t, b).Node? <==> n > |t.prefix| + 1
  {
    SonValid(t, n, b);
  }

  /** The loop that copies all sons but one. */
  method DropSon<D>(p: Trie<D>, ix: Digit) returns (r: Trie<D>)
    requires Shaped(p) && Has(p.ct, ix) && CELL_SIZE[p.ct] > 2
    ensures r == Shrunk(p, ix)
  {
    SlotIsRank(p.ct, ix);
    var sons := CopyAllBut(p.ct, p.sons, ix);
    OffsetInCell(p.ct, ix);
    r := Node(p.prefix, CELL_TYPE_WITHOUT[p.ct][ix], sons);
  }

  method CopyAllBut<D>(ct: nat, sons: seq<Trie<D>>, ix: Digit) returns (copied: seq<Trie<D>>)
    requires ct < 15 && |sons| == Rank(ct, 4) && Has(ct, ix)
    ensures 1 <= Slot(ct, ix) <= |sons| && copied == Dropped(sons, Slot(ct, ix))
  {
    hide Rank, Has, Slot, OFFSET, CELL_SIZE;
    copied := [];
    SlotIsRank(ct, ix);
    ghost var gap := Rank(ct, ix);
    RankStep(ct, 0);
    var j: nat := 0;
    while j < 4
      invariant j <= 4 && Rank(ct, j) <= |sons|
      invariant if j <= ix then Rank(ct, j) <= gap else gap + 1 <= Rank(ct, j)
      invariant copied == if j <= ix then sons[..Rank(ct, j)] else sons[..gap] + sons[gap + 1..Rank(ct, j)]
    {
      SlotIsRank(ct, j);
      RankStep(ct, j);
      var i := Slot(ct, j);
      if i != 0 && j != ix {
        copied := copied + [sons[i - 1]];
      }
      j := j + 1;
      RankBelow(ct, j, ix);
    }
  }

  lemma SlotIsRank(ct: nat, b: Digit)
    requires ct < 15
    ensures CELL_SIZE[ct] == Rank(ct, 4) + 1 && Slot(ct, b) == OFFSET[ct][b]
    ensures if Has(ct, b) then Slot(ct, b) == Rank(ct, b) + 1 <= Rank(ct, 4) else Slot(ct, b) == 0
  {
    OffsetIsRank(ct, b);
    SizeIsRank(ct);
  }

  lemma RankStep(ct: nat, j: nat)
    requires ct < 15 && j < 4
    ensures Rank(ct, 0) == 0 && Rank(ct, j + 1) == Rank(ct, j) + if Has(ct, j) then 1 else 0
    ensures Rank(ct, j + 1) <= Rank(ct, 4)
  {
  }

  lemma RankBelow(ct: nat, j: nat, b: nat)
    requires ct < 15
    ensures j <= b ==> Rank(ct, j) <= Rank(ct, b)
  {
  }

  /** What the first loop up does at a node that loses a son; `last` says that the node is the one
      where the key ends. */
  method Lose<D>(f: Frame<D>, last: bool, ghost n: nat) returns (r: Trie<D>)
    requires n > 0 && WellFormed(f.node, n) && FrameShaped(f) && f.slot == Slot(f.node.ct, f.ix)
    requires last <==> n == |f.node.prefix| + 1
    ensures r == After(f.node, f.ix, Null)
  {
    var p, ix, slot := f.node, f.ix, f.slot;
    OffsetInCell(p.ct, ix);
    var cs := CELL_SIZE[p.ct];
    if cs == 2 {
      return Null;
    }
    if cs == 3 {
      var c := OtherDigit(p.ct, ix);
      var q := p.sons[3 - slot - 1];
      assert q == Son(p, c);
      SonIsNode(p, n, c);
      if !last && 2 * |p.prefix| + 2 * |q.prefix| <= 18 {
        assert DEOFFSET[p.ct][2 - slot] == c;
        return Node(p.prefix + [DEOFFSET[p.ct][2 - slot]] + q.prefix, q.ct, q.sons);
      }
    }
    r := DropSon(p, ix);
  }

  /** What the second loop up does: a copy with the new son. */
  method Copy<D>(f: Frame<D>, x: Trie<D>) returns (r: Trie<D>)
    requires FrameShaped(f) && f.slot == Slot(f.node.ct, f.ix) && !x.Null?
    ensures r == After(f.node, f.ix, x) && r.Node?
  {
    OffsetInCell(f.node.ct, f.ix);
    r := Node(f.node.prefix, f.node.ct, f.node.sons[f.slot - 1 := x]);
  }

  /** The way down. */
  method Descend<D(==)>(root: Trie<D>, key: Key) returns (path: seq<Frame<D>>, p: Trie<D>, found: bool)
    requires WellFormed(root, |key|)
    ensures found <==> Lookup(root, key, 0).Some?
    ensures found ==> p.Data? && Lookup(root, key, 0) == Some(p.value) && OnPath(root, key, path, |key|, p)
  {
    hide Slot, Has, Son, OnPath, Lookup, Agrees;
    path, p, found := [], root, false;
    var at: nat := 0;
    PathStart(root, key);
    while at < |key|
      invariant at <= |key| && WellFormed(p, |key| - at) && OnPath(root, key, path, at, p)
      invariant Lookup(p, key, at) == Lookup(root, key, 0)
    {
      LookupAt(p, key, at);
      if !Agrees(p.prefix, key, at) {
        return;
      }
      var ix := key[at + |p.prefix|];
      SonValid(p, |key| - at, ix);
      if Slot(p.ct, ix) == 0 {
        NullLookup<D>(key, at + |p.prefix| + 1);
        return;
      }
      PathPushed(root, key, path, at, p);
      path := path + [Frame(p, ix, Slot(p.ct, ix))];
      at := at + |p.prefix| + 1;
      p := Son(p, ix);
    }
    LookupAtEnd(p, key);
    found := true;
  }

  lemma PathStart<D>(root: Trie<D>, key: Key)
    ensures OnPath(root, key, [], 0, root)
  {
  }

  /** `triev2_delete`. */
  method DeleteLoop<D(==)>(root: Trie<D>, key: Key, change: D -> Option<D>) returns (r: Trie<D>)
    requires Valid(root, |key|) && key != []
    ensures r == Delete(root, key, change)
  {
    hide OnPath, WellFormed, Up;
    if root.Null? {
      return Null;
    }
    var path, p, found := Descend(root, key);
    if !found {
      return root;
    }
    var data := change(p.value);
    if data == Some(p.value) {
      return root;
    }
    DataValid(p);
    PathShaped(root, key, path, |key|, p);
    ChangedIsUp(root, key, path, |key|, p, data);
    ChangedAtEnd(p, key, data);
    r := Ascend(root, key, path, p, data);
  }

  lemma DataValid<D>(p: Trie<D>)
    requires p.Data?
    ensures Valid(p, 0) && forall key: Key :: Lookup(p, key, |key|) == Some(p.value)
  {
  }

  /** The frame at the end of a path, and the path before it. */
  lemma PathLast<D>(root: Trie<D>, key: Key, path: seq<Frame<D>>, level: nat, at: nat, below: Trie<D>, x: Trie<D>)
    requires level < |path| && at <= |key| && OnPath(root, key, path[..level + 1], at, below)
    requires FramesShaped(path)
    ensures var f := path[level];
            && f.node.Node? && FrameShaped(f) && FramesShaped(path[..level]) && FramesShaped(path[..level + 1])
            && at >= |f.node.prefix| + 1 && f.slot == Slot(f.node.ct, f.ix)
            && WellFormed(f.node, |key| - (at - 1 - |f.node.prefix|))
            && OnPath(root, key, path[..level], at - 1 - |f.node.prefix|, f.node)
            && Up(path[..level + 1], x) == Up(path[..level], After(f.node, f.ix, x))
  {
    assert path[..level + 1][..level] == path[..level];
    assert FrameShaped(path[level]);
    hide Slot, Has, WellFormed, After;
  }

  /** The way up: first as long as sons vanish, then copying. */
  method Ascend<D(==)>(ghost root: Trie<D>, ghost key: Key, path: seq<Frame<D>>, ghost leaf: Trie<D>, data: Option<D>)
    returns (x: Trie<D>)
    requires OnPath(root, key, path, |key|, leaf) && FramesShaped(path)
    ensures x == Up(path, if data.None? then Null else Data(data.value))
  {
    hide OnPath, WellFormed, After, FrameShaped, Slot;
    x := if data.None? then Null else Data(data.value);
    ghost var at: nat, below, u := |key|, leaf, x;
    var level: nat := |path|;
    assert path[..level] == path;
    var lastInternalNodeLevel := level - 1;
    while level > 0 && x.Null?
      invariant level <= |path| && at <= |key| && (at == |key| <==> level == |path|)
      invariant OnPath(root, key, path[..level], at, below)
      invariant FramesShaped(path[..level]) && Up(path[..level], x) == Up(path, u)
    {
      level := level - 1;
      PathLast(root, key, path, level, at, below, x);
      x := Lose(path[level], level == lastInternalNodeLevel, |key| - (at - 1 - |path[level].node.prefix|));
      at := at - 1 - |path[level].node.prefix|;
      below := path[level].node;
    }
    if x.Null? {
      assert path[..0] == [];
      return;
    }
    x := CopyUp(root, key, path, level, at, below, x);
  }

  method CopyUp<D(==)>(ghost root: Trie<D>, ghost key: Key, path: seq<Frame<D>>, level0: nat,
                       ghost at0: nat, ghost below0: Trie<D>, x0: Trie<D>) returns (x: Trie<D>)
    requires level0 <= |path| && at0 <= |key| && !x0.Null? && FramesShaped(path)
    requires OnPath(root, key, path[..level0], at0, below0) && FramesShaped(path[..level0])
    ensures x == Up(path[..level0], x0)
  {
    hide OnPath, WellFormed, After, FrameShaped, Slot;
    x := x0;
    ghost var at: nat, below := at0, below0;
    var level: nat := level0;
    while level > 0
      invariant level <= |path| && at <= |key| && !x.Null?
      invariant OnPath(root, key, path[..level], at, below)
      invariant FramesShaped(path[..level]) && Up(path[..level], x) == Up(path[..level0], x0)
    {
      level := level - 1;
      PathLast(root, key, path, level, at, below, x);
      x := Copy(path[level], x);
      at := at - 1 - |path[level].node.prefix|;
      below := path[level].node;
    }
    assert path[..0] == [];
  }
}
