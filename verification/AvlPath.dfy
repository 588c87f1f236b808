/** `avl_insert` and `avl_delete`: the versions that keep the copied ancestors in an array. */
module AvlPath {

  import opened Wrappers
  import opened AvlTree
  import opened AvlWords
  import opened AvlPass

  /** An entry of `path`: the copied node and the slot of the son that was taken. */
  datatype Frame<D> = Frame(node: Tree<D>, son: nat)

  /** The path read from its end is a history. */
  ghost function TrailOf<D>(path: seq<Frame<D>>): Trail<D> {
    if path == [] then Start
    else Step(path[|path| - 1].node, path[|path| - 1].son, TrailOf(path[..|path| - 1]))
  }

  lemma TrailOfPushed<D>(path: seq<Frame<D>>, f: Frame<D>)
    ensures TrailOf(path + [f]) == Step(f.node, f.son, TrailOf(path))
  {
    assert (path + [f])[..|path|] == path;
  }

  lemma {:induction false} TrailOfDepth<D>(path: seq<Frame<D>>)
    ensures Depth(TrailOf(path)) == |path|
  {
    if path != [] {
      TrailOfDepth(path[..|path| - 1]);
    }
  }

  /** The search that fills the path; each entry costs a node of four words. */
  method FillPath<D(==)>(root: Tree<D>, key: int) returns (path: seq<Frame<D>>, p: Tree<D>)
    ensures p.Leaf? && Descends(root, key, TrailOf(path), p)
  {
    path := [];
    p := root;
    while p.Node?
      invariant Descends(root, key, TrailOf(path), p)
      decreases p
    {
      TrailOfPushed(path, Frame(p, if key <= p.key then 2 else 3));
      if key <= p.key {
        path := path + [Frame(p, 2)];
        p := p.left;
      } else {
        path := path + [Frame(p, 3)];
        p := p.right;
      }
    }
  }

  /** `path[0].node`, once `p` has been hung in the slot of the last of the entries:
      the stored heights of the entries stay as they were copied. */
  function PathRoot<D>(path: seq<Frame<D>>, p: Tree<D>): Tree<D>
    requires forall i :: 0 <= i < |path| ==> path[i].node.Node?
  {
    if path == [] then p
    else
      var f := path[|path| - 1];
      PathRoot(path[..|path| - 1],
               Node(f.node.height, f.node.key, if f.son == 2 then p else f.node.left,
                    if f.son == 2 then f.node.right else p))
  }

  lemma {:induction false} PathIsTrail<D>(root: Tree<D>, key: int, path: seq<Frame<D>>, t: Tree<D>, p: Tree<D>)
    requires Descends(root, key, TrailOf(path), t)
    ensures AllNodes(TrailOf(path)) && (forall i :: 0 <= i < |path| ==> path[i].node.Node?)
    ensures PathRoot(path, p) == Plug(TrailOf(path), p)
  {
    TrailHasNodes(root, key, TrailOf(path), t);
    if path != [] {
      var f := path[|path| - 1];
      PathIsTrail(root, key, path[..|path| - 1], f.node,
                  Node(f.node.height, f.node.key, if f.son == 2 then p else f.node.left,
                       if f.son == 2 then f.node.right else p));
      forall i | 0 <= i < |path| ensures path[i].node.Node? {
        if i < |path| - 1 {
          assert path[..|path| - 1][i] == path[i];
        }
      }
    }
  }

  /** The copies on the path cost four words each over what is hung below them. */
  lemma {:induction false} PathCosts<D>(root: Tree<D>, key: int, path: seq<Frame<D>>, t: Tree<D>, p: Tree<D>)
    requires Descends(root, key, TrailOf(path), t) && forall i :: 0 <= i < |path| ==> path[i].node.Node?
    ensures NewWords(PathRoot(path, p), Some(root)) <= NewWords(p, Some(root)) + 4 * |path|
  {
    if path != [] {
      var f := path[|path| - 1];
      var q := Node(f.node.height, f.node.key, if f.son == 2 then p else f.node.left,
                    if f.son == 2 then f.node.right else p);
      TrailIsWithin(root, key, TrailOf(path), t);
      OldIsFree(f.node.left, root);
      OldIsFree(f.node.right, root);
      NodeCosts(q, Some(root));
      PathCosts(root, key, path[..|path| - 1], f.node, q);
    }
  }

  lemma {:induction false} NilpotentInsert<D>(t: Tree<D>, key: int, data: D)
    requires Avl(t) && Lookup(t, key) == Some(data)
    ensures Inserted(t, key, data) == t
  {
    if t.Node? {
      if key <= t.key {
        NilpotentInsert(t.left, key, data);
      } else {
        NilpotentInsert(t.right, key, data);
      }
    }
  }

  /** The leaf where the search for a key ends. */
  function EndLeaf<D>(t: Tree<D>, key: int): (r: Tree<D>)
    ensures r.Leaf?
  {
    if t.Leaf? then t else EndLeaf(if key <= t.key then t.left else t.right, key)
  }

  lemma {:induction false} EndLeafAnswers<D>(t: Tree<D>, key: int)
    ensures Lookup(t, key) == if EndLeaf(t, key).key == key then Some(EndLeaf(t, key).data) else None
  {
    if t.Node? {
      EndLeafAnswers(if key <= t.key then t.left else t.right, key);
    }
  }

  lemma {:induction false} TrailEnds<D>(root: Tree<D>, key: int, h: Trail<D>, t: Tree<D>)
    requires Descends(root, key, h, t)
    ensures EndLeaf(root, key) == EndLeaf(t, key)
    decreases h
  {
    if h.Step? {
      TrailEnds(root, key, h.up, h.node);
    }
  }

  lemma LeafAnswers<D>(p: Tree<D>, key: int)
    requires p.Leaf?
    ensures Lookup(p, key) == if p.key == key then Some(p.data) else None
    ensures EndLeaf(p, key) == p
  {
  }

  lemma BalancedStays<D>(p: Tree<D>)
    requires p.Node? && -1 <= Balance(p) <= 1
    ensures FixInserted(p) == p
  {
  }

  /** One entry up: what is hung in the copy, and what the copy is repaired to. */
  lemma GrownStep<D>(root: Tree<D>, key: int, data: D, path: seq<Frame<D>>, level: nat, below: Tree<D>)
    requires level < |path| && Descends(root, key, TrailOf(path[..level + 1]), below) && Avl(root) && Avl(below)
    ensures var at, grown := path[level].node, Inserted(below, key, data);
            && at.Node? && Avl(at) && Descends(root, key, TrailOf(path[..level]), at)
            && var p := Hang(at, path[level].son, grown);
               && (Balance(p) < -1 ==> p.left.Node? && (Balance(p.left) == 1 ==> p.left.right.Node?))
               && (Balance(p) > 1 ==> p.right.Node? && (Balance(p.right) == -1 ==> p.right.left.Node?))
               && Inserted(at, key, data) == FixInserted(p)
               && (!(-1 <= Balance(p) <= 1) ==> Stored(FixInserted(p)) == Stored(at))
               && NewWords(p.left, Some(root)) + NewWords(p.right, Some(root)) == NewWords(grown, Some(root))
  {
    hide NewWords, Within, FixInserted;
    InsertedBalances(below, key, data);
    assert path[..level + 1][..level] == path[..level];
    var at, grown := path[level].node, Inserted(below, key, data);
    TrailIsAvl(root, key, TrailOf(path[..level]), at);
    HangHasSons(at, path[level].son, grown);
    RepairRestoresHeight(at, path[level].son, below, grown);
    HangCosts(root, key, TrailOf(path[..level + 1]), below, grown);
  }

  type Update<!D> = (Option<D>, D) -> D

  /** The datum that is stored.  The update function is given the datum of the leaf where the search ends, also
      if that leaf has another key. */
  function NewDatum<D>(root: Option<Tree<D>>, key: int, update: Option<Update<D>>, data: D): D {
    if update.None? then data
    else update.value(if root.None? then None else Some(EndLeaf(root.value, key).data), data)
  }

  /** So the datum stored is what every update function makes of what the key answered before, exactly when the
      key is there or the tree is empty. */
  lemma UpdateIsRightIff<D(!new)>(root: Option<Tree<D>>, key: int, data: D, a: D, b: D)
    requires a != b
    ensures (forall update: Update<D> :: NewDatum(root, key, Some(update), data)
                                         == update(if root.None? then None else Lookup(root.value, key), data))
            <==> root.None? || Lookup(root.value, key).Some?
  {
    if root.Some? {
      EndLeafAnswers(root.value, key);
      if Lookup(root.value, key).None? {
        var update: Update<D> := (o: Option<D>, d: D) => if o.None? then a else b;
        assert NewDatum(root, key, Some(update), data) == b && update(Lookup(root.value, key), data) == a;
      }
    }
  }

  /** Insertion is the update of a map, at every key: with the datum itself, or with what the update function makes
      of it and the key's old datum, if the key is there. */
  lemma InsertIsUpdate<D>(root: Tree<D>, key: int, update: Option<Update<D>>, data: D, q: int)
    requires Avl(root) && Ordered(root, Open, Open)
    ensures var t := Inserted(root, key, NewDatum(Some(root), key, update, data));
            && (q != key ==> Lookup(t, q) == Lookup(root, q))
            && (update.None? ==> Lookup(t, key) == Some(data))
            && (update.Some? && Lookup(root, key).Some? ==> Lookup(t, key) == Some(update.value(Lookup(root, key), data)))
  {
    EndLeafAnswers(root, key);
    InsertedLookup(root, Open, Open, key, NewDatum(Some(root), key, update, data), q);
    InsertedLookup(root, Open, Open, key, NewDatum(Some(root), key, update, data), key);
  }

  /** `avl_insert`: it stops at the first rotation, and leaves the stored heights above it alone, yet on an AVL
      tree it gives what replaying the whole history gives. */
  method Insert<D(==)>(root: Option<Tree<D>>, key: int, update: Option<Update<D>>, data0: D)
    returns (result: Tree<D>, words: nat, ghost levels: nat)
    requires root.Some? ==> Avl(root.value)
    ensures update.None? ==> result == if root.None? then Leaf(key, data0) else Inserted(root.value, key, data0)
    ensures update.Some? ==>
              result == if root.None? then Leaf(key, update.value(None, data0))
                        else Inserted(root.value, key, update.value(Some(EndLeaf(root.value, key).data), data0))
    ensures levels <= if root.None? then 0 else Stored(root.value)
    ensures words <= 4 * (if root.None? then 0 else Stored(root.value)) + 15 && NewWords(result, root) <= words
  {
    hide NewWords, Within, Lookup, EndLeaf, Plug, ClimbInserted, AllNodes, FixInserted;
    levels := 0;
    var data := data0;
    if root.None? {
      if update.Some? {
        data := update.value(None, data);
      }
      LeafCosts(key, data, root);
      return Leaf(key, data), 3, levels;
    }
    var path, p := FillPath(root.value, key);
    TrailEnds(root.value, key, TrailOf(path), p);
    LeafAnswers(p, key);
    assert EndLeaf(root.value, key) == p;
    if update.Some? {
      data := update.value(Some(p.data), data);
    }
    levels := |path|;
    TrailOfDepth(path);
    TrailIsAvl(root.value, key, TrailOf(path), p);
    PathIsTrail(root.value, key, path, p, Inserted(p, key, data));
    TrailLookup(root.value, key, TrailOf(path), p);
    ClimbIsInserted(root.value, key, data, TrailOf(path), p);
    words := 4 * |path|;
    if key == p.key {
      if p.data == data {
        NilpotentInsert(root.value, key, data);
        GivenIsFree(root.value);
        return root.value, 0, levels;
      }
      ClimbIsPlug(root.value, key, TrailOf(path), p, Leaf(key, data));
      PathCosts(root.value, key, path, p, Leaf(key, data));
      LeafCosts(key, data, root);
      return PathRoot(path, Leaf(key, data)), words + 3, levels;
    }
    var grown := if key < p.key then Node(1, key, Leaf(key, data), p) else Node(1, p.key, p, Leaf(key, data));
    words := words + 7;
    TrailIsWithin(root.value, key, TrailOf(path), p);
    OldIsFree(p, root.value);
    LeafCosts(key, data, root);
    NodeCosts(grown, root);
    ghost var at := p;
    var level: nat := |path|;
    assert path[..level] == path;
    while level > 0
      invariant level <= |path| && Descends(root.value, key, TrailOf(path[..level]), at) && Avl(at)
      invariant grown == Inserted(at, key, data)
      invariant words == 4 * |path| + 7 && NewWords(grown, root) <= 4 * (|path| - level) + 7
      decreases level
    {
      level := level - 1;
      GrownStep(root.value, key, data, path, level, at);
      at := path[level].node;
      p := Hang(path[level].node, path[level].son, grown);
      NodeCosts(p, root);
      if Balance(p) < -1 || Balance(p) > 1 {
        var cost;
        grown, cost := RepairAfterInsert(p, root);
        words := words + cost;
        PathIsTrail(root.value, key, path[..level], at, grown);
        ClimbIsInserted(root.value, key, data, TrailOf(path[..level]), at);
        ClimbIsPlug(root.value, key, TrailOf(path[..level]), at, grown);
        PathCosts(root.value, key, path[..level], at, grown);
        return PathRoot(path[..level], grown), words, levels;
      }
      BalancedStays(p);
      grown := p;
    }
    assert TrailOf(path[..0]) == Start;
    return grown, words, levels;
  }

  // ---------- avl_delete ----------

  /** What a rotation leaves in the cell of `p` itself, which `path[0].node` still names. */
  function Demoted<D>(p: Tree<D>): Tree<D>
    requires p.Node?
  {
    if Balance(p) < -1 && p.left.Node? then
      if Balance(p.left) == 1 && p.left.right.Node? then Make(p.key, p.left.right.right, p.right)
      else Make(p.key, p.left.right, p.right)
    else if Balance(p) > 1 && p.right.Node? then
      if Balance(p.right) == -1 && p.right.left.Node? then Make(p.key, p.left, p.right.left.left)
      else Make(p.key, p.left, p.right.left)
    else p
  }

  /** The copy of the root over its reduced son, if that son is not gone altogether. */
  function RootBeforeRepair<D>(t: Tree<D>, key: int): (r: Option<Tree<D>>)
    ensures r.Some? ==> r.value.Node?
  {
    if t.Leaf? then None
    else
      var u := Deleted(if key <= t.key then t.left else t.right, key);
      if u.None? then None else Some(Hang(t, if key <= t.key then 2 else 3, u.value))
  }

  predicate RotatesAtRoot<D>(t: Tree<D>, key: int) {
    var p := RootBeforeRepair(t, key);
    p.Some? && !(-1 <= Balance(p.value) <= 1)
  }

  /** What `avl_delete` returns for a key in the tree. */
  function DeletedByPath<D>(t: Tree<D>, key: int): Option<Tree<D>> {
    if RotatesAtRoot(t, key) then Some(Demoted(RootBeforeRepair(t, key).value)) else Deleted(t, key)
  }

  /** That cell is the son of the rotated root on the side to which the rotation goes. */
  lemma DemotedIsSon<D>(p: Tree<D>)
    requires p.Node? && !(-1 <= Balance(p) <= 1) && (Balance(p) < -1 ==> p.left.Node?) && (Balance(p) > 1 ==> p.right.Node?)
    ensures FixDeleted(p).Node? && Demoted(p) == if Balance(p) < -1 then FixDeleted(p).right else FixDeleted(p).left
  {
  }

  /** The root is rotated exactly when its reduced son is more than one lower, or higher, than the other one. */
  lemma RotatesIff<D>(t: Tree<D>, key: int)
    requires t.Node?
    ensures RotatesAtRoot(t, key) <==>
              if key <= t.key then Deleted(t.left, key).Some? && !(-1 <= Stored(t.right) - Stored(Deleted(t.left, key).value) <= 1)
              else Deleted(t.right, key).Some? && !(-1 <= Stored(Deleted(t.right, key).value) - Stored(t.left) <= 1)
  {
  }

  /** What is named at the root is what its copy over the reduced son becomes. */
  lemma ByPathIs<D>(t: Tree<D>, key: int, son: Tree<D>)
    requires t.Node? && Deleted(if key <= t.key then t.left else t.right, key) == Some(son)
    ensures DeletedByPath(t, key) == Some(Demoted(Hang(t, if key <= t.key then 2 else 3, son)))
  {
  }

  lemma ByShortPathIs<D>(t: Tree<D>, key: int)
    requires t.Node? ==> Deleted(if key <= t.key then t.left else t.right, key).None?
    ensures DeletedByPath(t, key) == Deleted(t, key)
  {
  }

  lemma DemotedCosts<D>(p: Tree<D>, given: Option<Tree<D>>)
    requires p.Node?
    ensures NewWords(Demoted(p), given) <= 4 + NewWords(p.left, given) + NewWords(p.right, given)
  {
    hide NewWords;
    NodeCosts(Demoted(p), given);
    if p.left.Node? {
      NodeCosts(p.left, given);
      if p.left.right.Node? {
        NodeCosts(p.left.right, given);
      }
    }
    if p.right.Node? {
      NodeCosts(p.right, given);
      if p.right.left.Node? {
        NodeCosts(p.right.left, given);
      }
    }
  }

  /** `avl_delete`: right up to a rotation at the root, after which it returns the cell that the rotation has
      moved down.  A delete function changes the datum in place of deleting it. */
  method Delete<D(==)>(root: Option<Tree<D>>, key: int, deleteFun: Option<D -> D>) returns (result: Option<Tree<D>>, words: nat)
    requires root.Some? ==> Avl(root.value)
    ensures result == if root.None? || Lookup(root.value, key).None? then root
                      else if deleteFun.Some? then Some(Inserted(root.value, key, deleteFun.value(Lookup(root.value, key).value)))
                      else DeletedByPath(root.value, key)
    ensures words <= 12 * (if root.None? then 0 else Stored(root.value)) + if deleteFun.Some? then 3 else 0
    ensures result.Some? ==> NewWords(result.value, root) <= words
  {
    hide NewWords, Within, Plug, ClimbInserted, AllNodes, FixDeleted, FixInserted, Demoted, DeletedByPath, RotatesAtRoot;
    if root.None? {
      return None, 0;
    }
    var path, p := FillPath(root.value, key);
    TrailOfDepth(path);
    TrailIsAvl(root.value, key, TrailOf(path), p);
    TrailLookup(root.value, key, TrailOf(path), p);
    if key != p.key {
      GivenIsFree(root.value);
      return root, 0;
    }
    if deleteFun.Some? {
      var data := deleteFun.value(p.data);
      if data == p.data {
        NilpotentInsert(root.value, key, data);
        GivenIsFree(root.value);
        return root, 0;
      }
      PathIsTrail(root.value, key, path, p, Leaf(key, data));
      ClimbIsInserted(root.value, key, data, TrailOf(path), p);
      ClimbIsPlug(root.value, key, TrailOf(path), p, Leaf(key, data));
      PathCosts(root.value, key, path, p, Leaf(key, data));
      LeafCosts(key, data, root);
      return Some(PathRoot(path, Leaf(key, data))), 4 * |path| + 3;
    }
    words := 4 * |path|;
    var level := |path|;
    if level == 0 {
      ByShortPathIs(root.value, key);
      return None, 0;
    }
    level := level - 1;
    PathIsTrail(root.value, key, path, p, p);
    ghost var at := path[level].node;
    var newSon := if path[level].son == 2 then path[level].node.right else path[level].node.left;
    assert Deleted(at, key) == Some(newSon);
    TrailIsWithin(root.value, key, TrailOf(path), p);
    OldIsFree(newSon, root.value);
    if level == 0 {
      ByShortPathIs(root.value, key);
      return Some(newSon), words;
    }
    // what `path[0].node` names: nothing yet to tell from the tree being built
    var cell0 := newSon;
    while level > 0
      invariant level < |path| && Descends(root.value, key, TrailOf(path[..level]), at)
      invariant Deleted(at, key) == Some(newSon)
      invariant 4 * |path| <= words <= 4 * |path| + 8 * (|path| - 1 - level)
      invariant NewWords(newSon, root) <= words - 4 * (level + 1) && NewWords(cell0, root) <= words
      invariant level == 0 ==> Some(cell0) == DeletedByPath(root.value, key)
      invariant level == |path| - 1 ==> level > 0
      decreases level
    {
      level := level - 1;
      assert path[..level + 1][..level] == path[..level];
      ghost var below := at;
      at := path[level].node;
      TrailIsAvl(root.value, key, TrailOf(path[..level]), at);
      DeletedSonIsAvl(at, key, newSon);
      HangHasSons(at, path[level].son, newSon);
      p := Hang(path[level].node, path[level].son, newSon);
      HangCosts(root.value, key, TrailOf(path[..level + 1]), below, newSon);
      DemotedCosts(p, root);
      ByPathIs(at, key, newSon);
      var cost;
      newSon, cost := RepairAfterDelete(p, root);
      words := words + cost;
      cell0 := Demoted(p);
    }
    return Some(cell0), words;
  }

  // ---------- exactly when avl_delete loses entries ----------

  /** The key of the leaf at the left end. */
  function FirstKey<D>(t: Tree<D>): int {
    if t.Leaf? then t.key else FirstKey(t.left)
  }

  lemma {:induction false} FirstKeyIsFound<D>(t: Tree<D>, lo: End, hi: End)
    requires Ordered(t, lo, hi)
    ensures Lookup(t, FirstKey(t)).Some? && Above(lo, FirstKey(t)) && AtMost(FirstKey(t), hi)
  {
    if t.Node? {
      GuideWithin(t, lo, hi);
      FirstKeyIsFound(t.left, lo, At(t.key));
    }
  }

  /** The rotated tree has a key that the moved-down cell has not. */
  lemma DemotedLosesKey<D>(p: Tree<D>) returns (q: int)
    requires p.Node? && Ordered(p, Open, Open) && !(-1 <= Balance(p) <= 1)
    requires Balance(p) < -1 ==> p.left.Node?
    requires Balance(p) > 1 ==> p.right.Node?
    ensures Lookup(p, q).Some? && Lookup(Demoted(p), q).None?
  {
    if Balance(p) < -1 {
      q := FirstKey(p.left.left);
      assert Ordered(p.left, Open, At(p.key));
      FirstKeyIsFound(p.left.left, Open, At(p.left.key));
      GuideWithin(p.left.right, At(p.left.key), At(p.key));
      if p.left.right.Node? {
        assert Ordered(p.left.right, At(p.left.key), At(p.key));
        GuideWithin(p.left.right.left, At(p.left.key), At(p.left.right.key));
        LookupOutside(p.left.right.right, At(p.left.right.key), At(p.key), q);
      }
      LookupOutside(p.left.right, At(p.left.key), At(p.key), q);
    } else {
      q := FirstKey(p.right.right);
      assert Ordered(p.right, At(p.key), Open);
      FirstKeyIsFound(p.right.right, At(p.right.key), Open);
      GuideWithin(p.right.left, At(p.key), At(p.right.key));
      if p.right.left.Node? {
        assert Ordered(p.right.left, At(p.key), At(p.right.key));
        GuideWithin(p.right.left.right, At(p.right.left.key), At(p.right.key));
        LookupOutside(p.right.left.left, At(p.key), At(p.right.left.key), q);
      }
      LookupOutside(p.right.left, At(p.key), At(p.right.key), q);
    }
  }

  /** `avl_delete` removes the key and keeps every other one exactly when the root is not rotated. */
  lemma DeleteIsRightUnlessRootRotates<D>(t: Tree<D>, key: int)
    requires Avl(t) && Ordered(t, Open, Open) && Lookup(t, key).Some? && t.Node?
    ensures DeletedByPath(t, key).Some?
    ensures (forall q :: Lookup(DeletedByPath(t, key).value, q) == if q == key then None else Lookup(t, q))
            <==> !RotatesAtRoot(t, key)
  {
    DeletedBalances(t, key);
    if RotatesAtRoot(t, key) {
      var p := RootBeforeRepair(t, key).value;
      var son := if key <= t.key then t.left else t.right;
      DeletedSonIsAvl(t, key, Deleted(son, key).value);
      HangHasSons(t, if key <= t.key then 2 else 3, Deleted(son, key).value);
      if key <= t.key {
        DeletedOrdered(t.left, Open, At(t.key), key);
      } else {
        DeletedOrdered(t.right, At(t.key), Open, key);
      }
      var q := DemotedLosesKey(p);
      FixKeeps(p, Open, Open, q);
      DeletedLookup(t, Open, Open, key, q);
    } else {
      forall q ensures Lookup(DeletedByPath(t, key).value, q) == if q == key then None else Lookup(t, q) {
        DeletedLookup(t, Open, Open, key, q);
      }
    }
  }

  /** It does happen: of five leaves the first is removed, and two others are lost with it. */
  lemma RootRotationExample()
    ensures var t := Node(3, 2, Node(1, 1, Leaf(1, 10), Leaf(2, 20)),
                          Node(2, 3, Leaf(3, 30), Node(1, 4, Leaf(4, 40), Leaf(5, 50))));
            && Avl(t) && Ordered(t, Open, Open) && RotatesAtRoot(t, 1)
            && Lookup(t, 5) == Some(50) && DeletedByPath(t, 1) == Some(Node(1, 2, Leaf(2, 20), Leaf(3, 30)))
  {
    var right := Node(2, 3, Leaf(3, 30), Node(1, 4, Leaf(4, 40), Leaf(5, 50)));
    var t := Node(3, 2, Node(1, 1, Leaf(1, 10), Leaf(2, 20)), right);
    assert Avl(right) && Ordered(right, At(2), Open) && Lookup(right, 5) == Some(50);
    assert Deleted(t.left, 1) == Some(Leaf(2, 20));
  }
}
