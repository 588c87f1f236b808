/** The loops of avl.c: the history lists of the byte-code version, and the path of
    `avl_insert` and `avl_delete`, against insertion and deletion by recursion. */
module AvlPass {

  import opened Wrappers
  import opened AvlTree
  import opened AvlWords

  /** A history: the node passed last comes first, with the slot (2 or 3) of the son that was
      taken, or 0 for a leaf that has the key. */
  datatype Trail<D> = Start | Step(node: Tree<D>, ix: nat, up: Trail<D>)

  function Depth<D>(h: Trail<D>): nat {
    if h.Start? then 0 else 1 + Depth(h.up)
  }

  /** The search for `key` from `root` has passed `h` and stands at `t`. */
  predicate Descends<D(==)>(root: Tree<D>, key: int, h: Trail<D>, t: Tree<D>) {
    match h
    case Start => t == root
    case Step(n, ix, up) =>
      && n.Node? && Descends(root, key, up, n)
      && if key <= n.key then ix == 2 && t == n.left else ix == 3 && t == n.right
  }

  /** A history that `avl_bc_insert` may be given: it begins with the leaf where the search ended. */
  predicate BuiltForInsert<D(==)>(root: Option<Tree<D>>, key: int, h: Trail<D>) {
    if root.None? then h.Start?
    else
      && h.Step? && h.node.Leaf? && Descends(root.value, key, h.up, h.node)
      && h.ix == if key == h.node.key then 0 else if key < h.node.key then 2 else 3
  }

  /** A copy of `n` with `t` in slot `ix`. */
  function Hang<D>(n: Tree<D>, ix: nat, t: Tree<D>): Tree<D>
    requires n.Node?
  {
    if ix == 2 then Make(n.key, t, n.right) else Make(n.key, n.left, t)
  }

  ghost predicate AllNodes<D>(h: Trail<D>) {
    h.Step? ==> h.node.Node? && AllNodes(h.up)
  }

  ghost function ClimbInserted<D>(h: Trail<D>, t: Tree<D>): Tree<D>
    requires AllNodes(h)
  {
    if h.Start? then t else ClimbInserted(h.up, FixInserted(Hang(h.node, h.ix, t)))
  }

  ghost function ClimbDeleted<D>(h: Trail<D>, t: Tree<D>): Tree<D>
    requires AllNodes(h)
  {
    if h.Start? then t else ClimbDeleted(h.up, FixDeleted(Hang(h.node, h.ix, t)))
  }

  /** Going up with copies whose stored heights are left as they were. */
  ghost function Plug<D>(h: Trail<D>, t: Tree<D>): Tree<D>
    requires AllNodes(h)
  {
    if h.Start? then t
    else Plug(h.up, Node(h.node.height, h.node.key,
                         if h.ix == 2 then t else h.node.left, if h.ix == 2 then h.node.right else t))
  }

  lemma {:induction false} TrailHasNodes<D>(root: Tree<D>, key: int, h: Trail<D>, t: Tree<D>)
    requires Descends(root, key, h, t)
    ensures AllNodes(h)
  {
    if h.Step? {
      TrailHasNodes(root, key, h.up, h.node);
    }
  }

  /** What the search has come to is part of the tree. */
  lemma {:induction false} TrailIsWithin<D>(root: Tree<D>, key: int, h: Trail<D>, t: Tree<D>)
    requires Descends(root, key, h, t)
    ensures Within(t, root)
    ensures h.Step? ==> Within(h.node, root) && Within(h.node.left, root) && Within(h.node.right, root)
  {
    if h.Step? {
      TrailIsWithin(root, key, h.up, h.node);
      SonsWithin(h.node, root);
    }
  }

  /** A copy of a node passed costs four words over what is hung in it. */
  lemma HangCosts<D>(root: Tree<D>, key: int, h: Trail<D>, t: Tree<D>, son: Tree<D>)
    requires Descends(root, key, h, t) && h.Step? && h.node.Node?
    ensures var p := Hang(h.node, h.ix, son);
            NewWords(p.left, Some(root)) + NewWords(p.right, Some(root)) == NewWords(son, Some(root))
  {
    TrailIsWithin(root, key, h, t);
    OldIsFree(h.node.left, root);
    OldIsFree(h.node.right, root);
  }

  lemma {:induction false} TrailIsAvl<D>(root: Tree<D>, key: int, h: Trail<D>, t: Tree<D>)
    requires Descends(root, key, h, t) && Avl(root)
    ensures Avl(t) && Stored(t) + Depth(h) <= Stored(root)
  {
    if h.Step? {
      TrailIsAvl(root, key, h.up, h.node);
    }
  }

  /** Replaying a history gives what the recursion gives. */
  lemma {:induction false} ClimbIsInserted<D>(root: Tree<D>, key: int, data: D, h: Trail<D>, t: Tree<D>)
    requires Descends(root, key, h, t) && AllNodes(h)
    ensures ClimbInserted(h, Inserted(t, key, data)) == Inserted(root, key, data)
  {
    if h.Step? {
      ClimbIsInserted(root, key, data, h.up, h.node);
    }
  }

  lemma {:induction false} ClimbIsDeleted<D>(root: Tree<D>, key: int, h: Trail<D>, t: Tree<D>)
    requires Descends(root, key, h, t) && AllNodes(h) && Deleted(t, key).Some?
    ensures Deleted(root, key) == Some(ClimbDeleted(h, Deleted(t, key).value))
  {
    if h.Step? {
      ClimbIsDeleted(root, key, h.up, h.node);
    }
  }

  /** Once a subtree is as high as it was, nothing above it changes: neither a height nor a balance. */
  lemma {:induction false} ClimbIsPlug<D>(root: Tree<D>, key: int, h: Trail<D>, t: Tree<D>, u: Tree<D>)
    requires Descends(root, key, h, t) && AllNodes(h) && Avl(root) && Stored(u) == Stored(t)
    ensures ClimbInserted(h, u) == Plug(h, u)
  {
    if h.Step? {
      TrailIsAvl(root, key, h.up, h.node);
      var n := Hang(h.node, h.ix, u);
      assert Balance(n) == Balance(h.node);
      assert FixInserted(n) == n;
      ClimbIsPlug(root, key, h.up, h.node, n);
    }
  }

  lemma {:induction false} PlugRestores<D>(root: Tree<D>, key: int, h: Trail<D>, t: Tree<D>)
    requires Descends(root, key, h, t) && AllNodes(h)
    ensures Plug(h, t) == root
  {
    if h.Step? {
      PlugRestores(root, key, h.up, h.node);
    }
  }

  lemma {:induction false} TrailLookup<D>(root: Tree<D>, key: int, h: Trail<D>, t: Tree<D>)
    requires Descends(root, key, h, t)
    ensures Lookup(root, key) == Lookup(t, key)
  {
    if h.Step? {
      TrailLookup(root, key, h.up, h.node);
    }
  }

  // ---------- heights and allocation ----------

  function Leaves<D>(t: Tree<D>): nat {
    if t.Leaf? then 1 else Leaves(t.left) + Leaves(t.right)
  }

  function Fib(n: nat): nat {
    if n < 2 then n else Fib(n - 2) + Fib(n - 1)
  }

  lemma {:induction false} FibGrows(m: nat, n: nat)
    requires m <= n
    ensures Fib(m) <= Fib(n)
    decreases n
  {
    if m < n {
      FibGrows(m, n - 1);
    }
  }

  lemma FibTenSteps(n: nat)
    ensures Fib(n + 10) == 34 * Fib(n) + 55 * Fib(n + 1)
    ensures Fib(n + 11) == 55 * Fib(n) + 89 * Fib(n + 1)
  {
    assert Fib(n + 4) == 2 * Fib(n) + 3 * Fib(n + 1);
    assert Fib(n + 6) == 5 * Fib(n) + 8 * Fib(n + 1);
    assert Fib(n + 8) == 13 * Fib(n) + 21 * Fib(n + 1);
  }

  lemma FibFifty()
    ensures Fib(50) > LEAF_LIMIT
  {
    assert Fib(10) == 55 && Fib(11) == 89;
    FibTenSteps(10);
    FibTenSteps(20);
    FibTenSteps(30);
    FibTenSteps(40);
  }

  lemma FibFromFifty(n: nat)
    requires n >= 50
    ensures Fib(n) > LEAF_LIMIT
  {
    hide Fib;
    FibFifty();
    FibGrows(50, n);
  }

  lemma {:induction false} AtLeastFibLeaves<D>(t: Tree<D>)
    requires Avl(t)
    ensures Stored(t) >= 0 && Leaves(t) >= Fib(Stored(t) + 2)
  {
    StoredIsNatural(t);
    if t.Node? {
      AtLeastFibLeaves(t.left);
      AtLeastFibLeaves(t.right);
      FibGrows(Stored(t), Stored(t.left) + 2);
      FibGrows(Stored(t), Stored(t.right) + 2);
      assert Fib(Stored(t) + 2) == Fib(Stored(t)) + Fib(Stored(t) + 1);
    }
  }

  const LEAF_LIMIT: nat := 0x1_0000_0000
  const AVL_MAX_ALLOCATION_IN_INSERT: nat := 207
  const AVL_MAX_ALLOCATION_IN_DELETE: nat := 583
  const PATH_LENGTH: nat := 50

  /** Below 2^32 leaves the height is below 48, the path array is long enough and both
      allocation bounds hold. */
  lemma HeightBound<D>(t: Tree<D>)
    requires Avl(t) && Leaves(t) < LEAF_LIMIT
    ensures Stored(t) < 48 && Stored(t) <= PATH_LENGTH
    ensures 4 * Stored(t) + 15 <= AVL_MAX_ALLOCATION_IN_INSERT
    ensures 12 * Stored(t) <= AVL_MAX_ALLOCATION_IN_DELETE
  {
    AtLeastFibLeaves(t);
    if Stored(t) >= 48 {
      FibFromFifty(Stored(t) + 2);
    }
  }

  // ---------- repairs and their cost ----------

  /** The choice of a rotation in insertion; a simple one allocates one node of four words,
      a double one two. */
  method RepairAfterInsert<D>(p: Tree<D>, ghost given: Option<Tree<D>>) returns (r: Tree<D>, words: nat)
    requires p.Node?
    requires Balance(p) < -1 ==> p.left.Node? && (Balance(p.left) == 1 ==> p.left.right.Node?)
    requires Balance(p) > 1 ==> p.right.Node? && (Balance(p.right) == -1 ==> p.right.left.Node?)
    ensures r == FixInserted(p)
    ensures words <= 8 && (-1 <= Balance(p) <= 1 ==> words == 0)
    ensures NewWords(r, given) <= words + 4 + NewWords(p.left, given) + NewWords(p.right, given)
  {
    hide NewWords;
    NodeCosts(p, given);
    r, words := p, 0;
    var balance := Balance(p);
    if balance < -1 {
      var balanceOfSon := Balance(p.left);
      if balanceOfSon == -1 {
        r, words := SimpleRotateRight(p), 4;
        SimpleRightCosts(p, given);
      } else if balanceOfSon == 1 {
        r, words := DoubleRotateRight(p), 8;
        DoubleRightCosts(p, given);
      }
    } else if balance > 1 {
      var balanceOfSon := Balance(p.right);
      if balanceOfSon == 1 {
        r, words := SimpleRotateLeft(p), 4;
        SimpleLeftCosts(p, given);
      } else if balanceOfSon == -1 {
        r, words := DoubleRotateLeft(p), 8;
        DoubleLeftCosts(p, given);
      }
    }
  }

  /** The choice of a rotation in deletion. */
  method RepairAfterDelete<D>(p: Tree<D>, ghost given: Option<Tree<D>>) returns (r: Tree<D>, words: nat)
    requires p.Node?
    requires Balance(p) < -1 ==> p.left.Node? && (Balance(p.left) == 1 ==> p.left.right.Node?)
    requires Balance(p) > 1 ==> p.right.Node? && (Balance(p.right) == -1 ==> p.right.left.Node?)
    ensures r == FixDeleted(p)
    ensures words <= 8 && (-1 <= Balance(p) <= 1 ==> words == 0)
    ensures NewWords(r, given) <= words + 4 + NewWords(p.left, given) + NewWords(p.right, given)
  {
    hide NewWords;
    NodeCosts(p, given);
    r, words := p, 0;
    var balance := Balance(p);
    if balance < -1 {
      var balanceOfSon := Balance(p.left);
      if balanceOfSon == 1 {
        r, words := DoubleRotateRight(p), 8;
        DoubleRightCosts(p, given);
      } else {
        r, words := SimpleRotateRight(p), 4;
        SimpleRightCosts(p, given);
      }
    } else if balance > 1 {
      var balanceOfSon := Balance(p.right);
      if balanceOfSon == -1 {
        r, words := DoubleRotateLeft(p), 8;
        DoubleLeftCosts(p, given);
      } else {
        r, words := SimpleRotateLeft(p), 4;
        SimpleLeftCosts(p, given);
      }
    }
  }

  /** A copy of an AVL node over a new son has higher sons where a rotation looks for them. */
  lemma HangHasSons<D>(n: Tree<D>, ix: nat, t: Tree<D>)
    requires n.Node? && Avl(n) && Avl(t)
    ensures var p := Hang(n, ix, t);
            && (Balance(p) < -1 ==> p.left.Node? && (Balance(p.left) == 1 ==> p.left.right.Node?))
            && (Balance(p) > 1 ==> p.right.Node? && (Balance(p.right) == -1 ==> p.right.left.Node?))
  {
    var p := Hang(n, ix, t);
    HigherSon(p.left, p.right);
  }

  // ---------- histories ----------

  method BuildHistoryForInsert<D(==)>(root: Option<Tree<D>>, key: int) returns (history: Trail<D>)
    ensures BuiltForInsert(root, key, history)
  {
    history := Start;
    if root.None? {
      return;
    }
    var p := root.value;
    while p.Node?
      invariant Descends(root.value, key, history, p)
      decreases p
    {
      if key <= p.key {
        history := Step(p, 2, history);
        p := p.left;
      } else {
        history := Step(p, 3, history);
        p := p.right;
      }
    }
    history := Step(p, if key == p.key then 0 else if key < p.key then 2 else 3, history);
  }

  method BuildHistoryForDelete<D(==)>(root: Tree<D>, key: int) returns (history: Trail<D>, found: bool)
    ensures found <==> Lookup(root, key).Some?
    ensures found ==> exists d :: Descends(root, key, history, Leaf(key, d))
    ensures !found ==> history.Start?
  {
    history := Start;
    var p := root;
    while p.Node?
      invariant Descends(root, key, history, p)
      decreases p
    {
      if key <= p.key {
        history := Step(p, 2, history);
        p := p.left;
      } else {
        history := Step(p, 3, history);
        p := p.right;
      }
    }
    TrailLookup(root, key, history, p);
    found := key == p.key;
    if found {
      assert p == Leaf(key, p.data);
    } else {
      history := Start;
    }
  }

  /** The copies of the ancestors cost four words each, the new leaf and its node seven, and
      at most one repair, after which the subtree is as high as before, eight. */
  ghost predicate InsertWords<D>(words: nat, at: Tree<D>, newPath: Tree<D>) {
    words <= 4 * Stored(at) + 7 + (if Stored(newPath) == Stored(at) then 8 else 0)
  }

  /** `avl_bc_insert`: `root` is the tree that the history was built in. */
  method BcInsert<D(==)>(h: Trail<D>, key: int, data: D, ghost root: Option<Tree<D>>)
    returns (newPath: Tree<D>, words: nat)
    requires BuiltForInsert(root, key, h) && (root.Some? ==> Avl(root.value))
    ensures newPath == if root.None? then Leaf(key, data) else Inserted(root.value, key, data)
    ensures words <= 4 * (if root.None? then 0 else Stored(root.value)) + 15
    ensures NewWords(newPath, root) <= words
  {
    var newLeaf := Leaf(key, data);
    words := 3;
    if h.Start? {
      return newLeaf, words;
    }
    var p := h.node;
    if h.ix == 0 {
      newPath := newLeaf;
    } else {
      newPath := if h.ix == 2 then Node(1, key, newLeaf, p) else Node(1, p.key, p, newLeaf);
      words := words + 4;
    }
    var history := h.up;
    ghost var at := p;
    TrailIsWithin(root.value, key, h.up, p);
    TrailHasNodes(root.value, key, history, at);
    ClimbIsInserted(root.value, key, data, history, at);
    while history.Step?
      invariant Descends(root.value, key, history, at) && AllNodes(history) && Avl(at)
      invariant newPath == Inserted(at, key, data)
      invariant InsertWords(words, at, newPath) && NewWords(newPath, root) <= words
      decreases history
    {
      ghost var below, grown := at, newPath;
      InsertedBalances(below, key, data);
      at := history.node;
      TrailIsAvl(root.value, key, history.up, at);
      HangHasSons(at, history.ix, grown);
      p := Hang(history.node, history.ix, newPath);
      HangCosts(root.value, key, history, below, grown);
      var cost;
      newPath, cost := RepairAfterInsert(p, root);
      words := words + 4 + cost;
      RepairRestoresHeight(at, history.ix, below, grown);
      history := history.up;
    }
    InsertedBalances(at, key, data);
  }

  /** A rotation in insertion happens only under growth, and undoes it. */
  lemma RepairRestoresHeight<D>(at: Tree<D>, ix: nat, below: Tree<D>, grown: Tree<D>)
    requires at.Node? && Avl(at) && Avl(grown) && below == if ix == 2 then at.left else at.right
    requires Stored(below) <= Stored(grown) <= Stored(below) + 1
    requires Stored(grown) == Stored(below) + 1 && below.Node? ==> grown.Node? && Balance(grown) != 0
    ensures var item := Hang(at, ix, grown);
            && (Stored(grown) == Stored(below) ==> FixInserted(item) == item && Stored(item) == Stored(at)
                                                   && -1 <= Balance(item) <= 1)
            && (!(-1 <= Balance(item) <= 1) ==> Stored(FixInserted(item)) == Stored(at))
            && Stored(below) < Stored(at)
  {
    var item := Hang(at, ix, grown);
    if !(-1 <= Balance(item) <= 1) {
      StoredIsNatural(at.left);
      StoredIsNatural(at.right);
      FixInsertedBalances(item.key, item.left, item.right);
    }
  }

  lemma DeletedSonIsAvl<D>(n: Tree<D>, key: int, t: Tree<D>)
    requires Avl(n) && n.Node? && Deleted(if key <= n.key then n.left else n.right, key) == Some(t)
    ensures Avl(t)
  {
    DeletedBalances(if key <= n.key then n.left else n.right, key);
  }

  /** `avl_bc_delete`: the history leads to the leaf with the key. */
  method BcDelete<D(==)>(h: Trail<D>, ghost root: Tree<D>, ghost key: int, ghost leaf: Tree<D>)
    returns (result: Option<Tree<D>>, words: nat)
    requires Avl(root) && leaf.Leaf? && Descends(root, key, h, leaf)
    ensures result == Deleted(root, key)
    ensures words <= 12 * Stored(root)
    ensures result.Some? ==> NewWords(result.value, Some(root)) <= words
  {
    hide NewWords, Within;
    TrailIsAvl(root, key, h, leaf);
    words := 0;
    if h.Start? {
      return None, words;
    }
    var newPath := if h.ix == 2 then h.node.right else h.node.left;
    var history := h.up;
    ghost var at := h.node;
    TrailIsWithin(root, key, h, leaf);
    OldIsFree(newPath, root);
    assert Deleted(at, key) == Some(newPath);
    if history.Start? {
      return Some(newPath), words;
    }
    TrailIsAvl(root, key, history.up, history.node);
    DeletedSonIsAvl(history.node, key, newPath);
    HangHasSons(history.node, history.ix, newPath);
    HangCosts(root, key, history, at, newPath);
    newPath := Hang(history.node, history.ix, newPath);
    words := words + 4;
    at := history.node;
    history := history.up;
    while true
      invariant newPath.Node? && Descends(root, key, history, at)
      invariant NewWords(newPath.left, Some(root)) + NewWords(newPath.right, Some(root)) + 4 <= words
      invariant Deleted(at, key) == Some(FixDeleted(newPath))
      invariant Balance(newPath) < -1 ==> newPath.left.Node? && (Balance(newPath.left) == 1 ==> newPath.left.right.Node?)
      invariant Balance(newPath) > 1 ==> newPath.right.Node? && (Balance(newPath.right) == -1 ==> newPath.right.left.Node?)
      invariant Depth(history) < Depth(h) && words <= 12 * (Depth(h) - Depth(history)) - 8
      decreases Depth(history)
    {
      var cost;
      newPath, cost := RepairAfterDelete(newPath, Some(root));
      words := words + cost;
      if history.Start? {
        return Some(newPath), words;
      }
      TrailIsAvl(root, key, history.up, history.node);
      DeletedSonIsAvl(history.node, key, newPath);
      HangHasSons(history.node, history.ix, newPath);
      HangCosts(root, key, history, at, newPath);
      newPath := Hang(history.node, history.ix, newPath);
      words := words + 4;
      at := history.node;
      history := history.up;
    }
  }
}
