/** The leaf-oriented AVL trees of avl.c: rotations on stored heights, insertion and deletion
    by recursion, and what they keep. */
module AvlTree {

  import opened Wrappers

  /** `CELL_avl_leaf` with its data, `CELL_avl_internal` with its stored height and guide key. */
  datatype Tree<D> =
    | Leaf(key: int, data: D)
    | Node(height: int, key: int, left: Tree<D>, right: Tree<D>)

  /** The height that is stored in a cell. */
  function Stored<D>(t: Tree<D>): int {
    if t.Leaf? then 0 else t.height
  }

  /** `HEIGHT`: from the stored heights of the sons. */
  function HeightOver<D>(l: Tree<D>, r: Tree<D>): int {
    if Stored(l) > Stored(r) then Stored(l) + 1 else Stored(r) + 1
  }

  /** `BALANCE`: also from the stored heights of the sons. */
  function Balance<D>(p: Tree<D>): int
    requires p.Node?
  {
    Stored(p.right) - Stored(p.left)
  }

  function Make<D>(key: int, l: Tree<D>, r: Tree<D>): Tree<D> {
    Node(HeightOver(l, r), key, l, r)
  }

  // ---------- rotations ----------

  function SimpleRotateRight<D>(p: Tree<D>): Tree<D>
    requires p.Node? && p.left.Node?
  {
    var q := p.left;
    Make(q.key, q.left, Make(p.key, q.right, p.right))
  }

  function SimpleRotateLeft<D>(p: Tree<D>): Tree<D>
    requires p.Node? && p.right.Node?
  {
    var q := p.right;
    Make(q.key, Make(p.key, p.left, q.left), q.right)
  }

  function DoubleRotateRight<D>(p: Tree<D>): Tree<D>
    requires p.Node? && p.left.Node? && p.left.right.Node?
  {
    var q := p.left;
    var r := q.right;
    Make(r.key, Make(q.key, q.left, r.left), Make(p.key, r.right, p.right))
  }

  function DoubleRotateLeft<D>(p: Tree<D>): Tree<D>
    requires p.Node? && p.right.Node? && p.right.left.Node?
  {
    var q := p.right;
    var r := q.left;
    Make(r.key, Make(p.key, p.left, r.left), Make(q.key, r.right, q.right))
  }

  /** What insertion does to a node that has got out of balance. */
  function FixInserted<D>(p: Tree<D>): Tree<D>
    requires p.Node?
  {
    if Balance(p) < -1 && p.left.Node? then
      if Balance(p.left) == -1 then SimpleRotateRight(p)
      else if Balance(p.left) == 1 && p.left.right.Node? then DoubleRotateRight(p)
      else p
    else if Balance(p) > 1 && p.right.Node? then
      if Balance(p.right) == 1 then SimpleRotateLeft(p)
      else if Balance(p.right) == -1 && p.right.left.Node? then DoubleRotateLeft(p)
      else p
    else p
  }

  /** What deletion does: a simple rotation also when the son is in balance. */
  function FixDeleted<D>(p: Tree<D>): Tree<D>
    requires p.Node?
  {
    if Balance(p) < -1 && p.left.Node? then
      if Balance(p.left) == 1 && p.left.right.Node? then DoubleRotateRight(p) else SimpleRotateRight(p)
    else if Balance(p) > 1 && p.right.Node? then
      if Balance(p.right) == -1 && p.right.left.Node? then DoubleRotateLeft(p) else SimpleRotateLeft(p)
    else p
  }

  // ---------- what a tree must keep ----------

  /** Stored heights are exact, and every balance is -1, 0 or 1. */
  predicate Avl<D>(t: Tree<D>) {
    t.Node? ==>
      && t.height == HeightOver(t.left, t.right) && -1 <= Balance(t) <= 1
      && Avl(t.left) && Avl(t.right)
  }

  /** An open end of a range of keys, or the key at the end. */
  datatype End = Open | At(key: int)

  predicate Above(lo: End, k: int) { lo.At? ==> lo.key < k }

  predicate AtMost(k: int, hi: End) { hi.At? ==> k <= hi.key }

  /** Keys above `lo` and at most `hi`; left of a guide the keys are at most the guide, right of it greater. */
  predicate Ordered<D>(t: Tree<D>, lo: End, hi: End) {
    match t
    case Leaf(k, _) => Above(lo, k) && AtMost(k, hi)
    case Node(_, k, l, r) => Ordered(l, lo, At(k)) && Ordered(r, At(k), hi)
  }

  function Lookup<D>(t: Tree<D>, key: int): Option<D> {
    match t
    case Leaf(k, d) => if key == k then Some(d) else None
    case Node(_, k, l, r) => if key <= k then Lookup(l, key) else Lookup(r, key)
  }

  /** The leaf with this key and datum occurs somewhere in the tree. */
  predicate Occurs<D(==)>(t: Tree<D>, key: int, data: D) {
    match t
    case Leaf(k, d) => k == key && d == data
    case Node(_, _, l, r) => Occurs(l, key, data) || Occurs(r, key, data)
  }

  lemma {:induction false} OccursWithin<D>(t: Tree<D>, lo: End, hi: End, key: int, data: D)
    requires Ordered(t, lo, hi) && Occurs(t, key, data)
    ensures Above(lo, key) && AtMost(key, hi)
  {
    if t.Node? {
      GuideWithin(t, lo, hi);
      if Occurs(t.left, key, data) {
        OccursWithin(t.left, lo, At(t.key), key, data);
      } else {
        OccursWithin(t.right, At(t.key), hi, key, data);
      }
    }
  }

  /** Since both subtrees have a leaf, the guide lies inside the range. */
  lemma {:induction false} GuideWithin<D>(t: Tree<D>, lo: End, hi: End)
    requires Ordered(t, lo, hi)
    ensures Above(lo, t.key) && AtMost(t.key, hi)
    ensures lo.At? && hi.At? ==> lo.key < hi.key
    ensures t.Node? && hi.At? ==> t.key < hi.key
  {
    if t.Node? {
      GuideWithin(t.left, lo, At(t.key));
      GuideWithin(t.right, At(t.key), hi);
    }
  }

  /** In an ordered tree the search finds exactly the leaves that are there. */
  lemma {:induction false} LookupFindsLeaves<D>(t: Tree<D>, lo: End, hi: End, key: int, data: D)
    requires Ordered(t, lo, hi)
    ensures Lookup(t, key) == Some(data) <==> Occurs(t, key, data)
  {
    if t.Node? {
      LookupFindsLeaves(t.left, lo, At(t.key), key, data);
      LookupFindsLeaves(t.right, At(t.key), hi, key, data);
      if Occurs(t.left, key, data) {
        OccursWithin(t.left, lo, At(t.key), key, data);
      }
      if Occurs(t.right, key, data) {
        OccursWithin(t.right, At(t.key), hi, key, data);
      }
    }
  }

  // ---------- the repairs ----------

  /** A rotation keeps the order and every answer of the search. */
  lemma SimpleRightKeeps<D>(p: Tree<D>, lo: End, hi: End, q: int)
    requires p.Node? && p.left.Node? && Ordered(p, lo, hi)
    ensures Ordered(SimpleRotateRight(p), lo, hi)
    ensures Lookup(SimpleRotateRight(p), q) == Lookup(p, q)
  {
    var k, j := p.key, p.left.key;
    assert Ordered(p.left, lo, At(k));
    GuideWithin(p.left.right, At(j), At(k));
    assert Ordered(Make(k, p.left.right, p.right), At(j), hi);
  }

  lemma SimpleLeftKeeps<D>(p: Tree<D>, lo: End, hi: End, q: int)
    requires p.Node? && p.right.Node? && Ordered(p, lo, hi)
    ensures Ordered(SimpleRotateLeft(p), lo, hi)
    ensures Lookup(SimpleRotateLeft(p), q) == Lookup(p, q)
  {
    var k, j := p.key, p.right.key;
    assert Ordered(p.right, At(k), hi);
    GuideWithin(p.right.left, At(k), At(j));
    assert Ordered(Make(k, p.left, p.right.left), lo, At(j));
  }

  /** A double rotation is two simple ones. */
  lemma DoubleRightKeeps<D>(p: Tree<D>, lo: End, hi: End, q: int)
    requires p.Node? && p.left.Node? && p.left.right.Node? && Ordered(p, lo, hi)
    ensures Ordered(DoubleRotateRight(p), lo, hi)
    ensures Lookup(DoubleRotateRight(p), q) == Lookup(p, q)
  {
    SimpleLeftKeeps(p.left, lo, At(p.key), q);
    var p' := Make(p.key, SimpleRotateLeft(p.left), p.right);
    SimpleRightKeeps(p', lo, hi, q);
    assert SimpleRotateRight(p') == DoubleRotateRight(p);
  }

  lemma DoubleLeftKeeps<D>(p: Tree<D>, lo: End, hi: End, q: int)
    requires p.Node? && p.right.Node? && p.right.left.Node? && Ordered(p, lo, hi)
    ensures Ordered(DoubleRotateLeft(p), lo, hi)
    ensures Lookup(DoubleRotateLeft(p), q) == Lookup(p, q)
  {
    SimpleRightKeeps(p.right, At(p.key), hi, q);
    var p' := Make(p.key, p.left, SimpleRotateRight(p.right));
    SimpleLeftKeeps(p', lo, hi, q);
    assert SimpleRotateLeft(p') == DoubleRotateLeft(p);
  }

  /** A repair moves subtrees about, but no key. */
  lemma FixKeeps<D>(p: Tree<D>, lo: End, hi: End, q: int)
    requires p.Node? && Ordered(p, lo, hi)
    ensures Ordered(FixInserted(p), lo, hi) && Ordered(FixDeleted(p), lo, hi)
    ensures Lookup(FixInserted(p), q) == Lookup(p, q) && Lookup(FixDeleted(p), q) == Lookup(p, q)
  {
    if p.left.Node? {
      SimpleRightKeeps(p, lo, hi, q);
      if p.left.right.Node? {
        DoubleRightKeeps(p, lo, hi, q);
      }
    }
    if p.right.Node? {
      SimpleLeftKeeps(p, lo, hi, q);
      if p.right.left.Node? {
        DoubleLeftKeeps(p, lo, hi, q);
      }
    }
  }

  lemma {:induction false} StoredIsNatural<D>(t: Tree<D>)
    requires Avl(t)
    ensures Stored(t) >= 0 && (t.Node? <==> Stored(t) > 0)
  {
    if t.Node? {
      StoredIsNatural(t.left);
      StoredIsNatural(t.right);
    }
  }

  /** The left son is two higher than the right one and does not lean to the right. */
  lemma SimpleRightBalances<D>(key: int, l: Tree<D>, r: Tree<D>)
    requires Avl(l) && Avl(r) && l.Node? && Stored(l) == Stored(r) + 2 && Balance(l) <= 0
    ensures var t := SimpleRotateRight(Make(key, l, r));
            Avl(t) && Stored(t) == Stored(l) + 1 + Balance(l)
  {
    var inner := Make(key, l.right, r);
    assert Avl(inner) && Stored(inner) == Stored(l.right) + 1;
  }

  lemma SimpleLeftBalances<D>(key: int, l: Tree<D>, r: Tree<D>)
    requires Avl(l) && Avl(r) && r.Node? && Stored(r) == Stored(l) + 2 && Balance(r) >= 0
    ensures var t := SimpleRotateLeft(Make(key, l, r));
            Avl(t) && Stored(t) == Stored(r) + 1 - Balance(r)
  {
    var inner := Make(key, l, r.left);
    assert Avl(inner) && Stored(inner) == Stored(r.left) + 1;
  }

  lemma DoubleRightBalances<D>(key: int, l: Tree<D>, r: Tree<D>)
    requires Avl(l) && Avl(r) && l.Node? && l.right.Node?
    requires Stored(l) == Stored(r) + 2 && Balance(l) == 1
    ensures var t := DoubleRotateRight(Make(key, l, r));
            Avl(t) && Stored(t) == Stored(l)
  {
    var m := l.right;
    assert Avl(Make(l.key, l.left, m.left));
    assert Avl(Make(key, m.right, r));
  }

  lemma DoubleLeftBalances<D>(key: int, l: Tree<D>, r: Tree<D>)
    requires Avl(l) && Avl(r) && r.Node? && r.left.Node?
    requires Stored(r) == Stored(l) + 2 && Balance(r) == -1
    ensures var t := DoubleRotateLeft(Make(key, l, r));
            Avl(t) && Stored(t) == Stored(r)
  {
    var m := r.left;
    assert Avl(Make(key, l, m.left));
    assert Avl(Make(r.key, m.right, r.right));
  }

  /** The higher son of a node that is out of balance is a node; so is its inner son
      when it leans inwards. */
  lemma HigherSon<D>(l: Tree<D>, r: Tree<D>)
    requires Avl(l) && Avl(r)
    ensures Stored(l) > Stored(r) ==> l.Node? && (Balance(l) == 1 ==> l.right.Node?)
    ensures Stored(r) > Stored(l) ==> r.Node? && (Balance(r) == -1 ==> r.left.Node?)
  {
    StoredIsNatural(l);
    StoredIsNatural(r);
    if l.Node? {
      StoredIsNatural(l.left);
      StoredIsNatural(l.right);
    }
    if r.Node? {
      StoredIsNatural(r.left);
      StoredIsNatural(r.right);
    }
  }

  /** One of two AVL subtrees has grown by one: the repair gives an AVL tree; after a rotation
      it is as high as before the growth. */
  lemma FixInsertedBalances<D>(key: int, l: Tree<D>, r: Tree<D>)
    requires Avl(l) && Avl(r) && -2 <= Stored(r) - Stored(l) <= 2
    requires Stored(r) - Stored(l) == -2 ==> l.Node? && Balance(l) != 0
    requires Stored(r) - Stored(l) == 2 ==> r.Node? && Balance(r) != 0
    ensures var t := FixInserted(Make(key, l, r));
            && Avl(t)
            && Stored(t) == if -2 < Stored(r) - Stored(l) < 2 then HeightOver(l, r) else HeightOver(l, r) - 1
  {
    HigherSon(l, r);
    if Stored(r) - Stored(l) == -2 {
      if Balance(l) == -1 { SimpleRightBalances(key, l, r); } else { DoubleRightBalances(key, l, r); }
    } else if Stored(r) - Stored(l) == 2 {
      if Balance(r) == 1 { SimpleLeftBalances(key, l, r); } else { DoubleLeftBalances(key, l, r); }
    }
  }

  /** One of two AVL subtrees has shrunk by one: the repair gives an AVL tree, at most one lower. */
  lemma FixDeletedBalances<D>(key: int, l: Tree<D>, r: Tree<D>)
    requires Avl(l) && Avl(r) && -2 <= Stored(r) - Stored(l) <= 2
    ensures var t := FixDeleted(Make(key, l, r));
            && Avl(t) && HeightOver(l, r) - 1 <= Stored(t) <= HeightOver(l, r)
            && (-1 <= Stored(r) - Stored(l) <= 1 ==> Stored(t) == HeightOver(l, r))
  {
    HigherSon(l, r);
    if Stored(r) - Stored(l) == -2 {
      if Balance(l) == 1 { DoubleRightBalances(key, l, r); } else { SimpleRightBalances(key, l, r); }
    } else if Stored(r) - Stored(l) == 2 {
      if Balance(r) == -1 { DoubleLeftBalances(key, l, r); } else { SimpleLeftBalances(key, l, r); }
    }
  }

  // ---------- insertion ----------

  /** Insertion by recursion: a leaf becomes a node over two leaves, and every ancestor is repaired. */
  function Inserted<D>(t: Tree<D>, key: int, data: D): Tree<D> {
    match t
    case Leaf(k, _) =>
      if key == k then Leaf(key, data)
      else if key < k then Node(1, key, Leaf(key, data), t)
      else Node(1, k, t, Leaf(key, data))
    case Node(_, k, l, r) =>
      if key <= k then FixInserted(Make(k, Inserted(l, key, data), r))
      else FixInserted(Make(k, l, Inserted(r, key, data)))
  }

  lemma {:induction false} InsertedBalances<D>(t: Tree<D>, key: int, data: D)
    requires Avl(t)
    ensures var u := Inserted(t, key, data);
            && Avl(u) && Stored(t) <= Stored(u) <= Stored(t) + 1
            // a tree that has grown leans to one side, unless it was a leaf
            && (Stored(u) == Stored(t) + 1 && t.Node? ==> u.Node? && Balance(u) != 0)
  {
    if t.Node? {
      StoredIsNatural(t.left);
      StoredIsNatural(t.right);
      if key <= t.key {
        InsertedBalances(t.left, key, data);
        FixInsertedBalances(t.key, Inserted(t.left, key, data), t.right);
      } else {
        InsertedBalances(t.right, key, data);
        FixInsertedBalances(t.key, t.left, Inserted(t.right, key, data));
      }
    }
  }

  lemma {:induction false} InsertedOrdered<D>(t: Tree<D>, lo: End, hi: End, key: int, data: D)
    requires Ordered(t, lo, hi) && Above(lo, key) && AtMost(key, hi)
    ensures Ordered(Inserted(t, key, data), lo, hi)
  {
    if t.Node? {
      if key <= t.key {
        InsertedOrdered(t.left, lo, At(t.key), key, data);
        FixKeeps(Make(t.key, Inserted(t.left, key, data), t.right), lo, hi, 0);
      } else {
        InsertedOrdered(t.right, At(t.key), hi, key, data);
        FixKeeps(Make(t.key, t.left, Inserted(t.right, key, data)), lo, hi, 0);
      }
    }
  }

  lemma {:induction false} InsertedLookup<D>(t: Tree<D>, lo: End, hi: End, key: int, data: D, q: int)
    requires Ordered(t, lo, hi) && Above(lo, key) && AtMost(key, hi)
    ensures Lookup(Inserted(t, key, data), q) == if q == key then Some(data) else Lookup(t, q)
  {
    if t.Node? {
      if key <= t.key {
        InsertedOrdered(t.left, lo, At(t.key), key, data);
        InsertedLookup(t.left, lo, At(t.key), key, data, q);
        FixKeeps(Make(t.key, Inserted(t.left, key, data), t.right), lo, hi, q);
      } else {
        InsertedOrdered(t.right, At(t.key), hi, key, data);
        InsertedLookup(t.right, At(t.key), hi, key, data, q);
        FixKeeps(Make(t.key, t.left, Inserted(t.right, key, data)), lo, hi, q);
      }
    }
  }

  // ---------- deletion ----------

  /** Deletion of a key that is in the tree: the brother takes the place of the leaf's parent,
      and every other ancestor is repaired.  A tree of one leaf becomes empty. */
  function Deleted<D>(t: Tree<D>, key: int): Option<Tree<D>>
  {
    match t
    case Leaf(_, _) => None
    case Node(_, k, l, r) =>
      if key <= k then
        var u := Deleted(l, key);
        if u.None? then Some(r) else Some(FixDeleted(Make(k, u.value, r)))
      else
        var u := Deleted(r, key);
        if u.None? then Some(l) else Some(FixDeleted(Make(k, l, u.value)))
  }

  lemma {:induction false} DeletedBalances<D>(t: Tree<D>, key: int)
    requires Avl(t)
    ensures Deleted(t, key).None? <==> t.Leaf?
    ensures Deleted(t, key).Some? ==>
              && Avl(Deleted(t, key).value)
              && Stored(t) - 1 <= Stored(Deleted(t, key).value) <= Stored(t)
  {
    if t.Node? {
      StoredIsNatural(t.left);
      StoredIsNatural(t.right);
      if key <= t.key {
        DeletedBalances(t.left, key);
        if t.left.Node? {
          FixDeletedBalances(t.key, Deleted(t.left, key).value, t.right);
        }
      } else {
        DeletedBalances(t.right, key);
        if t.right.Node? {
          FixDeletedBalances(t.key, t.left, Deleted(t.right, key).value);
        }
      }
    }
  }

  lemma {:induction false} Widen<D>(t: Tree<D>, lo: End, hi: End, lo': End, hi': End)
    requires Ordered(t, lo, hi)
    requires lo'.At? ==> lo.At? && lo'.key <= lo.key
    requires hi'.At? ==> hi.At? && hi.key <= hi'.key
    ensures Ordered(t, lo', hi')
  {
    if t.Node? {
      Widen(t.left, lo, At(t.key), lo', At(t.key));
      Widen(t.right, At(t.key), hi, At(t.key), hi');
    }
  }

  lemma {:induction false} DeletedOrdered<D>(t: Tree<D>, lo: End, hi: End, key: int)
    requires Ordered(t, lo, hi)
    ensures Deleted(t, key).Some? ==> Ordered(Deleted(t, key).value, lo, hi)
  {
    if t.Node? {
      GuideWithin(t, lo, hi);
      if key <= t.key {
        DeletedOrdered(t.left, lo, At(t.key), key);
        if Deleted(t.left, key).None? {
          Widen(t.right, At(t.key), hi, lo, hi);
        } else {
          FixKeeps(Make(t.key, Deleted(t.left, key).value, t.right), lo, hi, 0);
        }
      } else {
        DeletedOrdered(t.right, At(t.key), hi, key);
        if Deleted(t.right, key).None? {
          Widen(t.left, lo, At(t.key), lo, hi);
        } else {
          FixKeeps(Make(t.key, t.left, Deleted(t.right, key).value), lo, hi, 0);
        }
      }
    }
  }

  lemma {:induction false} LookupOutside<D>(t: Tree<D>, lo: End, hi: End, q: int)
    requires Ordered(t, lo, hi) && !(Above(lo, q) && AtMost(q, hi))
    ensures Lookup(t, q) == None
  {
    if Lookup(t, q).Some? {
      LookupFindsLeaves(t, lo, hi, q, Lookup(t, q).value);
      OccursWithin(t, lo, hi, q, Lookup(t, q).value);
    }
  }

  lemma {:induction false} DeletedLookup<D>(t: Tree<D>, lo: End, hi: End, key: int, q: int)
    requires Ordered(t, lo, hi) && Lookup(t, key).Some?
    ensures if Deleted(t, key).None? then Lookup(t, q) == None || q == key
            else Lookup(Deleted(t, key).value, q) == if q == key then None else Lookup(t, q)
  {
    if t.Node? {
      GuideWithin(t, lo, hi);
      if key <= t.key {
        DeletedOrdered(t.left, lo, At(t.key), key);
        DeletedLookup(t.left, lo, At(t.key), key, q);
        if Deleted(t.left, key).None? {
          if q <= t.key {
            LookupOutside(t.right, At(t.key), hi, q);
          }
        } else {
          FixKeeps(Make(t.key, Deleted(t.left, key).value, t.right), lo, hi, q);
        }
      } else {
        DeletedOrdered(t.right, At(t.key), hi, key);
        DeletedLookup(t.right, At(t.key), hi, key, q);
        if Deleted(t.right, key).None? {
          if q > t.key {
            LookupOutside(t.left, lo, At(t.key), q);
          }
        } else {
          FixKeeps(Make(t.key, t.left, Deleted(t.right, key).value), lo, hi, q);
        }
      }
    }
  }
}
