/** `ist234_insert` in values: what insertion makes of a subtree, and of the whole tree.  The loops,
    over cells, are proved against this in Tree234InsertPass. */
module Tree234Insert {

  import opened Wrappers
  import opened Tree234

  /** What insertion makes of a subtree: nothing new, a new subtree of the same height, or
      two subtrees with an entry to pass to the parent. */
  datatype Outcome<D> = Same | Whole(node: Node<D>) | Split(left: Node<D>, key: int, data: D, right: Node<D>)

  /** A slot of `path`: a node, and the kid through which the search left it. */
  datatype Frame<D> = Frame(node: Node<D>, i: nat)

  predicate GoodFrame<D>(f: Frame<D>) { IsKid(f.node, f.i) }

  /** The datum to store over the one already there. */
  function NewDatum<D>(update: Option<(D, D) -> D>, stored: D, data: D): D {
    if update.Some? then update.value(stored, data) else data
  }

  /** The slot whose datum is compared with the new one: for the second key it is the first
      key's datum (ist234.c:246). */
  function ComparedSlot(i: nat): nat { if i == 5 then 2 else i }

  /** One entry more in a node: kid `i` becomes the two kids around the new entry. */
  function AddEntry<D>(p: Node<D>, i: nat, left: Node<D>, key: int, data: D, right: Node<D>): (r: Outcome<D>)
    requires IsKid(p, i)
    ensures r.Split? <==> NodeType(p) == 4
    ensures !r.Same?
  {
    match p
    case Two(c1, k1, d1, c2) =>
      if i == 1 then Whole(Three(left, key, data, right, k1, d1, c2))
      else Whole(Three(c1, k1, d1, left, key, data, right))
    case Three(c1, k1, d1, c2, k2, d2, c3) =>
      if i == 1 then Whole(Four(left, key, data, right, k1, d1, c2, k2, d2, c3))
      else if i == 4 then Whole(Four(c1, k1, d1, left, key, data, right, k2, d2, c3))
      else Whole(Four(c1, k1, d1, c2, k2, d2, left, key, data, right))
    case Four(c1, k1, d1, c2, k2, d2, c3, k3, d3, c4) =>
      if i == 1 then Split(Three(left, key, data, right, k1, d1, c2), k2, d2, Two(c3, k3, d3, c4))
      else if i == 4 then Split(Three(c1, k1, d1, left, key, data, right), k2, d2, Two(c3, k3, d3, c4))
      else if i == 7 then Split(Three(c1, k1, d1, c2, k2, d2, left), key, data, Two(right, k3, d3, c4))
      else Split(Three(c1, k1, d1, c2, k2, d2, c3), k3, d3, Two(left, key, data, right))
  }

  /** The outcome for a node from the outcome for its kid. */
  function Combine<D>(f: Frame<D>, o: Outcome<D>): Outcome<D>
    requires GoodFrame(f)
  {
    match o
    case Same => Same
    case Whole(t) => Whole(SetKid(f.node, f.i, t))
    case Split(l, k, d, r) => AddEntry(f.node, f.i, l, k, d, r)
  }

  /** Insertion by recursion. */
  function Outcomes<D(==)>(p: Node<D>, key: int, update: Option<(D, D) -> D>, data: D): Outcome<D> {
    if p == Null then Split(Null, key, data, Null)
    else
      match Compare(p, key)
      case AtEntry(i) =>
        var datum := NewDatum(update, Datum(p, i), data);
        if Datum(p, ComparedSlot(i)) == datum then Same else Whole(SetEntry(p, i, Key(p, i), datum))
      case InKid(ix) => Combine(Frame(p, ix), Outcomes(Kid(p, ix), key, update, data))
  }

  /** A whole tree from an outcome. */
  function AsTree<D>(root: Node<D>, o: Outcome<D>): Node<D> {
    match o
    case Same => root
    case Whole(t) => t
    case Split(l, k, d, r) => Two(l, k, d, r)
  }

  function Inserted<D(==)>(root: Node<D>, key: int, update: Option<(D, D) -> D>, data: D): Node<D> {
    AsTree(root, Outcomes(root, key, update, data))
  }

  // ---------- the loops ----------

  predicate GoodPath<D>(path: seq<Frame<D>>) {
    forall j | 0 <= j < |path| :: GoodFrame(path[j])
  }

  /** The outcome for the root from the outcome at the end of the path. */
  function Rise<D>(path: seq<Frame<D>>, o: Outcome<D>): Outcome<D>
    requires GoodPath(path)
    decreases |path|
  {
    if path == [] then o
    else Rise(path[..|path| - 1], Combine(path[|path| - 1], o))
  }

  lemma RisePush<D>(path: seq<Frame<D>>, f: Frame<D>, o: Outcome<D>)
    requires GoodPath(path) && GoodFrame(f)
    ensures GoodPath(path + [f]) && Rise(path + [f], o) == Rise(path, Combine(f, o))
  {
    assert (path + [f])[..|path|] == path;
  }

  lemma {:induction false} RiseSame<D>(path: seq<Frame<D>>)
    requires GoodPath(path)
    ensures Rise(path, Same) == Same
    decreases |path|
  {
    if path != [] {
      RiseSame(path[..|path| - 1]);
    }
  }

  // ---------- what insertion does ----------

  /** The range of the keys in a kid. */
  function KidLow<D>(p: Node<D>, ix: nat, lo: End): End
    requires IsKid(p, ix)
  {
    if ix == 1 then lo else At(Key(p, ix - 2))
  }

  function KidHigh<D>(p: Node<D>, ix: nat, hi: End): End
    requires IsKid(p, ix)
  {
    if ix == 3 * NodeType(p) - 2 then hi else At(Key(p, ix + 1))
  }

  lemma KidOrdered<D>(p: Node<D>, lo: End, hi: End, ix: nat)
    requires Ordered(p, lo, hi) && IsKid(p, ix)
    ensures Ordered(Kid(p, ix), KidLow(p, ix, lo), KidHigh(p, ix, hi))
  {
  }

  lemma KeyInKid<D>(p: Node<D>, lo: End, hi: End, ix: nat, key: int)
    requires p != Null && Compare(p, key) == InKid(ix) && Above(lo, key) && Below(key, hi)
    ensures Above(KidLow(p, ix, lo), key) && Below(key, KidHigh(p, ix, hi))
  {
  }

  /** A kid's outcome, taken into its node, keeps the order. */
  lemma RaisedOrdered<D>(p: Node<D>, lo: End, hi: End, ix: nat, o: Outcome<D>)
    requires Ordered(p, lo, hi) && IsKid(p, ix) && !o.Same?
    requires Ordered(AsTree(Null, o), KidLow(p, ix, lo), KidHigh(p, ix, hi))
    ensures Ordered(AsTree(Null, Combine(Frame(p, ix), o)), lo, hi)
  {
  }

  lemma RaisedUniform<D>(p: Node<D>, h: nat, ix: nat, o: Outcome<D>)
    requires Uniform(p, h) && IsKid(p, ix) && !o.Same?
    requires Uniform(AsTree(Null, o), if o.Split? then h else h - 1)
    ensures var c := Combine(Frame(p, ix), o);
            Uniform(AsTree(Null, c), if c.Split? then h + 1 else h)
  {
  }

  /** A new entry keeps the order. */
  lemma {:induction false} OutcomeOrdered<D>(p: Node<D>, lo: End, hi: End, key: int,
                                             update: Option<(D, D) -> D>, data: D)
    requires Ordered(p, lo, hi) && Above(lo, key) && Below(key, hi)
    ensures var o := Outcomes(p, key, update, data);
            o.Same? || Ordered(AsTree(Null, o), lo, hi)
  {
    if p != Null {
      match Compare(p, key)
      case AtEntry(i) =>
      case InKid(ix) =>
        var o := Outcomes(Kid(p, ix), key, update, data);
        OutcomeOrdered(Kid(p, ix), KidLow(p, ix, lo), KidHigh(p, ix, hi), key, update, data);
        if !o.Same? {
          RaisedOrdered(p, lo, hi, ix, o);
        }
    }
  }

  /** All leaves stay at one depth: only a split that reaches the root adds a level. */
  lemma {:induction false} OutcomeUniform<D>(p: Node<D>, h: nat, key: int, update: Option<(D, D) -> D>, data: D)
    requires Uniform(p, h)
    ensures var o := Outcomes(p, key, update, data);
            o.Same? || Uniform(AsTree(Null, o), if o.Split? then h + 1 else h)
  {
    if p != Null {
      match Compare(p, key)
      case AtEntry(i) =>
      case InKid(ix) =>
        var o := Outcomes(Kid(p, ix), key, update, data);
        OutcomeUniform(Kid(p, ix), h - 1, key, update, data);
        if !o.Same? {
          RaisedUniform(p, h, ix, o);
        }
    }
  }

  /** The datum of the slot that is compared with the new one is the datum `w` to be stored. */
  predicate ComparesEqual<D(==)>(p: Node<D>, key: int, w: D) {
    p != Null &&
    match Compare(p, key)
    case AtEntry(i) => Datum(p, ComparedSlot(i)) == w
    case InKid(ix) => ComparesEqual(Kid(p, ix), key, w)
  }

  /** The insertion of `w` is dropped although the key has another datum: it is the second key of its node, and
      the first one's datum is the very datum to be stored. */
  predicate IsLost<D(==)>(p: Node<D>, key: int, w: D) {
    ComparesEqual(p, key, w) && Lookup(p, key) != Some(w)
  }

  /** The slot compared is the key's own, but for the second key of a node `q`, so only there a datum is lost. */
  lemma {:induction false} LostInSecondSlot<D>(p: Node<D>, key: int, w: D) returns (q: Node<D>)
    requires IsLost(p, key, w)
    ensures NodeType(q) > 2 && q.k2 == key && q.d1 == w && q.d2 != w && Occurs(p, q.k1, q.d1) && Occurs(p, key, q.d2)
  {
    match Compare(p, key)
    case AtEntry(i) => q := p;
    case InKid(ix) => q := LostInSecondSlot(Kid(p, ix), key, w);
  }

  /** An insertion that finds its datum in the compared slot leaves the tree alone, and no other does. */
  lemma {:induction false} SameIff<D>(p: Node<D>, key: int, update: Option<(D, D) -> D>, data: D)
    ensures var w := if update.None? || Lookup(p, key).None? then data else update.value(Lookup(p, key).value, data);
            Outcomes(p, key, update, data).Same? <==> ComparesEqual(p, key, w)
  {
    if p != Null {
      match Compare(p, key)
      case AtEntry(i) =>
      case InKid(ix) =>
        SameIff(Kid(p, ix), key, update, data);
        CombinedSame(p, ix, Outcomes(Kid(p, ix), key, update, data));
    }
  }

  lemma CombinedSame<D>(p: Node<D>, ix: nat, o: Outcome<D>)
    requires IsKid(p, ix)
    ensures Combine(Frame(p, ix), o).Same? <==> o.Same?
  {
  }

  /** Storing over an entry changes what is found there, and nothing else. */
  lemma EntryLookup<D>(p: Node<D>, lo: End, hi: End, i: nat, datum: D, q: int)
    requires Ordered(p, lo, hi) && IsEntry(p, i)
    ensures Lookup(SetEntry(p, i, Key(p, i), datum), q) == if q == Key(p, i) then Some(datum) else Lookup(p, q)
    ensures Lookup(p, Key(p, i)) == Some(Datum(p, i))
  {
  }

  /** What the key answers afterwards, written out: the new datum, or what the update function makes of the old
      one and it. */
  lemma {:induction false} OutcomeLookup<D>(p: Node<D>, lo: End, hi: End, key: int,
                                            update: Option<(D, D) -> D>, data: D, q: int)
    requires Ordered(p, lo, hi) && Above(lo, key) && Below(key, hi)
    ensures var w := if update.None? || Lookup(p, key).None? then data else update.value(Lookup(p, key).value, data);
            !ComparesEqual(p, key, w) ==>
              Lookup(AsTree(p, Outcomes(p, key, update, data)), q) == if q == key then Some(w) else Lookup(p, q)
  {
    if p != Null {
      match Compare(p, key)
      case AtEntry(i) =>
        EntryLookup(p, lo, hi, i, NewDatum(update, Datum(p, i), data), q);
      case InKid(ix) =>
        var kid, low, high := Kid(p, ix), KidLow(p, ix, lo), KidHigh(p, ix, hi);
        KidOrdered(p, lo, hi, ix);
        KeyInKid(p, lo, hi, ix, key);
        OutcomeLookup(kid, low, high, key, update, data, q);
        RaisedOutcome(p, lo, hi, ix, key, update, data, q);
    }
  }

  lemma RaisedOutcome<D>(p: Node<D>, lo: End, hi: End, ix: nat, key: int, update: Option<(D, D) -> D>, data: D, q: int)
    requires Ordered(p, lo, hi) && IsKid(p, ix) && Compare(p, key) == InKid(ix) && Above(lo, key) && Below(key, hi)
    ensures var o := Outcomes(Kid(p, ix), key, update, data);
            Lookup(AsTree(p, Outcomes(p, key, update, data)), q) ==
            if Compare(p, q) == InKid(ix) then Lookup(AsTree(Kid(p, ix), o), q) else Lookup(p, q)
  {
    var o := Outcomes(Kid(p, ix), key, update, data);
    KidOrdered(p, lo, hi, ix);
    KeyInKid(p, lo, hi, ix, key);
    OutcomeOrdered(Kid(p, ix), KidLow(p, ix, lo), KidHigh(p, ix, hi), key, update, data);
    if !o.Same? {
      RaisedLookup(p, lo, hi, ix, o, q);
    }
  }

  /** A kid's outcome, taken into its node, is found there and changes nothing else. */
  lemma RaisedLookup<D>(p: Node<D>, lo: End, hi: End, ix: nat, o: Outcome<D>, q: int)
    requires Ordered(p, lo, hi) && IsKid(p, ix) && !o.Same?
    requires Ordered(AsTree(Null, o), KidLow(p, ix, lo), KidHigh(p, ix, hi))
    ensures Lookup(AsTree(Null, Combine(Frame(p, ix), o)), q) ==
            if Compare(p, q) == InKid(ix) then Lookup(AsTree(Null, o), q) else Lookup(p, q)
  {
  }

  /** Insertion keeps a search tree with all leaves at one depth, at most one level deeper. */
  lemma InsertKeepsTree<D>(root: Node<D>, h: nat, key: int, update: Option<(D, D) -> D>, data: D)
    requires Ordered(root, Open, Open) && Uniform(root, h)
    ensures Ordered(Inserted(root, key, update, data), Open, Open)
    ensures Uniform(Inserted(root, key, update, data), h) || Uniform(Inserted(root, key, update, data), h + 1)
  {
    OutcomeOrdered(root, Open, Open, key, update, data);
    OutcomeUniform(root, h, key, update, data);
  }

  /** Insertion is the update of a map, at every key, unless it is lost; then the tree is as before. */
  lemma InsertIsUpdate<D>(root: Node<D>, key: int, update: Option<(D, D) -> D>, data: D)
    requires Ordered(root, Open, Open)
    ensures var w := if update.None? || Lookup(root, key).None? then data else update.value(Lookup(root, key).value, data);
            && (forall q :: Lookup(Inserted(root, key, update, data), q) ==
                  if q == key && !IsLost(root, key, w) then Some(w) else Lookup(root, q))
            && (IsLost(root, key, w) ==> Inserted(root, key, update, data) == root)
  {
    var w := if update.None? || Lookup(root, key).None? then data else update.value(Lookup(root, key).value, data);
    SameIff(root, key, update, data);
    forall q
      ensures Lookup(Inserted(root, key, update, data), q) ==
              if q == key && !IsLost(root, key, w) then Some(w) else Lookup(root, q)
    {
      OutcomeLookup(root, Open, Open, key, update, data, q);
    }
  }

  /** The key has the wanted datum afterwards exactly when the insertion is not lost. */
  lemma StoredUnlessLost<D>(root: Node<D>, key: int, update: Option<(D, D) -> D>, data: D)
    requires Ordered(root, Open, Open)
    ensures var w := if update.None? || Lookup(root, key).None? then data else update.value(Lookup(root, key).value, data);
            Lookup(Inserted(root, key, update, data), key) == Some(w) <==> !IsLost(root, key, w)
  {
    InsertIsUpdate(root, key, update, data);
  }

  /** Data 7 and 8 under keys 1 and 2 of one node: storing 7 under key 2 has no effect. */
  lemma LostExample()
    ensures var t := Three(Null, 1, 7, Null, 2, 8, Null);
            Ordered(t, Open, Open) && Inserted(t, 2, None, 7) == t && Lookup(t, 2) == Some(8)
  {
  }
}
