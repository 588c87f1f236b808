/** `ist234_delete` in values: one pass from the root down.  Before the pass enters a 2-node it makes
    the node larger, so that an entry can be taken away below without coming back up.  The loops, over
    cells, are proved against this in Tree234DeletePass. */
module Tree234Delete {

  import opened Wrappers
  import opened Tree234
  import opened Tree234Insert

  // ---------- rebuilding nodes ----------

  /** The node without entry `i`; the two kids around the entry become the one kid `t`. */
  function WithoutEntry<D>(p: Node<D>, i: nat, t: Node<D>): (r: Node<D>)
    requires IsEntry(p, i) && NodeType(p) > 2
    ensures NodeType(r) == NodeType(p) - 1
  {
    match p
    case Three(c1, k1, d1, c2, k2, d2, c3) =>
      if i == 2 then Two(t, k2, d2, c3) else Two(c1, k1, d1, t)
    case Four(c1, k1, d1, c2, k2, d2, c3, k3, d3, c4) =>
      if i == 2 then Three(t, k2, d2, c3, k3, d3, c4)
      else if i == 5 then Three(c1, k1, d1, t, k3, d3, c4)
      else Three(c1, k1, d1, c2, k2, d2, t)
  }

  function WithoutFirstKid<D>(b: Node<D>): Node<D>
    requires NodeType(b) > 2
  {
    match b
    case Three(_, _, _, c2, k2, d2, c3) => Two(c2, k2, d2, c3)
    case Four(_, _, _, c2, k2, d2, c3, k3, d3, c4) => Three(c2, k2, d2, c3, k3, d3, c4)
  }

  function WithoutLastKid<D>(b: Node<D>): Node<D>
    requires NodeType(b) > 2
  {
    match b
    case Three(c1, k1, d1, c2, _, _, _) => Two(c1, k1, d1, c2)
    case Four(c1, k1, d1, c2, k2, d2, c3, _, _, _) => Three(c1, k1, d1, c2, k2, d2, c3)
  }

  /** The results of `copy_and_transform`: the new node, the kid to go on with, the entry of
      that kid where the old 2-node's key is now, and the number of levels copied. */
  datatype Transformed<D> = Transformed(node: Node<D>, ix: nat, iOfKey: nat, levels: nat)

  /** The brother that `copy_and_transform` turns to: the left one, or the right one of the first kid. */
  function Brother<D>(node: Node<D>, ix: nat): Node<D>
    requires IsKid(node, ix)
  {
    if ix == 1 then Kid(node, 4) else Kid(node, ix - 3)
  }

  /** `copy_and_transform`: a 2-node kid takes an entry from a larger brother, or melts
      together with a 2-node brother. */
  function Transform<D>(node: Node<D>, ix: nat): (r: Transformed<D>)
    requires IsKid(node, ix) && Kid(node, ix).Two? && Brother(node, ix) != Null
    ensures r.levels == if node.Two? && Brother(node, ix).Two? then 1 else 2
    ensures r.levels == 2 ==> IsKid(r.node, r.ix) && NodeType(Kid(r.node, r.ix)) > 2 && IsEntry(Kid(r.node, r.ix), r.iOfKey)
    ensures r.levels == 1 ==> r.node.Four? && IsEntry(r.node, r.iOfKey)
  {
    var p, brother := Kid(node, ix), Brother(node, ix);
    if ix == 1 then
      if brother.Two? then
        var melted := Four(p.c1, p.k1, p.d1, p.c2, node.k1, node.d1, brother.c1, brother.k1, brother.d1, brother.c2);
        if node.Two? then Transformed(melted, 1, 2, 1)
        else Transformed(WithoutEntry(node, 2, melted), 1, 2, 2)
      else
        var left := Three(p.c1, p.k1, p.d1, p.c2, node.k1, node.d1, brother.c1);
        var right := WithoutFirstKid(brother);
        Transformed(SetKid(SetEntry(SetKid(node, 1, left), 2, brother.k1, brother.d1), 4, right), 1, 2, 2)
    else
      var key, datum := Key(node, ix - 2), Datum(node, ix - 2);
      if brother.Two? then
        var melted := Four(brother.c1, brother.k1, brother.d1, brother.c2, key, datum, p.c1, p.k1, p.d1, p.c2);
        if node.Two? then Transformed(melted, ix, 8, 1)
        else Transformed(WithoutEntry(node, ix - 2, melted), ix - 3, 8, 2)
      else
        var last := 3 * NodeType(brother) - 2;
        var left := WithoutLastKid(brother);
        var right := Three(Kid(brother, last), key, datum, p.c1, p.k1, p.d1, p.c2);
        Transformed(SetKid(SetEntry(SetKid(node, ix - 3, left), ix - 2, Key(brother, last - 2), Datum(brother, last - 2)),
                           ix, right), ix, 5, 2)
  }

  lemma TransformUniform<D>(node: Node<D>, ix: nat, h: nat)
    requires IsKid(node, ix) && Kid(node, ix).Two? && Brother(node, ix) != Null && Uniform(node, h)
    ensures var r := Transform(node, ix);
            Uniform(r.node, if r.levels == 2 then h else h - 1)
    ensures h >= 2
  {
  }

  lemma MeltedWithNextOrdered<D>(node: Node<D>, ix: nat, lo: End, hi: End)
    requires IsKid(node, ix) && Kid(node, ix).Two? && Brother(node, ix) != Null && Ordered(node, lo, hi)
    requires ix == 1 && Brother(node, ix).Two?
    ensures Ordered(Transform(node, ix).node, lo, hi)
  {
  }

  lemma MeltedWithPreviousOrdered<D>(node: Node<D>, ix: nat, lo: End, hi: End)
    requires IsKid(node, ix) && Kid(node, ix).Two? && Brother(node, ix) != Null && Ordered(node, lo, hi)
    requires ix > 1 && Brother(node, ix).Two?
    ensures Ordered(Transform(node, ix).node, lo, hi)
  {
  }

  lemma TakenFromNextOrdered<D>(node: Node<D>, ix: nat, lo: End, hi: End)
    requires IsKid(node, ix) && Kid(node, ix).Two? && Brother(node, ix) != Null && Ordered(node, lo, hi)
    requires ix == 1 && !Brother(node, ix).Two?
    ensures Ordered(Transform(node, ix).node, lo, hi)
  {
  }

  lemma TakenFromPreviousOrdered<D>(node: Node<D>, ix: nat, lo: End, hi: End)
    requires IsKid(node, ix) && Kid(node, ix).Two? && Brother(node, ix) != Null && Ordered(node, lo, hi)
    requires ix > 1 && !Brother(node, ix).Two?
    ensures Ordered(Transform(node, ix).node, lo, hi)
  {
  }

  /** Moving entries between brothers keeps the order. */
  lemma TransformOrdered<D>(node: Node<D>, ix: nat, lo: End, hi: End)
    requires IsKid(node, ix) && Kid(node, ix).Two? && Brother(node, ix) != Null && Ordered(node, lo, hi)
    ensures Ordered(Transform(node, ix).node, lo, hi)
  {
    if Brother(node, ix).Two? {
      if ix == 1 { MeltedWithNextOrdered(node, ix, lo, hi); } else { MeltedWithPreviousOrdered(node, ix, lo, hi); }
    } else {
      if ix == 1 { TakenFromNextOrdered(node, ix, lo, hi); } else { TakenFromPreviousOrdered(node, ix, lo, hi); }
    }
  }

  lemma MeltedWithNextLookup<D>(node: Node<D>, ix: nat, lo: End, hi: End, q: int)
    requires IsKid(node, ix) && Kid(node, ix).Two? && Brother(node, ix) != Null && Ordered(node, lo, hi)
    requires ix == 1 && Brother(node, ix).Two?
    ensures Lookup(Transform(node, ix).node, q) == Lookup(node, q)
  {
  }

  lemma MeltedWithPreviousLookup<D>(node: Node<D>, ix: nat, lo: End, hi: End, q: int)
    requires IsKid(node, ix) && Kid(node, ix).Two? && Brother(node, ix) != Null && Ordered(node, lo, hi)
    requires ix > 1 && Brother(node, ix).Two?
    ensures Lookup(Transform(node, ix).node, q) == Lookup(node, q)
  {
  }

  lemma TakenFromNextLookup<D>(node: Node<D>, ix: nat, lo: End, hi: End, q: int)
    requires IsKid(node, ix) && Kid(node, ix).Two? && Brother(node, ix) != Null && Ordered(node, lo, hi)
    requires ix == 1 && !Brother(node, ix).Two?
    ensures Lookup(Transform(node, ix).node, q) == Lookup(node, q)
  {
  }

  lemma TakenFromPreviousThreeLookup<D>(node: Node<D>, ix: nat, lo: End, hi: End, q: int)
    requires IsKid(node, ix) && Kid(node, ix).Two? && Ordered(node, lo, hi)
    requires ix > 1 && Brother(node, ix).Three?
    ensures Lookup(Transform(node, ix).node, q) == Lookup(node, q)
  {
  }

  lemma TakenFromPreviousFourLookup<D>(node: Node<D>, ix: nat, lo: End, hi: End, q: int)
    requires IsKid(node, ix) && Kid(node, ix).Two? && Ordered(node, lo, hi)
    requires ix > 1 && Brother(node, ix).Four?
    ensures Lookup(Transform(node, ix).node, q) == Lookup(node, q)
  {
  }

  /** Every key is found where it was, with the same datum. */
  lemma TransformLookup<D>(node: Node<D>, ix: nat, lo: End, hi: End, q: int)
    requires IsKid(node, ix) && Kid(node, ix).Two? && Brother(node, ix) != Null && Ordered(node, lo, hi)
    ensures Lookup(Transform(node, ix).node, q) == Lookup(node, q)
  {
    if Brother(node, ix).Two? {
      if ix == 1 { MeltedWithNextLookup(node, ix, lo, hi, q); } else { MeltedWithPreviousLookup(node, ix, lo, hi, q); }
    } else {
      if ix == 1 { TakenFromNextLookup(node, ix, lo, hi, q); }
      else if Brother(node, ix).Three? { TakenFromPreviousThreeLookup(node, ix, lo, hi, q); }
      else { TakenFromPreviousFourLookup(node, ix, lo, hi, q); }
    }
  }

  /** After the rebuilding the search for a key of the old 2-node goes the same way, and needs
      only one comparison in the new kid. */
  lemma TransformCompare<D>(node: Node<D>, ix: nat, lo: End, hi: End, key: int)
    requires IsKid(node, ix) && Kid(node, ix).Two? && Brother(node, ix) != Null && Ordered(node, lo, hi)
    requires Compare(node, key) == InKid(ix)
    ensures var r := Transform(node, ix);
            var p := if r.levels == 1 then r.node else Kid(r.node, r.ix);
            && (r.levels == 2 ==> Compare(r.node, key) == InKid(r.ix))
            && Compare(p, key) == (if key == Key(p, r.iOfKey) then AtEntry(r.iOfKey)
                                   else if key < Key(p, r.iOfKey) then InKid(r.iOfKey - 1) else InKid(r.iOfKey + 2))
  {
  }

  // ---------- deletion by recursion on the height ----------

  /** An entry taken from a subtree, and what is left of the subtree. */
  datatype Taken<D> = Taken(key: int, data: D, rest: Node<D>)

  /** The number of the last kid. */
  function LastKid<D>(p: Node<D>): nat
    requires p != Null
    ensures IsKid(p, LastKid(p))
  {
    3 * NodeType(p) - 2
  }

  /** The kids of a node are all trees of one height, and all null in a leaf. */
  lemma KidUniform<D>(p: Node<D>, ix: nat, h: nat)
    requires IsKid(p, ix) && Uniform(p, h)
    ensures h > 0 && Uniform(Kid(p, ix), h - 1)
    ensures Kid(p, ix) == Null <==> h == 1
    ensures Brother(p, ix) == Null <==> h == 1
    ensures p.c1 == Null <==> h == 1
    ensures !(Kid(p, ix) != Null && NodeType(Kid(p, ix)) <= 2) || Kid(p, ix).Two?
  {
  }

  /** The node in which a pass goes on, and the kid it enters: a 2-node kid is enlarged first. */
  function Entered<D>(p: Node<D>, ix: nat): (r: (Node<D>, nat))
    requires IsKid(p, ix) && NodeType(p) > 2 && Kid(p, ix) != Null && Brother(p, ix) != Null
    ensures IsKid(r.0, r.1) && NodeType(Kid(r.0, r.1)) > 2
  {
    if NodeType(Kid(p, ix)) > 2 then (p, ix) else (Transform(p, ix).node, Transform(p, ix).ix)
  }

  lemma EnteredUniform<D>(p: Node<D>, ix: nat, h: nat)
    requires IsKid(p, ix) && NodeType(p) > 2 && Kid(p, ix) != Null && Brother(p, ix) != Null && Uniform(p, h)
    ensures Uniform(Entered(p, ix).0, h) && h > 1
    ensures Uniform(Kid(Entered(p, ix).0, Entered(p, ix).1), h - 1)
  {
    if NodeType(Kid(p, ix)) == 2 {
      TransformUniform(p, ix, h);
    }
    KidUniform(Entered(p, ix).0, Entered(p, ix).1, h);
  }

  /** Take away the entry that is last (or first) in order, along the rightmost (leftmost) path. */
  function TakeEnd<D>(p: Node<D>, last: bool, ghost h: nat): (r: Taken<D>)
    requires NodeType(p) > 2 && Uniform(p, h)
    ensures Uniform(r.rest, h)
    decreases h
  {
    var ix := if last then LastKid(p) else 1;
    var i := if last then ix - 2 else 2;
    KidUniform(p, ix, h);
    if p.c1 == Null then Taken(Key(p, i), Datum(p, i), WithoutEntry(p, i, Null))
    else
      var (node, kid) := Entered(p, ix);
      EnteredUniform(p, ix, h);
      var r := TakeEnd(Kid(node, kid), last, h - 1);
      Taken(r.key, r.data, SetKid(node, kid, r.rest))
  }

  /** Delete entry `i` of a node: from a leaf at once; otherwise its successor or predecessor
      takes its place, or, between two 2-nodes, the two kids are joined without it. */
  function EntryDeleted<D>(p: Node<D>, i: nat, ghost h: nat): (r: Node<D>)
    requires IsEntry(p, i) && Uniform(p, h)
    ensures Uniform(r, h) || (p.Two? && Uniform(r, h - 1))
    ensures NodeType(p) > 2 ==> Uniform(r, h)
    decreases h, 0
  {
    KidUniform(p, i - 1, h);
    KidUniform(p, i + 2, h);
    if p.c1 == Null then (if p.Two? then Null else WithoutEntry(p, i, Null))
    else if NodeType(Kid(p, i + 2)) > 2 then
      var r := TakeEnd(Kid(p, i + 2), false, h - 1);
      SetKid(SetEntry(p, i, r.key, r.data), i + 2, r.rest)
    else if NodeType(Kid(p, i - 1)) > 2 then
      var r := TakeEnd(Kid(p, i - 1), true, h - 1);
      SetKid(SetEntry(p, i, r.key, r.data), i - 1, r.rest)
    else
      var joint := Joined(Kid(p, i - 1), Kid(p, i + 2), Key(p, i), Datum(p, i), h - 1);
      if p.Two? then joint else WithoutEntry(p, i, joint)
  }

  /** Two 2-nodes joined, without the entry that stood between them. */
  function Joined<D>(left: Node<D>, right: Node<D>, key: int, datum: D, ghost h: nat): (r: Node<D>)
    requires left.Two? && right.Two? && Uniform(left, h) && Uniform(right, h)
    ensures Uniform(r, h)
    decreases h, 1
  {
    if left.c1 == Null then Three(Null, left.k1, left.d1, Null, right.k1, right.d1, Null)
    else if left.c2.Two? && right.c1.Two? then
      Three(left.c1, left.k1, left.d1, Joined(left.c2, right.c1, key, datum, h - 1), right.k1, right.d1, right.c2)
    else EntryDeleted(Pair(left, right, key, datum), 5, h)
  }

  /** The 4-node of two 2-nodes and the entry between them. */
  function Pair<D>(left: Node<D>, right: Node<D>, key: int, datum: D): Node<D>
    requires left.Two? && right.Two?
  {
    Four(left.c1, left.k1, left.d1, left.c2, key, datum, right.c1, right.k1, right.d1, right.c2)
  }

  /** What is done with an entry that has been found: without a `delete_fun` it is deleted, else its datum is
      changed. */
  function EntryHandled<D>(p: Node<D>, i: nat, change: Option<D -> D>, ghost h: nat): (r: Node<D>)
    requires IsEntry(p, i) && Uniform(p, h)
    ensures Uniform(r, h) || (p.Two? && Uniform(r, h - 1))
    ensures NodeType(p) > 2 ==> Uniform(r, h)
  {
    if change.None? then EntryDeleted(p, i, h) else SetEntry(p, i, Key(p, i), change.value(Datum(p, i)))
  }

  /** What a key answers afterwards. */
  function AnswerAfter<D>(change: Option<D -> D>, answer: Option<D>): Option<D> {
    if change.None? || answer.None? then None else Some(change.value(answer.value))
  }

  /** The tree with the key's entry handled, or none if the key is not there. */
  function Deleted<D>(p: Node<D>, key: int, change: Option<D -> D>, ghost h: nat): (r: Option<Node<D>>)
    requires Uniform(p, h)
    ensures r.Some? ==> Uniform(r.value, h) || (p.Two? && Uniform(r.value, h - 1))
    ensures r.Some? && NodeType(p) > 2 ==> Uniform(r.value, h)
    decreases h
  {
    if p == Null then None
    else
      match Compare(p, key)
      case AtEntry(i) => Some(EntryHandled(p, i, change, h))
      case InKid(ix) => DeletedBelow(p, ix, key, change, h)
  }

  function DeletedBelow<D>(p: Node<D>, ix: nat, key: int, change: Option<D -> D>, ghost h: nat): (r: Option<Node<D>>)
    requires IsKid(p, ix) && Uniform(p, h)
    ensures r.Some? ==> Uniform(r.value, h) || (p.Two? && Uniform(r.value, h - 1))
    ensures r.Some? && NodeType(p) > 2 ==> Uniform(r.value, h)
    decreases h, 0
  {
    KidUniform(p, ix, h);
    if Kid(p, ix) == Null then None
    else if NodeType(Kid(p, ix)) > 2 then
      var r := Deleted(Kid(p, ix), key, change, h - 1);
      if r.None? then None else Some(SetKid(p, ix, r.value))
    else
      var t := Transform(p, ix);
      TransformUniform(p, ix, h);
      if t.levels == 1 then Deleted(t.node, key, change, h - 1)
      else
        var r := Deleted(Kid(t.node, t.ix), key, change, h - 1);
        if r.None? then None else Some(SetKid(t.node, t.ix, r.value))
  }

  /** A `delete_fun` that gives the datum back that is there. */
  ghost predicate NoEffect<D>(root: Node<D>, key: int, change: Option<D -> D>) {
    change.Some? && Lookup(root, key).Some? && change.value(Lookup(root, key).value) == Lookup(root, key).value
  }

  /** The result of `ist234_delete`: the given tree when the key is not there, or the change has no effect. */
  ghost function Removed<D>(root: Node<D>, key: int, change: Option<D -> D>, h: nat): Node<D>
    requires Uniform(root, h)
  {
    var r := Deleted(root, key, change, h);
    if r.None? || NoEffect(root, key, change) then root else r.value
  }
}
