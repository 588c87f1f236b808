/** What deletion keeps and what it removes. */
module Tree234DeleteProofs {

  import opened Wrappers
  import opened Tree234
  import opened Tree234Insert
  import opened Tree234Delete

  lemma SetKidOrdered<D>(p: Node<D>, ix: nat, t: Node<D>, lo: End, hi: End)
    requires Ordered(p, lo, hi) && IsKid(p, ix) && Ordered(t, KidLow(p, ix, lo), KidHigh(p, ix, hi))
    ensures Ordered(SetKid(p, ix, t), lo, hi)
  {
  }

  lemma SetKidLookup<D>(p: Node<D>, ix: nat, t: Node<D>, q: int)
    requires IsKid(p, ix)
    ensures Lookup(SetKid(p, ix, t), q) == if Compare(p, q) == InKid(ix) then Lookup(t, q) else Lookup(p, q)
  {
  }

  /** A first kid whose keys start later lets the whole node start later; likewise at the end. */
  lemma SetFirstKidOrdered<D>(p: Node<D>, t: Node<D>, lo: End, hi: End, k: int)
    requires p != Null && Ordered(p, lo, hi) && k < p.k1 && Ordered(t, At(k), At(p.k1))
    ensures Ordered(SetKid(p, 1, t), At(k), hi)
  {
  }

  lemma SetLastKidOrdered<D>(p: Node<D>, t: Node<D>, lo: End, hi: End, k: int)
    requires p != Null && Ordered(p, lo, hi) && Key(p, LastKid(p) - 2) < k && Ordered(t, At(Key(p, LastKid(p) - 2)), At(k))
    ensures Ordered(SetKid(p, LastKid(p), t), lo, At(k))
  {
  }

  // ---------- the successor or predecessor ----------

  lemma EnteredOrdered<D>(p: Node<D>, ix: nat, lo: End, hi: End)
    requires IsKid(p, ix) && NodeType(p) > 2 && Kid(p, ix) != Null && Brother(p, ix) != Null && Ordered(p, lo, hi)
    ensures Ordered(Entered(p, ix).0, lo, hi)
    ensures ix == 1 ==> Entered(p, ix).1 == 1
    ensures ix == LastKid(p) ==> Entered(p, ix).1 == LastKid(Entered(p, ix).0)
  {
    if NodeType(Kid(p, ix)) == 2 {
      TransformOrdered(p, ix, lo, hi);
    }
  }

  lemma EnteredLookup<D>(p: Node<D>, ix: nat, lo: End, hi: End, q: int)
    requires IsKid(p, ix) && NodeType(p) > 2 && Kid(p, ix) != Null && Brother(p, ix) != Null && Ordered(p, lo, hi)
    ensures Lookup(Entered(p, ix).0, q) == Lookup(p, q)
  {
    if NodeType(Kid(p, ix)) == 2 {
      TransformLookup(p, ix, lo, hi, q);
    }
  }

  /** What is left when the first entry, `k`, is taken from below the first kid. */
  lemma FirstKidReplaced<D>(p: Node<D>, lo: End, hi: End, r: Taken<D>, q: int)
    requires p != Null && Ordered(p, lo, hi) && r.key < p.k1 && Ordered(r.rest, At(r.key), At(p.k1))
    requires Lookup(p.c1, q) == if q == r.key then Some(r.data) else Lookup(r.rest, q)
    ensures var rest := SetKid(p, 1, r.rest);
            Ordered(rest, At(r.key), hi) && Lookup(p, q) == if q == r.key then Some(r.data) else Lookup(rest, q)
  {
    SetFirstKidOrdered(p, r.rest, lo, hi, r.key);
    SetKidLookup(p, 1, r.rest, q);
  }

  lemma LastKidReplaced<D>(p: Node<D>, lo: End, hi: End, r: Taken<D>, q: int)
    requires p != Null && Ordered(p, lo, hi)
    requires Key(p, LastKid(p) - 2) < r.key && Ordered(r.rest, At(Key(p, LastKid(p) - 2)), At(r.key))
    requires Lookup(Kid(p, LastKid(p)), q) == if q == r.key then Some(r.data) else Lookup(r.rest, q)
    ensures var rest := SetKid(p, LastKid(p), r.rest);
            Ordered(rest, lo, At(r.key)) && Lookup(p, q) == if q == r.key then Some(r.data) else Lookup(rest, q)
  {
    SetLastKidOrdered(p, r.rest, lo, hi, r.key);
    SetKidLookup(p, LastKid(p), r.rest, q);
  }

  lemma {:induction false} TakeFirstKeeps<D>(p: Node<D>, h: nat, lo: End, hi: End, q: int)
    requires NodeType(p) > 2 && Uniform(p, h) && Ordered(p, lo, hi)
    ensures var r := TakeEnd(p, false, h);
            && Above(lo, r.key) && Below(r.key, hi) && Ordered(r.rest, At(r.key), hi)
            && Lookup(p, q) == if q == r.key then Some(r.data) else Lookup(r.rest, q)
    decreases h
  {
    KidUniform(p, 1, h);
    if p.c1 == Null {
      LeafFirst(p, h, lo, hi, q);
    } else {
      EnteredUniform(p, 1, h);
      EnteredOrdered(p, 1, lo, hi);
      EnteredLookup(p, 1, lo, hi, q);
      var node := Entered(p, 1).0;
      KidOrdered(node, lo, hi, 1);
      TakeFirstKeeps(node.c1, h - 1, lo, At(node.k1), q);
      FirstKidReplaced(node, lo, hi, TakeEnd(node.c1, false, h - 1), q);
      KeysWithin(node, lo, hi);
    }
  }

  lemma LeafFirst<D>(p: Node<D>, h: nat, lo: End, hi: End, q: int)
    requires NodeType(p) > 2 && Uniform(p, h) && Ordered(p, lo, hi) && p.c1 == Null
    ensures var rest := WithoutEntry(p, 2, Null);
            && Above(lo, p.k1) && Below(p.k1, hi) && Ordered(rest, At(p.k1), hi)
            && Lookup(p, q) == if q == p.k1 then Some(p.d1) else Lookup(rest, q)
  {
  }

  lemma LeafLast<D>(p: Node<D>, h: nat, lo: End, hi: End, q: int)
    requires NodeType(p) > 2 && Uniform(p, h) && Ordered(p, lo, hi) && p.c1 == Null
    ensures var i := LastKid(p) - 2;
            var rest := WithoutEntry(p, i, Null);
            && Above(lo, Key(p, i)) && Below(Key(p, i), hi) && Ordered(rest, lo, At(Key(p, i)))
            && Lookup(p, q) == if q == Key(p, i) then Some(Datum(p, i)) else Lookup(rest, q)
  {
  }

  lemma KeysWithin<D>(p: Node<D>, lo: End, hi: End)
    requires p != Null && Ordered(p, lo, hi)
    ensures Below(p.k1, hi) && Above(lo, Key(p, LastKid(p) - 2))
  {
  }

  lemma {:induction false} TakeLastKeeps<D>(p: Node<D>, h: nat, lo: End, hi: End, q: int)
    requires NodeType(p) > 2 && Uniform(p, h) && Ordered(p, lo, hi)
    ensures var r := TakeEnd(p, true, h);
            && Above(lo, r.key) && Below(r.key, hi) && Ordered(r.rest, lo, At(r.key))
            && Lookup(p, q) == if q == r.key then Some(r.data) else Lookup(r.rest, q)
    decreases h
  {
    KidUniform(p, LastKid(p), h);
    if p.c1 == Null {
      LeafLast(p, h, lo, hi, q);
    } else {
      EnteredUniform(p, LastKid(p), h);
      EnteredOrdered(p, LastKid(p), lo, hi);
      EnteredLookup(p, LastKid(p), lo, hi, q);
      var (node, ix) := Entered(p, LastKid(p));
      KidOrdered(node, lo, hi, ix);
      TakeLastKeeps(Kid(node, ix), h - 1, KidLow(node, ix, lo), hi, q);
      LastKidReplaced(node, lo, hi, TakeEnd(Kid(node, ix), true, h - 1), q);
      KeysWithin(node, lo, hi);
    }
  }

  /** The successor takes the place of entry `i`. */
  lemma SuccessorOrdered<D>(p: Node<D>, i: nat, lo: End, hi: End, r: Taken<D>)
    requires IsEntry(p, i) && Ordered(p, lo, hi)
    requires Key(p, i) < r.key && Below(r.key, KidHigh(p, i + 2, hi)) && Ordered(r.rest, At(r.key), KidHigh(p, i + 2, hi))
    ensures Ordered(SetKid(SetEntry(p, i, r.key, r.data), i + 2, r.rest), lo, hi)
  {
    KidOrdered(p, lo, hi, i - 1);
    Widen(Kid(p, i - 1), KidLow(p, i - 1, lo), At(Key(p, i)), KidLow(p, i - 1, lo), At(r.key));
  }

  lemma SuccessorLookup<D>(p: Node<D>, i: nat, lo: End, hi: End, r: Taken<D>, q: int)
    requires IsEntry(p, i) && Ordered(p, lo, hi)
    requires Key(p, i) < r.key && Below(r.key, KidHigh(p, i + 2, hi)) && Ordered(r.rest, At(r.key), KidHigh(p, i + 2, hi))
    requires Lookup(Kid(p, i + 2), q) == if q == r.key then Some(r.data) else Lookup(r.rest, q)
    ensures Lookup(SetKid(SetEntry(p, i, r.key, r.data), i + 2, r.rest), q) ==
            if q == Key(p, i) then None else Lookup(p, q)
  {
    KidOrdered(p, lo, hi, i - 1);
    if q >= Key(p, i) {
      LookupWithin(Kid(p, i - 1), KidLow(p, i - 1, lo), At(Key(p, i)), q);
    }
    if q <= r.key {
      LookupWithin(r.rest, At(r.key), KidHigh(p, i + 2, hi), q);
    }
  }

  /** The predecessor takes the place of entry `i`. */
  lemma PredecessorOrdered<D>(p: Node<D>, i: nat, lo: End, hi: End, r: Taken<D>)
    requires IsEntry(p, i) && Ordered(p, lo, hi)
    requires r.key < Key(p, i) && Above(KidLow(p, i - 1, lo), r.key) && Ordered(r.rest, KidLow(p, i - 1, lo), At(r.key))
    ensures Ordered(SetKid(SetEntry(p, i, r.key, r.data), i - 1, r.rest), lo, hi)
  {
    KidOrdered(p, lo, hi, i + 2);
    Widen(Kid(p, i + 2), At(Key(p, i)), KidHigh(p, i + 2, hi), At(r.key), KidHigh(p, i + 2, hi));
  }

  lemma PredecessorLookup<D>(p: Node<D>, i: nat, lo: End, hi: End, r: Taken<D>, q: int)
    requires IsEntry(p, i) && Ordered(p, lo, hi)
    requires r.key < Key(p, i) && Above(KidLow(p, i - 1, lo), r.key) && Ordered(r.rest, KidLow(p, i - 1, lo), At(r.key))
    requires Lookup(Kid(p, i - 1), q) == if q == r.key then Some(r.data) else Lookup(r.rest, q)
    ensures Lookup(SetKid(SetEntry(p, i, r.key, r.data), i - 1, r.rest), q) ==
            if q == Key(p, i) then None else Lookup(p, q)
  {
    KidOrdered(p, lo, hi, i + 2);
    if q <= Key(p, i) {
      LookupWithin(Kid(p, i + 2), At(Key(p, i)), KidHigh(p, i + 2, hi), q);
    }
    if q >= r.key {
      LookupWithin(r.rest, KidLow(p, i - 1, lo), At(r.key), q);
    }
  }

  /** The two kids around entry `i` become one subtree that holds what they held. */
  lemma JointReplaces<D>(p: Node<D>, i: nat, lo: End, hi: End, joint: Node<D>, q: int)
    requires IsEntry(p, i) && NodeType(p) > 2 && Ordered(p, lo, hi)
    requires Ordered(joint, KidLow(p, i - 1, lo), KidHigh(p, i + 2, hi))
    requires Lookup(joint, q) == if q == Key(p, i) then None
                                 else if q < Key(p, i) then Lookup(Kid(p, i - 1), q) else Lookup(Kid(p, i + 2), q)
    ensures var n := WithoutEntry(p, i, joint);
            Ordered(n, lo, hi) && Lookup(n, q) == if q == Key(p, i) then None else Lookup(p, q)
  {
  }

  /** The joint of the two kids of a 2-node takes its place. */
  lemma JointIsNode<D>(p: Node<D>, i: nat, lo: End, hi: End, joint: Node<D>, q: int)
    requires IsEntry(p, i) && p.Two? && Ordered(p, lo, hi)
    requires Ordered(joint, KidLow(p, i - 1, lo), KidHigh(p, i + 2, hi))
    requires Lookup(joint, q) == if q == Key(p, i) then None
                                 else if q < Key(p, i) then Lookup(Kid(p, i - 1), q) else Lookup(Kid(p, i + 2), q)
    ensures Ordered(joint, lo, hi) && Lookup(joint, q) == if q == Key(p, i) then None else Lookup(p, q)
  {
  }

  /** Deleting entry `i` of a leaf. */
  lemma LeafEntryDeleted<D>(p: Node<D>, i: nat, h: nat, lo: End, hi: End, q: int)
    requires IsEntry(p, i) && Uniform(p, h) && Ordered(p, lo, hi) && p.c1 == Null
    ensures var n := EntryDeleted(p, i, h);
            Ordered(n, lo, hi) && Lookup(n, q) == if q == Key(p, i) then None else Lookup(p, q)
  {
    KidUniform(p, i - 1, h);
    KidUniform(p, i + 2, h);
    if NodeType(p) > 2 {
      JointReplaces(p, i, lo, hi, Null, q);
    }
  }

  lemma SuccessorReplaces<D>(p: Node<D>, i: nat, h: nat, lo: End, hi: End, q: int)
    requires IsEntry(p, i) && Uniform(p, h) && Ordered(p, lo, hi) && NodeType(Kid(p, i + 2)) > 2
    ensures var n := EntryDeleted(p, i, h);
            Ordered(n, lo, hi) && Lookup(n, q) == if q == Key(p, i) then None else Lookup(p, q)
  {
    KidUniform(p, i + 2, h);
    KidOrdered(p, lo, hi, i + 2);
    var r := TakeEnd(Kid(p, i + 2), false, h - 1);
    TakeFirstKeeps(Kid(p, i + 2), h - 1, At(Key(p, i)), KidHigh(p, i + 2, hi), q);
    SuccessorOrdered(p, i, lo, hi, r);
    SuccessorLookup(p, i, lo, hi, r, q);
  }

  lemma PredecessorReplaces<D>(p: Node<D>, i: nat, h: nat, lo: End, hi: End, q: int)
    requires IsEntry(p, i) && Uniform(p, h) && Ordered(p, lo, hi)
    requires NodeType(Kid(p, i + 2)) <= 2 < NodeType(Kid(p, i - 1))
    ensures var n := EntryDeleted(p, i, h);
            Ordered(n, lo, hi) && Lookup(n, q) == if q == Key(p, i) then None else Lookup(p, q)
  {
    KidUniform(p, i - 1, h);
    KidOrdered(p, lo, hi, i - 1);
    var r := TakeEnd(Kid(p, i - 1), true, h - 1);
    TakeLastKeeps(Kid(p, i - 1), h - 1, KidLow(p, i - 1, lo), At(Key(p, i)), q);
    PredecessorOrdered(p, i, lo, hi, r);
    PredecessorLookup(p, i, lo, hi, r, q);
  }

  /** Whatever takes the deleted entry's place, the key is gone and every other one stays. */
  lemma {:induction false} EntryDeletedKeeps<D>(p: Node<D>, i: nat, h: nat, lo: End, hi: End, q: int)
    requires IsEntry(p, i) && Uniform(p, h) && Ordered(p, lo, hi)
    ensures var n := EntryDeleted(p, i, h);
            Ordered(n, lo, hi) && Lookup(n, q) == if q == Key(p, i) then None else Lookup(p, q)
    decreases h, 0
  {
    hide Lookup, Ordered, TakeEnd, SetKid, SetEntry;
    KidUniform(p, i - 1, h);
    KidUniform(p, i + 2, h);
    var left, right := Kid(p, i - 1), Kid(p, i + 2);
    if p.c1 == Null {
      LeafEntryDeleted(p, i, h, lo, hi, q);
    } else if NodeType(right) > 2 {
      SuccessorReplaces(p, i, h, lo, hi, q);
    } else if NodeType(left) > 2 {
      PredecessorReplaces(p, i, h, lo, hi, q);
    } else {
      KidOrdered(p, lo, hi, i - 1);
      KidOrdered(p, lo, hi, i + 2);
      JoinedKeeps(left, right, Key(p, i), Datum(p, i), h - 1, KidLow(p, i - 1, lo), KidHigh(p, i + 2, hi), q);
      if NodeType(p) > 2 {
        JointReplaces(p, i, lo, hi, Joined(left, right, Key(p, i), Datum(p, i), h - 1), q);
      } else {
        JointIsNode(p, i, lo, hi, Joined(left, right, Key(p, i), Datum(p, i), h - 1), q);
      }
    }
  }

  lemma {:induction false} JoinedKeeps<D>(left: Node<D>, right: Node<D>, key: int, datum: D, h: nat, lo: End, hi: End, q: int)
    requires left.Two? && right.Two? && Uniform(left, h) && Uniform(right, h)
    requires Ordered(left, lo, At(key)) && Ordered(right, At(key), hi)
    ensures var n := Joined(left, right, key, datum, h);
            && Ordered(n, lo, hi)
            && Lookup(n, q) == if q == key then None else if q < key then Lookup(left, q) else Lookup(right, q)
    decreases h, 1
  {
    KidUniform(left, 1, h);
    KidUniform(right, 1, h);
    if left.c1 != Null {
      if left.c2.Two? && right.c1.Two? {
        JoinedKeeps(left.c2, right.c1, key, datum, h - 1, At(left.k1), At(right.k1), q);
      } else {
        EntryDeletedKeeps(Pair(left, right, key, datum), 5, h, lo, hi, q);
      }
    }
  }

  // ---------- the whole pass ----------

  lemma EntryChangedKeeps<D>(p: Node<D>, i: nat, d: D, lo: End, hi: End, q: int)
    requires IsEntry(p, i) && Ordered(p, lo, hi)
    ensures var n := SetEntry(p, i, Key(p, i), d);
            Ordered(n, lo, hi) && Lookup(n, q) == if q == Key(p, i) then Some(d) else Lookup(p, q)
  {
  }

  lemma EntryHandledKeeps<D>(p: Node<D>, i: nat, change: Option<D -> D>, h: nat, lo: End, hi: End, q: int)
    requires IsEntry(p, i) && Uniform(p, h) && Ordered(p, lo, hi)
    ensures var n := EntryHandled(p, i, change, h);
            && Ordered(n, lo, hi)
            && Lookup(n, q) == if q == Key(p, i) then AnswerAfter(change, Some(Datum(p, i))) else Lookup(p, q)
  {
    hide EntryDeleted, Lookup, Ordered, SetEntry;
    if change.None? {
      EntryDeletedKeeps(p, i, h, lo, hi, q);
    } else {
      EntryChangedKeeps(p, i, change.value(Datum(p, i)), lo, hi, q);
    }
  }

  /** Where the search ends at an entry it answers that entry. */
  lemma AnswerAtEntry<D>(p: Node<D>, key: int)
    requires !p.Null? && Compare(p, key).AtEntry?
    ensures var i := Compare(p, key).i; IsEntry(p, i) && Key(p, i) == key && Lookup(p, key) == Some(Datum(p, i))
  {
  }

  /** Otherwise it goes on in a kid. */
  lemma AnswerInKid<D>(p: Node<D>, key: int, ix: nat)
    requires !p.Null? && Compare(p, key) == InKid(ix)
    ensures IsKid(p, ix) && Lookup(p, key) == Lookup(Kid(p, ix), key)
  {
  }

  lemma {:induction false} DeletedKeeps<D>(p: Node<D>, key: int, change: Option<D -> D>, h: nat, lo: End, hi: End, q: int)
    requires Uniform(p, h) && Ordered(p, lo, hi)
    ensures Deleted(p, key, change, h).Some? ==>
              && Ordered(Deleted(p, key, change, h).value, lo, hi)
              && Lookup(Deleted(p, key, change, h).value, q) == if q == key then AnswerAfter(change, Lookup(p, key)) else Lookup(p, q)
    ensures Deleted(p, key, change, h).None? <==> Lookup(p, key).None?
    decreases h
  {
    hide Lookup, Ordered, Uniform, Transform, EntryHandled, SetKid, Deleted, AnswerAfter, KidLow, KidHigh;
    DeletedCase(p, key, change, h);
    if p != Null {
      match Compare(p, key)
      case AtEntry(i) =>
        AnswerAtEntry(p, key);
        EntryHandledKeeps(p, i, change, h, lo, hi, q);
      case InKid(ix) =>
        AnswerInKid(p, key, ix);
        KidUniform(p, ix, h);
        if Kid(p, ix) == Null {
          NullAnswers<D>(key);
        } else if NodeType(Kid(p, ix)) > 2 {
          DeletedInKid(p, ix, key, change, h, lo, hi, q);
        } else {
          TransformUniform(p, ix, h);
          TransformOrdered(p, ix, lo, hi);
          TransformLookup(p, ix, lo, hi, q);
          TransformLookup(p, ix, lo, hi, key);
          TransformCompare(p, ix, lo, hi, key);
          var t := Transform(p, ix);
          if t.levels == 1 {
            DeletedKeeps(t.node, key, change, h - 1, lo, hi, q);
          } else {
            DeletedInKid(t.node, t.ix, key, change, h, lo, hi, q);
          }
        }
    } else {
      NullAnswers<D>(key);
    }
  }

  lemma NullAnswers<D>(key: int)
    ensures Lookup<D>(Null, key) == None
  {
  }

  /** Deletion one step deep. */
  lemma DeletedCase<D>(p: Node<D>, key: int, change: Option<D -> D>, h: nat)
    requires Uniform(p, h)
    ensures p == Null ==> Deleted(p, key, change, h) == None
    ensures p != Null && Compare(p, key).AtEntry? ==>
              Deleted(p, key, change, h) == Some(EntryHandled(p, Compare(p, key).i, change, h))
    ensures p != Null && Compare(p, key).InKid? ==>
              Deleted(p, key, change, h) == DeletedBelow(p, Compare(p, key).ix, key, change, h)
  {
    hide EntryHandled, DeletedBelow;
  }

  lemma {:induction false} DeletedInKid<D>(p: Node<D>, ix: nat, key: int, change: Option<D -> D>, h: nat, lo: End, hi: End, q: int)
    requires Uniform(p, h) && Ordered(p, lo, hi) && IsKid(p, ix) && Compare(p, key) == InKid(ix)
    ensures var r := Deleted(Kid(p, ix), key, change, h - 1);
            && (r.Some? ==>
                  && Ordered(SetKid(p, ix, r.value), lo, hi)
                  && Lookup(SetKid(p, ix, r.value), q) == if q == key then AnswerAfter(change, Lookup(p, key)) else Lookup(p, q))
            && (r.None? <==> Lookup(p, key).None?)
    decreases h, 0
  {
    hide Lookup, Ordered, Uniform, SetKid, Deleted, AnswerAfter, KidLow, KidHigh;
    KidUniform(p, ix, h);
    KidOrdered(p, lo, hi, ix);
    AnswerInKid(p, key, ix);
    DeletedKeeps(Kid(p, ix), key, change, h - 1, KidLow(p, ix, lo), KidHigh(p, ix, hi), q);
    var r := Deleted(Kid(p, ix), key, change, h - 1);
    if r.Some? {
      SetKidOrdered(p, ix, r.value, lo, hi);
      SetKidLookup(p, ix, r.value, q);
      if Compare(p, q) == InKid(ix) {
        AnswerInKid(p, q, ix);
      }
    }
  }

  /** Deletion keeps a search tree with all leaves at one depth, at most one level less deep. */
  lemma DeleteKeepsTree<D>(root: Node<D>, key: int, change: Option<D -> D>, h: nat)
    requires Ordered(root, Open, Open) && Uniform(root, h)
    ensures Ordered(Removed(root, key, change, h), Open, Open)
    ensures Uniform(Removed(root, key, change, h), h) || (h > 0 && Uniform(Removed(root, key, change, h), h - 1))
  {
    DeletedKeeps(root, key, change, h, Open, Open, key);
  }

  /** Deletion is removal from a map, at every key, or the change of one datum; without the key, and where the
      change has no effect, the tree is the given one. */
  lemma DeleteIsRemoval<D>(root: Node<D>, key: int, change: Option<D -> D>, h: nat)
    requires Ordered(root, Open, Open) && Uniform(root, h)
    ensures forall q :: Lookup(Removed(root, key, change, h), q)
                        == if q != key then Lookup(root, q)
                           else if change.None? || Lookup(root, key).None? then None
                           else Some(change.value(Lookup(root, key).value))
    ensures Lookup(root, key).None? ==> Removed(root, key, change, h) == root
    ensures change.Some? && Lookup(root, key).Some? && change.value(Lookup(root, key).value) == Lookup(root, key).value ==>
              Removed(root, key, change, h) == root
  {
    DeletedKeeps(root, key, change, h, Open, Open, key);
    forall q
      ensures Lookup(Removed(root, key, change, h), q)
              == if q == key then AnswerAfter(change, Lookup(root, key)) else Lookup(root, q)
    {
      DeletedKeeps(root, key, change, h, Open, Open, q);
    }
  }
}
