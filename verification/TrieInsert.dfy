/** `triev2_insert`: what insertion keeps and computes, and the loop that fills fresh nodes from the top. */
module TrieInsert {

  import opened Wrappers
  import opened TrieKeys
  import opened TrieTables
  import opened Trie

  /** What a node with these sons answers. */
  lemma LookupAt<D>(t: Trie<D>, q: Key, at: nat)
    requires at < |q| && WellFormed(t, |q| - at)
    ensures var next := at + |t.prefix|;
            && Valid(Son(t, q[next]), |q| - next - 1)
            && Lookup(t, q, at) ==
               if Agrees(t.prefix, q, at) then Lookup(Son(t, q[next]), q, next + 1) else None
  {
    SonValid(t, |q| - at, q[at + |t.prefix|]);
  }

  // ---------- the kinds of new node ----------

  lemma ChainSon<D>(prefix: Key, a: Digit, x: Trie<D>, c: Digit)
    ensures Shaped(Node(prefix, UNI_CELL_TYPE[a], [x]))
    ensures Son(Node(prefix, UNI_CELL_TYPE[a], [x]), c) == if c == a then x else Null
  {
    UniHasOne(a, c);
    UniHasOne(a, a);
    OffsetInCell(UNI_CELL_TYPE[a], c);
  }

  lemma SplitShaped<D>(t: Trie<D>, j: nat, b: Digit, x: Trie<D>)
    requires Shaped(t) && j < |t.prefix| && t.prefix[j] != b
    ensures Shaped(SplitNode(t, j, b, x))
  {
    BiHasTwo(b, t.prefix[j], 0);
  }

  lemma SplitSon<D>(t: Trie<D>, j: nat, b: Digit, x: Trie<D>, c: Digit)
    requires Shaped(t) && j < |t.prefix| && t.prefix[j] != b && Shaped(SplitNode(t, j, b, x))
    ensures Son(SplitNode(t, j, b, x), c) ==
              if c == b then x
              else if c == t.prefix[j] then Node(t.prefix[j + 1..], t.ct, t.sons) else Null
  {
    BiHasTwo(b, t.prefix[j], c);
    BiOffsets(b, t.prefix[j]);
  }

  /** Nodes that differ in their prefixes only, and are looked at from different places, answer
      alike if both prefixes or neither match. */
  lemma SameAnswers<D>(s: Trie<D>, t: Trie<D>, q: Key, sAt: nat, tAt: nat)
    requires sAt < |q| && tAt < |q| && WellFormed(s, |q| - sAt) && WellFormed(t, |q| - tAt)
    requires s.ct == t.ct && s.sons == t.sons && sAt + |s.prefix| == tAt + |t.prefix|
    requires Agrees(s.prefix, q, sAt) <==> Agrees(t.prefix, q, tAt)
    ensures Lookup(s, q, sAt) == Lookup(t, q, tAt)
  {
    LookupAt(s, q, sAt);
    LookupAt(t, q, tAt);
  }

  /** A node with a shortened prefix answers for the keys that the node answered for. */
  lemma ShortenedValid<D>(t: Trie<D>, n: nat, j: nat)
    requires WellFormed(t, n) && n > 0 && j < |t.prefix|
    ensures WellFormed(Node(t.prefix[j + 1..], t.ct, t.sons), n - j - 1)
  {
    var below := Node(t.prefix[j + 1..], t.ct, t.sons);
    assert Shaped(below);
    forall i | 0 <= i < |below.sons| ensures WellFormed(below.sons[i], n - j - 1 - |below.prefix| - 1) {
    }
  }

  lemma SplitLookup<D>(t: Trie<D>, j: nat, b: Digit, x: Trie<D>, q: Key, at: nat)
    requires at < |q| && WellFormed(t, |q| - at) && j < |t.prefix| && t.prefix[j] != b
    requires WellFormed(x, |q| - at - j - 1) && WellFormed(SplitNode(t, j, b, x), |q| - at)
    ensures Lookup(SplitNode(t, j, b, x), q, at) ==
              if Agrees(t.prefix[..j], q, at) && q[at + j] == b then Lookup(x, q, at + j + 1) else Lookup(t, q, at)
  {
    hide Lookup, Son, OFFSET, BI_CELL_TYPE;
    NullLookup<D>(q, at + j + 1);
    SplitSon(t, j, b, x, q[at + j]);
    LookupAt(SplitNode(t, j, b, x), q, at);
    AgreesInParts(t.prefix, q, at, j);
    if Agrees(t.prefix[..j], q, at) && q[at + j] == t.prefix[j] {
      ShortenedValid(t, |q| - at, j);
      SameAnswers(Node(t.prefix[j + 1..], t.ct, t.sons), t, q, at + j + 1, at);
    } else {
      LookupAt(t, q, at);
    }
  }

  // ---------- insertion keeps the trie well formed ----------

  lemma SplitValid<D>(t: Trie<D>, n: nat, j: nat, b: Digit, x: Trie<D>)
    requires WellFormed(t, n) && n > 0 && j < |t.prefix| && t.prefix[j] != b && WellFormed(x, n - j - 1)
    ensures WellFormed(SplitNode(t, j, b, x), n)
  {
    ShortenedValid(t, n, j);
    SplitShaped(t, j, b, x);
  }

  lemma ChainValid<D>(prefix: Key, n: nat, a: Digit, x: Trie<D>)
    requires |prefix| < n && |prefix| <= MAX_PREFIX && WellFormed(x, n - |prefix| - 1)
    ensures WellFormed(Node(prefix, UNI_CELL_TYPE[a], [x]), n)
  {
    ChainSon(prefix, a, x, 0);
  }

  /** The cases of insertion, one step deep. */
  lemma InsertedCases<D>(t: Trie<D>, key: Key, at: nat, v: D)
    requires at < |key| && Valid(t, |key| - at)
    ensures t.Null? ==>
              var m := ChainPrefix(|key| - at);
              Inserted(t, key, at, v) ==
              Node(key[at..at + m], UNI_CELL_TYPE[key[at + m]], [Inserted(Null, key, at + m + 1, v)])
    ensures t.Node? && Agrees(t.prefix, key, at) ==>
              var next := at + |t.prefix|;
              && Valid(Son(t, key[next]), |key| - next - 1)
              && Inserted(t, key, at, v) == WithSon(t, key[next], Inserted(Son(t, key[next]), key, next + 1, v))
    ensures t.Node? && !Agrees(t.prefix, key, at) ==>
              var j := Parting(t.prefix, key, at, 0);
              Inserted(t, key, at, v) == SplitNode(t, j, key[at + j], Inserted(Null, key, at + j + 1, v))
  {
    hide WithSon, SplitNode, OFFSET, UNI_CELL_TYPE, Agrees, Parting;
    if t.Node? {
      SonValid(t, |key| - at, key[at + |t.prefix|]);
    }
  }

  lemma InsertedAtEnd<D>(t: Trie<D>, key: Key, v: D)
    requires Valid(t, 0)
    ensures Inserted(t, key, |key|, v) == Data(v) && WellFormed(Inserted(t, key, |key|, v), 0)
  {
  }

  lemma {:induction false} InsertedValid<D>(t: Trie<D>, key: Key, at: nat, v: D)
    requires at <= |key| && Valid(t, |key| - at)
    ensures WellFormed(Inserted(t, key, at, v), |key| - at)
    decreases |key| - at
  {
    hide Inserted, WithSon, Son, SplitNode, OFFSET, UNI_CELL_TYPE, Parting, Agrees;
    if at == |key| {
      InsertedAtEnd(t, key, v);
      return;
    }
    InsertedCases(t, key, at, v);
    if t.Null? {
      var m := ChainPrefix(|key| - at);
      InsertedValid<D>(Null, key, at + m + 1, v);
      ChainValid(key[at..at + m], |key| - at, key[at + m], Inserted(Null, key, at + m + 1, v));
    } else if Agrees(t.prefix, key, at) {
      var next := at + |t.prefix|;
      InsertedValid(Son(t, key[next]), key, next + 1, v);
      WithSonValid(t, |key| - at, key[next], Inserted(Son(t, key[next]), key, next + 1, v));
    } else {
      var j := Parting(t.prefix, key, at, 0);
      InsertedValid<D>(Null, key, at + j + 1, v);
      SplitValid(t, |key| - at, j, key[at + j], Inserted(Null, key, at + j + 1, v));
    }
  }

  /** The prefix of the new node, written out: along the key, as long as ten digits and one more for a son allow
      where there was nothing, and as far as the old prefix agrees with the key where there was a node. */
  lemma InsertedPrefix<D>(t: Trie<D>, key: Key, at: nat, v: D)
    requires at < |key| && Valid(t, |key| - at)
    ensures var r := Inserted(t, key, at, v);
            && r.Node? && at + |r.prefix| < |key| && r.prefix == key[at..at + |r.prefix|]
            && (t.Null? ==> |r.prefix| == (if |key| - at <= 10 then |key| - at - 1 else 10) && |r.sons| == 1)
            && (t.Node? && (forall i | 0 <= i < |t.prefix| :: t.prefix[i] == key[at + i]) ==> r.prefix == t.prefix)
            && (t.Node? && |r.prefix| != |t.prefix| ==>
                  && |r.prefix| < |t.prefix| && t.prefix[|r.prefix|] != key[at + |r.prefix|] && |r.sons| == 2)
  {
    hide OFFSET, Son, Parting;
    InsertedCases(t, key, at, v);
    if t.Node? && Agrees(t.prefix, key, at) {
      assert t.prefix == key[at..at + |t.prefix|];
    } else if t.Node? {
      var j := Parting(t.prefix, key, at, 0);
      assert t.prefix[..j] == key[at..at + j];
    }
  }

  // ---------- insertion is map update ----------

  lemma {:induction false} InsertedLookup<D>(t: Trie<D>, key: Key, at: nat, v: D, q: Key)
    requires at <= |key| == |q| && Valid(t, |key| - at)
    ensures WellFormed(Inserted(t, key, at, v), |key| - at)
    ensures Lookup(Inserted(t, key, at, v), q, at) ==
              if SameFrom(q, key, at) then Some(v) else Lookup(t, q, at)
    decreases |key| - at
  {
    hide Inserted, WithSon, SplitNode, Son, Lookup, OFFSET, UNI_CELL_TYPE;
    InsertedValid(t, key, at, v);
    if at == |key| {
      InsertedAtEnd(t, key, v);
      LookupAtEnd(t, q);
      LookupAtEnd(Inserted(t, key, at, v), q);
      return;
    }
    InsertedCases(t, key, at, v);
    if t.Null? {
      var m := ChainPrefix(|key| - at);
      InsertedLookup(Null, key, at + m + 1, v, q);
      NullLookup<D>(q, at);
      NullLookup<D>(q, at + m + 1);
      ChainLookup(key, at, m, Inserted<D>(Null, key, at + m + 1, v), v, q);
    } else if Agrees(t.prefix, key, at) {
      var next := at + |t.prefix|;
      InsertedLookup(Son(t, key[next]), key, next + 1, v, q);
      MatchLookup(t, key, at, Inserted(Son(t, key[next]), key, next + 1, v), v, q);
    } else {
      var j := Parting(t.prefix, key, at, 0);
      InsertedLookup(Null, key, at + j + 1, v, q);
      NullLookup<D>(q, at + j + 1);
      PartLookup(t, key, at, j, Inserted<D>(Null, key, at + j + 1, v), v, q);
    }
  }

  lemma LookupAtEnd<D>(t: Trie<D>, q: Key)
    requires Valid(t, 0)
    ensures Lookup(t, q, |q|) == if t.Data? then Some(t.value) else None
  {
  }

  lemma NullLookup<D>(q: Key, at: nat)
    requires at <= |q|
    ensures Lookup<D>(Null, q, at) == None
  {
  }

  /** The three cases, given what the new son `x` answers. */
  lemma ChainLookup<D>(key: Key, at: nat, m: nat, x: Trie<D>, v: D, q: Key)
    requires at + m < |key| == |q| && m <= MAX_PREFIX && WellFormed(x, |key| - at - m - 1)
    requires Lookup(x, q, at + m + 1) == if SameFrom(q, key, at + m + 1) then Some(v) else None
    ensures var u := Node(key[at..at + m], UNI_CELL_TYPE[key[at + m]], [x]);
            && WellFormed(u, |key| - at)
            && Lookup(u, q, at) == if SameFrom(q, key, at) then Some(v) else None
  {
    hide Lookup;
    var prefix := key[at..at + m];
    ChainValid(prefix, |key| - at, key[at + m], x);
    ChainSon(prefix, key[at + m], x, q[at + m]);
    LookupAt(Node(prefix, UNI_CELL_TYPE[key[at + m]], [x]), q, at);
    NullLookup<D>(q, at + m + 1);
    SameFromBehind(q, key, prefix, at);
  }

  lemma MatchLookup<D>(t: Trie<D>, key: Key, at: nat, x: Trie<D>, v: D, q: Key)
    requires at < |key| == |q| && WellFormed(t, |key| - at) && Matches(t, key, at)
    requires var next := at + |t.prefix|;
             && WellFormed(x, |key| - next - 1) && Valid(Son(t, key[next]), |key| - next - 1)
             && Lookup(x, q, next + 1) ==
                if SameFrom(q, key, next + 1) then Some(v) else Lookup(Son(t, key[next]), q, next + 1)
    ensures var u := WithSon(t, key[at + |t.prefix|], x);
            && WellFormed(u, |key| - at)
            && Lookup(u, q, at) == if SameFrom(q, key, at) then Some(v) else Lookup(t, q, at)
  {
    hide OFFSET, WITH, COPIED, Son, Lookup;
    var next := at + |t.prefix|;
    WithSonValid(t, |key| - at, key[next], x);
    WithSonShaped(t, key[next], x);
    WithSonSons(t, key[next], x, q[next]);
    LookupAt(WithSon(t, key[next], x), q, at);
    LookupAt(t, q, at);
    SameFromBehind(q, key, t.prefix, at);
  }

  lemma PartLookup<D>(t: Trie<D>, key: Key, at: nat, j: nat, x: Trie<D>, v: D, q: Key)
    requires at < |key| == |q| && WellFormed(t, |key| - at) && j < |t.prefix|
    requires t.prefix[j] != key[at + j] && Agrees(t.prefix[..j], key, at) && WellFormed(x, |key| - at - j - 1)
    requires Lookup(x, q, at + j + 1) == if SameFrom(q, key, at + j + 1) then Some(v) else None
    ensures var u := SplitNode(t, j, key[at + j], x);
            && WellFormed(u, |key| - at)
            && Lookup(u, q, at) == if SameFrom(q, key, at) then Some(v) else Lookup(t, q, at)
  {
    hide SplitNode, Son, Lookup;
    SplitValid(t, |key| - at, j, key[at + j], x);
    SplitLookup(t, j, key[at + j], x, q, at);
    SameFromBehind(q, key, t.prefix[..j], at);
    AgreesInParts(t.prefix, q, at, j);
    LookupAt(t, q, at);
  }

  // ---------- the operation ----------

  /** `triev2_insert` with the function that joins old data and new: nilpotent insertion
      gives back the old root. */
  function Insert<D(==)>(root: Trie<D>, key: Key, join: (D, D) -> D, data: D): Trie<D>
    requires Valid(root, |key|)
  {
    match Lookup(root, key, 0)
    case None => Inserted(root, key, 0, data)
    case Some(o) => if join(o, data) == o then root else Inserted(root, key, 0, join(o, data))
  }

  lemma InsertIsUpdate<D>(root: Trie<D>, key: Key, join: (D, D) -> D, data: D, q: Key)
    requires Valid(root, |key|) && |q| == |key|
    ensures Valid(Insert(root, key, join, data), |key|)
    ensures Lookup(Insert(root, key, join, data), q, 0) ==
              if q != key then Lookup(root, q, 0)
              else match Lookup(root, key, 0) case None => Some(data) case Some(o) => Some(join(o, data))
  {
    var v := match Lookup(root, key, 0) case None => data case Some(o) => join(o, data);
    InsertedValid(root, key, 0, v);
    InsertedLookup(root, key, 0, v, q);
    SameFromStart(q, key);
  }

  // ---------- the loop ----------

  /** A fresh node with one slot still to be filled. */
  datatype Hole<D> = Hole(node: Trie<D>, slot: nat)

  predicate Open<D>(h: Hole<D>) {
    h.node.Node? && h.slot < |h.node.sons|
  }

  function Fill<D>(h: Hole<D>, x: Trie<D>): Trie<D>
    requires Open(h)
  {
    Node(h.node.prefix, h.node.ct, h.node.sons[h.slot := x])
  }

  /** All the fresh nodes, each linked into the slot left open by the one before it. */
  function Plug<D>(path: seq<Hole<D>>, x: Trie<D>): Trie<D>
    requires forall i :: 0 <= i < |path| ==> Open(path[i])
    decreases |path|
  {
    if path == [] then x else Plug(path[..|path| - 1], Fill(path[|path| - 1], x))
  }

  lemma PlugPushed<D>(path: seq<Hole<D>>, h: Hole<D>, x: Trie<D>)
    requires Open(h) && forall i :: 0 <= i < |path| ==> Open(path[i])
    ensures forall i :: 0 <= i < |path + [h]| ==> Open((path + [h])[i])
    ensures Plug(path + [h], x) == Plug(path, Fill(h, x))
  {
    assert (path + [h])[..|path|] == path;
  }

  lemma FilledAtHole<D>(sons: seq<Trie<D>>, copied: seq<nat>, slot: nat, x: Trie<D>)
    requires slot < |copied| && forall i :: 0 <= i < |copied| ==> copied[i] <= |sons|
    requires forall i :: 0 <= i < |copied| ==> (copied[i] == 0 <==> i == slot)
    ensures Filled(sons, copied, Null)[slot := x] == Filled(sons, copied, x)
  {
  }

  /** The slot that the switch leaves open, from 0. */
  function OpenSlot(ct: nat, b: Digit): nat
    requires ct < 15
  {
    SwitchShape(ct, b, b);
    OFFSET[WITH[ct][b]][b] - 1
  }

  /** The copy with an empty slot, filled, is the copy made with the son. */
  lemma FillWithSon<D>(t: Trie<D>, b: Digit, x: Trie<D>)
    requires Shaped(t)
    ensures var h := Hole(WithSon(t, b, Null), OpenSlot(t.ct, b));
            Open(h) && Fill(h, x) == WithSon(t, b, x)
  {
    SwitchShape(t.ct, b, b);
    SwitchCopies(t.ct, b, b);
    var copied := COPIED[t.ct][b];
    var slot := OpenSlot(t.ct, b);
    forall i | 0 <= i < |copied| ensures copied[i] <= |t.sons| && (copied[i] == 0 <==> i == slot) {
      SwitchSlot(t.ct, b, i);
    }
    FilledAtHole(t.sons, copied, slot, x);
  }

  function SplitSlot(b: Digit, c: Digit): nat
    requires b != c
  {
    BiOffsets(b, c);
    OFFSET[BI_CELL_TYPE[b][c]][b] - 1
  }

  lemma FillSplit<D>(t: Trie<D>, j: nat, b: Digit, x: Trie<D>)
    requires Shaped(t) && j < |t.prefix| && t.prefix[j] != b
    ensures var h := Hole(SplitNode(t, j, b, Null), SplitSlot(b, t.prefix[j]));
            Open(h) && Fill(h, x) == SplitNode(t, j, b, x)
  {
    BiOffsets(b, t.prefix[j]);
  }

  /** One turn of the loop at `p`: a fresh node with an open slot, the son that the slot had, and the
      next place in the key; inserting into the son and filling the slot is inserting into `p`. */
  ghost predicate Opens<D>(p: Trie<D>, key: Key, at: nat, v: D, h: Hole<D>, son: Trie<D>, next: nat)
    requires at < |key| && Valid(p, |key| - at)
  {
    && at < next <= |key| && Open(h) && Valid(son, |key| - next)
    && Lookup(son, key, next) == Lookup(p, key, at)
    && Fill(h, Inserted(son, key, next, v)) == Inserted(p, key, at, v)
  }

  method OpenChain<D(==)>(key: Key, at: nat, ghost v: D) returns (h: Hole<D>, son: Trie<D>, next: nat)
    requires at < |key|
    ensures Opens(Null, key, at, v, h, son, next)
  {
    var m := ChainPrefix(|key| - at);
    h := Hole(Node(key[at..at + m], UNI_CELL_TYPE[key[at + m]], [Null]), 0);
    son, next := Null, at + m + 1;
  }

  method OpenSplit<D(==)>(p: Trie<D>, key: Key, at: nat, ghost v: D)
    returns (h: Hole<D>, son: Trie<D>, next: nat)
    requires at < |key| && WellFormed(p, |key| - at) && !Agrees(p.prefix, key, at)
    ensures Opens(p, key, at, v, h, son, next)
  {
    var j := Parting(p.prefix, key, at, 0);
    FillSplit(p, j, key[at + j], Null);
    h := Hole(SplitNode(p, j, key[at + j], Null), SplitSlot(key[at + j], p.prefix[j]));
    son, next := Null, at + j + 1;
    FillSplit(p, j, key[at + j], Inserted(Null, key, next, v));
  }

  method OpenCopy<D(==)>(p: Trie<D>, key: Key, at: nat, ghost v: D)
    returns (h: Hole<D>, son: Trie<D>, next: nat)
    requires at < |key| && WellFormed(p, |key| - at) && Matches(p, key, at)
    ensures Opens(p, key, at, v, h, son, next)
  {
    hide OFFSET, WITH, COPIED, Son;
    next := at + |p.prefix|;
    var b := key[next];
    LookupAt(p, key, at);
    FillWithSon(p, b, Null);
    h := Hole(WithSon(p, b, Null), OpenSlot(p.ct, b));
    son := OldSon(p, b);
    next := next + 1;
    FillWithSon(p, b, Inserted(son, key, next, v));
  }

  /** The son that the switch finds in the old node. */
  function OldSon<D>(p: Trie<D>, b: Digit): (s: Trie<D>)
    requires Shaped(p)
    ensures s == Son(p, b)
  {
    OldSlotIsOffset(p.ct, b);
    OffsetInCell(p.ct, b);
    if OLD_SLOT[p.ct][b] == 0 then Null else p.sons[OLD_SLOT[p.ct][b] - 1]
  }

  /** The data word that insertion will leave. */
  ghost function Joined<D>(found: Option<D>, join: (D, D) -> D, data: D): D {
    match found case None => data case Some(o) => join(o, data)
  }

  /** `triev2_insert`: the way down leaves a chain of fresh nodes, each with one slot open. */
  method InsertLoop<D(==)>(root: Trie<D>, key: Key, join: (D, D) -> D, data0: D) returns (r: Trie<D>)
    requires Valid(root, |key|) && key != []
    ensures r == Insert(root, key, join, data0)
  {
    hide OFFSET, WITH, COPIED, UNI_CELL_TYPE, Son, WithSon, SplitNode, ChainPrefix, Parting;
    var p, at: nat, data := root, 0, data0;
    var path: seq<Hole<D>> := [];
    ghost var v := Joined(Lookup(root, key, 0), join, data0);
    while at < |key|
      invariant at <= |key| && Valid(p, |key| - at) && Lookup(p, key, at) == Lookup(root, key, 0)
      invariant forall i :: 0 <= i < |path| ==> Open(path[i])
      invariant Plug(path, Inserted(p, key, at, v)) == Inserted(root, key, 0, v)
    {
      var h, son, next;
      if p.Null? {
        h, son, next := OpenChain(key, at, v);
      } else if !Agrees(p.prefix, key, at) {
        h, son, next := OpenSplit(p, key, at, v);
      } else {
        h, son, next := OpenCopy(p, key, at, v);
      }
      PlugPushed(path, h, Inserted(son, key, next, v));
      path := path + [h];
      p := son;
      at := next;
    }
    if p.Data? {
      data := join(p.value, data);
      if data == p.value {
        return root;
      }
    }
    r := Plug(path, Data(data));
  }
}
