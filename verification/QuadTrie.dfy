/** The four-way tries of trie.c as values: insertion of one key and of a set of keys, and insertion at the end of
    a path that is shared by two neighbouring keys of a set. */
module QuadTrie {

  import opened Wrappers
  import opened TrieKeys

  /** A node has a prefix and a slot for each digit; data words stand where the key has been used up. */
  datatype Trie<D> = Null | Data(value: D) | Node(prefix: Key, sons: seq<Trie<D>>)

  predicate Valid<D>(t: Trie<D>, n: nat)
    decreases n
  {
    t.Null? || if n == 0 then t.Data? else
      && t.Node? && |t.sons| == 4 && |t.prefix| <= MAX_PREFIX && |t.prefix| < n
      && forall i | 0 <= i < 4 :: Valid(t.sons[i], n - |t.prefix| - 1)
  }

  function Lookup<D>(t: Trie<D>, key: Key, at: nat): Option<D>
    requires at <= |key| && Valid(t, |key| - at)
    decreases |key| - at
  {
    if t.Null? then None
    else if at == |key| then Some(t.value)
    else if !Agrees(t.prefix, key, at) then None
    else var next := at + |t.prefix|; Lookup(t.sons[key[next]], key, next + 1)
  }

  // ---------- one level of insertion ----------

  /** The new node of a level before its slot is changed: a copy of the old one, or with a prefix of its own
      where there is none, or over the old one where the old prefix parts from the key. */
  function Ready<D>(t: Trie<D>, key: Key, at: nat): (r: Trie<D>)
    requires at < |key| && Valid(t, |key| - at)
    ensures r.Node? && at + |r.prefix| < |key| && |r.sons| == 4
  {
    if t.Null? then
      var m := if |key| - at > MAX_PREFIX + 1 then MAX_PREFIX else |key| - at - 1;
      Node(key[at..at + m], [Null, Null, Null, Null])
    else if Agrees(t.prefix, key, at) then t
    else
      var j := Parting(t.prefix, key, at, 0);
      Node(t.prefix[..j], [Null, Null, Null, Null][t.prefix[j] := Node(t.prefix[j + 1..], t.sons)])
  }

  lemma ReadyValid<D>(t: Trie<D>, key: Key, at: nat)
    requires at < |key| && Valid(t, |key| - at)
    ensures Valid(Ready(t, key, at), |key| - at) && Agrees(Ready(t, key, at).prefix, key, at)
  {
    if t.Node? && !Agrees(t.prefix, key, at) {
      var j := Parting(t.prefix, key, at, 0);
      var below := Node(t.prefix[j + 1..], t.sons);
      assert Valid(below, |key| - at - j - 1) by {
        forall i | 0 <= i < 4 ensures Valid(below.sons[i], |key| - at - j - 1 - |below.prefix| - 1) {
        }
      }
    }
  }

  lemma LookupAt<D>(t: Trie<D>, q: Key, at: nat)
    requires at < |q| && Valid(t, |q| - at) && t.Node?
    ensures var next := at + |t.prefix|;
            && |t.sons| == 4 && next < |q| && Valid(t.sons[q[next]], |q| - next - 1)
            && Lookup(t, q, at) == if Agrees(t.prefix, q, at) then Lookup(t.sons[q[next]], q, next + 1) else None
  {
  }

  lemma NullLookup<D>(q: Key, at: nat)
    requires at <= |q|
    ensures Valid<D>(Null, |q| - at) && Lookup<D>(Null, q, at) == None
  {
  }

  /** The new node answers as the old one did. */
  lemma ReadyLookup<D>(t: Trie<D>, key: Key, at: nat, q: Key)
    requires at < |key| == |q| && Valid(t, |key| - at) && Valid(Ready(t, key, at), |key| - at)
    ensures Lookup(Ready(t, key, at), q, at) == Lookup(t, q, at)
  {
    hide Lookup;
    var r := Ready(t, key, at);
    LookupAt(r, q, at);
    NullLookup<D>(q, at);
    NullLookup<D>(q, at + |r.prefix| + 1);
    if t.Node? && !Agrees(t.prefix, key, at) {
      var j := Parting(t.prefix, key, at, 0);
      LookupAt(t, q, at);
      AgreesInParts(t.prefix, q, at, j);
      if q[at + j] == t.prefix[j] {
        LookupAt(r.sons[t.prefix[j]], q, at + j + 1);
      }
    }
  }

  // ---------- insertion ----------

  function WithSon<D>(t: Trie<D>, b: Digit, x: Trie<D>): Trie<D>
    requires t.Node? && |t.sons| == 4
  {
    Node(t.prefix, t.sons[b := x])
  }

  function Inserted<D>(t: Trie<D>, key: Key, at: nat, v: D): (r: Trie<D>)
    requires at <= |key| && Valid(t, |key| - at)
    ensures Valid(r, |key| - at)
    decreases |key| - at
  {
    if at == |key| then Data(v)
    else
      ReadyValid(t, key, at);
      var r := Ready(t, key, at);
      var next := at + |r.prefix|;
      WithSon(r, key[next], Inserted(r.sons[key[next]], key, next + 1, v))
  }

  lemma InsertedCase<D>(t: Trie<D>, key: Key, at: nat, v: D)
    requires at < |key| && Valid(t, |key| - at)
    ensures var r := Ready(t, key, at);
            var next := at + |r.prefix|;
            && Valid(r, |key| - at) && Agrees(r.prefix, key, at) && Valid(r.sons[key[next]], |key| - next - 1)
            && Inserted(t, key, at, v) == WithSon(r, key[next], Inserted(r.sons[key[next]], key, next + 1, v))
  {
    hide Ready, Agrees;
    ReadyValid(t, key, at);
  }

  /** The prefix of the new node, written out: along the key, as long as ten digits and one more for a slot allow
      where there was nothing, and as far as the old prefix agrees with the key where there was a node. */
  lemma InsertedPrefix<D>(t: Trie<D>, key: Key, at: nat, v: D)
    requires at < |key| && Valid(t, |key| - at)
    ensures var r := Inserted(t, key, at, v);
            && r.Node? && at + |r.prefix| < |key| && r.prefix == key[at..at + |r.prefix|]
            && (t.Null? ==> |r.prefix| == if |key| - at <= 10 then |key| - at - 1 else 10)
            && (t.Node? && (forall i | 0 <= i < |t.prefix| :: t.prefix[i] == key[at + i]) ==> r.prefix == t.prefix)
            && (t.Node? && |r.prefix| != |t.prefix| ==>
                  |r.prefix| < |t.prefix| && t.prefix[|r.prefix|] != key[at + |r.prefix|])
  {
    hide Inserted, Parting;
    InsertedCase(t, key, at, v);
    var r := Ready(t, key, at);
    assert r.prefix == key[at..at + |r.prefix|];
  }

  lemma AtEnd<D>(t: Trie<D>, key: Key, v: D, q: Key)
    requires Valid(t, 0) && |q| == |key|
    ensures Inserted(t, key, |key|, v) == Data(v) && Lookup(Data(v), q, |key|) == Some(v) && SameFrom(q, key, |key|)
  {
  }

  /** Insertion is map update. */
  lemma {:induction false} InsertedLookup<D>(t: Trie<D>, key: Key, at: nat, v: D, q: Key)
    requires at <= |key| == |q| && Valid(t, |key| - at)
    ensures Lookup(Inserted(t, key, at, v), q, at) == if SameFrom(q, key, at) then Some(v) else Lookup(t, q, at)
    decreases |key| - at
  {
    hide Lookup, Inserted, Ready, Agrees, SameFrom;
    if at == |key| {
      AtEnd(t, key, v, q);
      return;
    }
    InsertedCase(t, key, at, v);
    var r := Ready(t, key, at);
    var next := at + |r.prefix|;
    InsertedLookup(r.sons[key[next]], key, next + 1, v, q);
    LookupAt(Inserted(t, key, at, v), q, at);
    LookupAt(r, q, at);
    ReadyLookup(t, key, at, q);
    SameFromBehind(q, key, r.prefix, at);
  }

  /** Inserting what is there changes nothing. */
  lemma {:induction false} NilpotentInsert<D>(t: Trie<D>, key: Key, at: nat, v: D)
    requires at <= |key| && Valid(t, |key| - at) && Lookup(t, key, at) == Some(v)
    ensures Inserted(t, key, at, v) == t
    decreases |key| - at
  {
    if at < |key| {
      NilpotentInsert(t.sons[key[at + |t.prefix|]], key, at + |t.prefix| + 1, v);
    }
  }

  // ---------- a set of keys ----------

  /** One insertion after the other. */
  function InsertedAll<D>(t: Trie<D>, n: nat, keys: seq<Key>, data: seq<D>): (r: Trie<D>)
    requires |keys| == |data| && Valid(t, n) && forall i | 0 <= i < |keys| :: |keys[i]| == n
    ensures Valid(r, n)
  {
    if keys == [] then t
    else
      var i := |keys| - 1;
      Inserted(InsertedAll(t, n, keys[..i], data[..i]), keys[i], 0, data[i])
  }

  /** An entry of `path`: a node of the new tree and the slot in which the path goes on. */
  datatype Frame<D> = Frame(node: Trie<D>, ix: Digit)

  ghost predicate FrameOk<D>(f: Frame<D>) {
    f.node.Node? && |f.node.sons| == 4
  }

  ghost predicate FramesOk<D>(frames: seq<Frame<D>>) {
    forall i | 0 <= i < |frames| :: FrameOk(frames[i])
  }

  /** The path leads along the first `at` digits of the key. */
  ghost predicate Along<D>(path: seq<Frame<D>>, key: Key, at: nat)
    requires at <= |key|
    decreases |path|
  {
    if path == [] then at == 0
    else
      var f := path[|path| - 1];
      && FrameOk(f) && at >= |f.node.prefix| + 1
      && var fAt: nat := at - 1 - |f.node.prefix|;
         && Agrees(f.node.prefix, key, fAt) && f.ix == key[at - 1]
         && |f.node.prefix| <= MAX_PREFIX && (forall i | 0 <= i < 4 :: Valid(f.node.sons[i], |key| - at))
         && Along(path[..|path| - 1], key, fAt)
  }

  /** The whole tree, with `x` at the end of the path. */
  ghost function Plug<D>(path: seq<Frame<D>>, x: Trie<D>): Trie<D>
    requires FramesOk(path)
  {
    if path == [] then x
    else
      var f := path[|path| - 1];
      assert FrameOk(f);
      Plug(path[..|path| - 1], WithSon(f.node, f.ix, x))
  }

  lemma {:induction false} AlongOk<D>(path: seq<Frame<D>>, key: Key, at: nat)
    requires at <= |key| && Along(path, key, at)
    ensures FramesOk(path)
    decreases |path|
  {
    if path != [] {
      var f := path[|path| - 1];
      AlongOk(path[..|path| - 1], key, at - 1 - |f.node.prefix|);
      forall i | 0 <= i < |path| ensures FrameOk(path[i]) {
        if i < |path| - 1 {
          assert path[..|path| - 1][i] == path[i];
        }
      }
    }
  }

  /** A path lies along every key that begins with the same digits. */
  lemma {:induction false} AlongOther<D>(path: seq<Frame<D>>, key: Key, other: Key, at: nat)
    requires at <= |key| == |other| && Along(path, key, at) && forall i | 0 <= i < at :: key[i] == other[i]
    ensures Along(path, other, at)
    decreases |path|
  {
    if path != [] {
      var f := path[|path| - 1];
      AlongOther(path[..|path| - 1], key, other, at - 1 - |f.node.prefix|);
    }
  }

  /** One frame: the node over `x`, and insertion into it. */
  lemma FrameInserted<D>(f: Frame<D>, key: Key, fAt: nat, x: Trie<D>, v: D)
    requires FrameOk(f) && fAt + |f.node.prefix| < |key| && |f.node.prefix| <= MAX_PREFIX
    requires Agrees(f.node.prefix, key, fAt) && f.ix == key[fAt + |f.node.prefix|]
    requires var n := |key| - fAt - |f.node.prefix| - 1;
             Valid(x, n) && forall i | 0 <= i < 4 :: Valid(f.node.sons[i], n)
    ensures var y := WithSon(f.node, f.ix, x);
            && Valid(y, |key| - fAt)
            && Inserted(y, key, fAt, v) == WithSon(f.node, f.ix, Inserted(x, key, fAt + |f.node.prefix| + 1, v))
  {
    hide Inserted;
    var y := WithSon(f.node, f.ix, x);
    FrameValid(f, key, fAt, x);
    InsertedCase(y, key, fAt, v);
    assert Ready(y, key, fAt) == y;
  }

  lemma FrameValid<D>(f: Frame<D>, key: Key, fAt: nat, x: Trie<D>)
    requires FrameOk(f) && fAt + |f.node.prefix| < |key| && |f.node.prefix| <= MAX_PREFIX
    requires var n := |key| - fAt - |f.node.prefix| - 1;
             Valid(x, n) && forall i | 0 <= i < 4 :: Valid(f.node.sons[i], n)
    ensures Valid(WithSon(f.node, f.ix, x), |key| - fAt)
  {
    var y := WithSon(f.node, f.ix, x);
    forall i | 0 <= i < 4 ensures Valid(y.sons[i], |key| - fAt - |y.prefix| - 1) {
    }
  }

  /** Inserting at the end of the path is inserting from the root. */
  lemma {:induction false} PlugInserted<D>(path: seq<Frame<D>>, key: Key, at: nat, x: Trie<D>, v: D)
    requires at <= |key| && Along(path, key, at) && Valid(x, |key| - at)
    requires FramesOk(path)
    ensures Valid(Plug(path, x), |key|)
    ensures Plug(path, Inserted(x, key, at, v)) == Inserted(Plug(path, x), key, 0, v)
    decreases |path|
  {
    hide Inserted, Valid, Agrees, WithSon;
    if path != [] {
      var f := path[|path| - 1];
      var fAt := at - 1 - |f.node.prefix|;
      AlongOk(path[..|path| - 1], key, fAt);
      FrameInserted(f, key, fAt, x, v);
      PlugInserted(path[..|path| - 1], key, fAt, WithSon(f.node, f.ix, x), v);
    }
  }

  lemma AlongPushed<D>(path: seq<Frame<D>>, key: Key, at: nat, r: Trie<D>)
    requires at < |key| && Along(path, key, at) && r.Node? && Valid(r, |key| - at) && Agrees(r.prefix, key, at)
    ensures var next := at + |r.prefix|;
            && FrameOk(Frame(r, key[next])) && Along(path + [Frame(r, key[next])], key, next + 1)
  {
    hide Agrees;
    var f := Frame(r, key[at + |r.prefix|]);
    assert (path + [f])[..|path|] == path;
  }

  lemma PlugPushed<D>(path: seq<Frame<D>>, f: Frame<D>, x: Trie<D>)
    requires FrameOk(f) && FramesOk(path)
    ensures FramesOk(path + [f])
    ensures Plug(path + [f], x) == Plug(path, WithSon(f.node, f.ix, x))
  {
    assert (path + [f])[..|path|] == path;
  }

  lemma EmptyPath<D>(key: Key, x: Trie<D>)
    ensures Along<D>([], key, 0) && Plug([], x) == x
  {
  }

  lemma LeafLookup<D>(p: Trie<D>, key: Key)
    requires Valid(p, 0)
    ensures Lookup(p, key, |key|) == if p.Data? then Some(p.value) else None
  {
  }

  /** The search goes along the path. */
  lemma {:induction false} PlugLookup<D>(path: seq<Frame<D>>, key: Key, at: nat, x: Trie<D>)
    requires at <= |key| && Along(path, key, at) && Valid(x, |key| - at)
    requires FramesOk(path)
    requires Valid(Plug(path, x), |key|)
    ensures Lookup(Plug(path, x), key, 0) == Lookup(x, key, at)
    decreases |path|
  {
    hide Lookup, Agrees;
    if path != [] {
      var f := path[|path| - 1];
      var fAt := at - 1 - |f.node.prefix|;
      AlongOk(path[..|path| - 1], key, fAt);
      var y := WithSon(f.node, f.ix, x);
      FrameValid(f, key, fAt, x);
      PlugLookup(path[..|path| - 1], key, fAt, y);
      LookupAt(y, key, fAt);
    }
  }

  /** The map after a set of insertions: what the last of the set says about a key, else what was there. */
  lemma {:induction false} InsertedAllLookup<D>(t: Trie<D>, n: nat, keys: seq<Key>, data: seq<D>, q: Key)
    requires |keys| == |data| && Valid(t, n) && |q| == n && forall i | 0 <= i < |keys| :: |keys[i]| == n
    requires forall i, j | 0 <= i < j < |keys| :: keys[i] != keys[j]
    ensures (forall i | 0 <= i < |keys| :: keys[i] != q)
            ==> Lookup(InsertedAll(t, n, keys, data), q, 0) == Lookup(t, q, 0)
    ensures forall i | 0 <= i < |keys| && keys[i] == q :: Lookup(InsertedAll(t, n, keys, data), q, 0) == Some(data[i])
    decreases |keys|
  {
    hide Inserted, Lookup;
    if keys != [] {
      var i := |keys| - 1;
      InsertedAllLookup(t, n, keys[..i], data[..i], q);
      InsertedLookup(InsertedAll(t, n, keys[..i], data[..i]), keys[i], 0, data[i], q);
      assert SameFrom(q, keys[i], 0) <==> q == keys[i];
      forall j | 0 <= j < |keys| && keys[j] == q
        ensures Lookup(InsertedAll(t, n, keys, data), q, 0) == Some(data[j])
      {
        if j < i {
          assert keys[..i][j] == q && data[..i][j] == data[j];
        }
      }
    }
  }
}
