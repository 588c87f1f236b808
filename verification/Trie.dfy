/** The path-compressed tries of triev2.c, over keys that are sequences of base-4 digits:
    shape, search, insertion and deletion as functions. */
module Trie {

  import opened Wrappers
  import opened TrieKeys
  import opened TrieTables

  /** A node has a prefix, a shape and a son for each digit of the shape; data words stand where
      the key has been used up.  `Null` is the empty trie, or a son that is not there. */
  datatype Trie<D> = Null | Data(value: D) | Node(prefix: Key, ct: nat, sons: seq<Trie<D>>)

  predicate Shaped<D>(t: Trie<D>) {
    t.Node? && t.ct < 15 && |t.sons| + 1 == CELL_SIZE[t.ct]
  }

  /** A trie for keys of `n` digits: no prefix is too long, every node has all the sons of its shape,
      and on every path the digits add up. */
  predicate WellFormed<D>(t: Trie<D>, n: nat)
    decreases n
  {
    if n == 0 then t.Data?
    else
      && Shaped(t) && |t.prefix| <= MAX_PREFIX && |t.prefix| < n
      && forall i :: 0 <= i < |t.sons| ==> WellFormed(t.sons[i], n - |t.prefix| - 1)
  }

  predicate Valid<D>(t: Trie<D>, n: nat) {
    t.Null? || WellFormed(t, n)
  }

  function Son<D>(t: Trie<D>, b: Digit): Trie<D>
    requires Shaped(t)
  {
    OffsetInCell(t.ct, b);
    if Has(t.ct, b) then t.sons[OFFSET[t.ct][b] - 1] else Null
  }

  predicate Matches<D>(t: Trie<D>, key: Key, at: nat)
    requires t.Node?
  {
    at + |t.prefix| < |key| && Agrees(t.prefix, key, at)
  }

  lemma SonValid<D>(t: Trie<D>, n: nat, b: Digit)
    requires WellFormed(t, n) && n > 0
    ensures Valid(Son(t, b), n - |t.prefix| - 1) && (Has(t.ct, b) <==> !Son(t, b).Null?)
  {
    OffsetInCell(t.ct, b);
  }

  /** What the trie has for the digits of `key` from place `at` on. */
  function Lookup<D>(t: Trie<D>, key: Key, at: nat): Option<D>
    requires at <= |key| && Valid(t, |key| - at)
    decreases |key| - at
  {
    if t.Null? then None
    else if at == |key| then Some(t.value)
    else if !Matches(t, key, at) then None
    else
      var next := at + |t.prefix|;
      SonValid(t, |key| - at, key[next]);
      Lookup(Son(t, key[next]), key, next + 1)
  }

  /** `triev2_find`; `at` counts the digits that have been shifted out of the key. */
  method Find<D>(root: Trie<D>, key: Key) returns (r: Option<D>)
    requires Valid(root, |key|)
    ensures r == Lookup(root, key, 0)
  {
    var p, at: nat := root, 0;
    while p.Node?
      invariant at <= |key| && Valid(p, |key| - at) && Lookup(p, key, at) == Lookup(root, key, 0)
      decreases |key| - at
    {
      if !Agrees(p.prefix, key, at) {
        return None;
      }
      at := at + |p.prefix|;
      if OFFSET[p.ct][key[at]] == 0 {
        return None;
      }
      SonValid(p, |p.prefix| + |key| - at, key[at]);
      p := Son(p, key[at]);
      at := at + 1;
    }
    return if p.Null? then None else Some(p.value);
  }

  // ---------- insertion ----------

  /** The copy of the sons that a case of the switch makes, with `x` for the new or replaced son. */
  function Filled<D>(sons: seq<Trie<D>>, copied: seq<nat>, x: Trie<D>): seq<Trie<D>>
    requires forall i :: 0 <= i < |copied| ==> copied[i] <= |sons|
  {
    seq(|copied|, i requires 0 <= i < |copied| => if copied[i] == 0 then x else sons[copied[i] - 1])
  }

  function WithSon<D>(t: Trie<D>, b: Digit, x: Trie<D>): Trie<D>
    requires Shaped(t)
  {
    assert forall i :: 0 <= i < |COPIED[t.ct][b]| ==> COPIED[t.ct][b][i] <= |t.sons| by {
      forall i | 0 <= i < |COPIED[t.ct][b]| ensures COPIED[t.ct][b][i] <= |t.sons| {
        SwitchSlot(t.ct, b, i);
      }
    }
    Node(t.prefix, WITH[t.ct][b], Filled(t.sons, COPIED[t.ct][b], x))
  }

  lemma WithSonShaped<D>(t: Trie<D>, b: Digit, x: Trie<D>)
    requires Shaped(t)
    ensures Shaped(WithSon(t, b, x))
  {
    SwitchSize(t.ct, b);
  }

  lemma WithSonSons<D>(t: Trie<D>, b: Digit, x: Trie<D>, c: Digit)
    requires Shaped(t) && Shaped(WithSon(t, b, x))
    ensures Son(WithSon(t, b, x), c) == if c == b then x else Son(t, c)
  {
    SwitchShape(t.ct, b, c);
    if Has(WITH[t.ct][b], c) {
      SwitchCopies(t.ct, b, c);
    }
  }

  lemma WithSonValid<D>(t: Trie<D>, n: nat, b: Digit, x: Trie<D>)
    requires WellFormed(t, n) && n > 0 && WellFormed(x, n - |t.prefix| - 1)
    ensures WellFormed(WithSon(t, b, x), n)
  {
    WithSonShaped(t, b, x);
    var u := WithSon(t, b, x);
    forall i | 0 <= i < |u.sons| ensures WellFormed(u.sons[i], n - |t.prefix| - 1) {
      SwitchSlot(t.ct, b, i);
    }
  }

  /** A node with sons `x` for digit `b` and the rest of `t` for the digit of its prefix at `j`. */
  function SplitNode<D>(t: Trie<D>, j: nat, b: Digit, x: Trie<D>): Trie<D>
    requires t.Node? && j < |t.prefix| && t.prefix[j] != b
  {
    var below := Node(t.prefix[j + 1..], t.ct, t.sons);
    Node(t.prefix[..j], BI_CELL_TYPE[b][t.prefix[j]], if b < t.prefix[j] then [x, below] else [below, x])
  }

  /** Insertion by recursion. */
  function Inserted<D>(t: Trie<D>, key: Key, at: nat, v: D): Trie<D>
    requires at <= |key| && Valid(t, |key| - at)
    decreases |key| - at
  {
    if at == |key| then Data(v)
    else if t.Null? then
      var m := ChainPrefix(|key| - at);
      Node(key[at..at + m], UNI_CELL_TYPE[key[at + m]], [Inserted(Null, key, at + m + 1, v)])
    else if Matches(t, key, at) then
      var next := at + |t.prefix|;
      SonValid(t, |key| - at, key[next]);
      WithSon(t, key[next], Inserted(Son(t, key[next]), key, next + 1, v))
    else
      var j := Parting(t.prefix, key, at, 0);
      SplitNode(t, j, key[at + j], Inserted(Null, key, at + j + 1, v))
  }
}
