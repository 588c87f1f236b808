/** The loops of `triev2_find_max`, `triev2_find_at_most` and `triev2_find_nonexistent_key`. */
module TrieSearchPass {

  import opened Wrappers
  import opened TrieKeys
  import opened TrieTables
  import opened Trie
  import opened TrieInsert
  import opened TrieDeletePass
  import opened TrieSearch

  /** `triev2_find_max`, and the `find_max` phase of `triev2_find_at_most`, which starts below a node
      with the digits found so far. */
  method FindMax<D>(t: Trie<D>, finalKey: Key, n: nat) returns (e: Entry<D>)
    requires WellFormed(t, n)
    ensures e == Greatest(t, finalKey, n)
  {
    hide OFFSET, Has;
    var p, maxKey, left: nat := t, finalKey, n;
    while left != 0
      invariant WellFormed(p, left) && Greatest(p, maxKey, left) == Greatest(t, finalKey, n)
      decreases left
    {
      LastIsGreatest(p.ct);
      var i := GREATEST_NON_NULL[p.ct][4];
      SonValid(p, left, LastDigit(p.ct));
      maxKey := maxKey + p.prefix + [DEOFFSET[p.ct][i - 1]];
      left := left - |p.prefix| - 1;
      p := p.sons[i - 1];
    }
    e := Entry(maxKey, p.value);
  }

  // ---------- climbing ----------

  /** What is found from the path alone: the greatest key by a smaller digit, as far down as possible. */
  ghost function Climb<D>(root: Trie<D>, path: seq<Frame<D>>, key: Key, at: nat, p: Trie<D>): Option<Entry<D>>
    requires at <= |key| && OnPath(root, key, path, at, p)
    decreases |path|
  {
    if path == [] then None
    else
      var f := path[|path| - 1];
      var fAt: nat := at - 1 - |f.node.prefix|;
      var r := Smaller(f.node, key, fAt);
      if r.Some? then r else Climb(root, path[..|path| - 1], key, fAt, f.node)
  }

  lemma {:induction false} AtMostByPath<D>(root: Trie<D>, path: seq<Frame<D>>, key: Key, at: nat, p: Trie<D>)
    requires at <= |key| && OnPath(root, key, path, at, p) && Valid(p, |key| - at) && WellFormed(root, |key|)
    ensures AtMost(root, key, 0) ==
              if p.Node? || p.Data? then
                if AtMost(p, key, at).Some? then AtMost(p, key, at) else Climb(root, path, key, at, p)
              else Climb(root, path, key, at, p)
    decreases |path|
  {
    hide AtMost, Son, Has, Slot, Smaller, Agrees;
    if path != [] {
      var f := path[|path| - 1];
      var fAt := at - 1 - |f.node.prefix|;
      AtMostCases(f.node, key, fAt);
      AtMostByPath(root, path[..|path| - 1], key, fAt, f.node);
    }
  }

  /** The slot before that of a son is the one of the greatest smaller digit. */
  lemma SlotBefore(ct: nat, b: Digit)
    requires ct < 15 && Has(ct, b)
    ensures Slot(ct, b) - 1 == GREATEST_NON_NULL[ct][b]
  {
    OffsetIsRank(ct, b);
    GreatestIsRank(ct, b);
  }

  /** The end of the climb: the prefix and the digit of slot `i` go back to the key, and the search
      turns to the greatest key below. */
  method TakeSmaller<D>(p: Trie<D>, ghost key: Key, ghost at: nat, finalKey: Key, i: nat, left: nat) returns (e: Entry<D>)
    requires at < |key| && WellFormed(p, |key| - at) && Agrees(p.prefix, key, at) && finalKey == key[..at]
    requires i == GREATEST_NON_NULL[p.ct][key[at + |p.prefix|]] > 0 && left == |key| - at
    ensures Some(e) == Smaller(p, key, at)
  {
    ghost var next := at + |p.prefix|;
    ghost var c := SmallerDigit(p.ct, key[next]);
    SmallerSlot(p.ct, key[next]);
    SonValid(p, |key| - at, c);
    assert key[..next] == finalKey + p.prefix;
    e := FindMax(p.sons[i - 1], finalKey + p.prefix + [DEOFFSET[p.ct][i - 1]], left - |p.prefix| - 1);
  }

  /** The climb: up from a path whose way down has failed. */
  method ClimbLoop<D>(ghost root: Trie<D>, path: seq<Frame<D>>, ghost key: Key, ghost at0: nat, ghost p0: Trie<D>,
                      finalKey0: Key, left0: nat) returns (r: Option<Entry<D>>)
    requires at0 <= |key| && OnPath(root, key, path, at0, p0)
    requires finalKey0 == key[..at0] && left0 == |key| - at0
    ensures r == Climb(root, path, key, at0, p0)
  {
    hide Has, Slot, Son, OFFSET, Agrees, Smaller;
    var finalKey, left := finalKey0, left0;
    ghost var at: nat, p := at0, p0;
    var level: nat := |path|;
    assert path[..level] == path;
    while level > 0
      invariant level <= |path| && at <= |key| && OnPath(root, key, path[..level], at, p)
      invariant finalKey == key[..at] && left == |key| - at
      invariant Climb(root, path[..level], key, at, p) == Climb(root, path, key, at0, p0)
    {
      level := level - 1;
      assert path[..level + 1][..level] == path[..level];
      var f := path[level];
      assert path[..level + 1][level] == f;
      SlotBefore(f.node.ct, f.ix);
      SmallerNone(f.node, key, at - 1 - |f.node.prefix|);
      finalKey := finalKey[..|finalKey| - 1 - |f.node.prefix|];
      left := left + 1 + |f.node.prefix|;
      at, p := at - 1 - |f.node.prefix|, f.node;
      if f.slot - 1 >= 1 {
        var e := TakeSmaller(f.node, key, at, finalKey, f.slot - 1, left);
        return Some(e);
      }
    }
    assert path[..0] == [];
    return None;
  }

  lemma SmallerNone<D>(t: Trie<D>, key: Key, at: nat)
    requires at < |key| && WellFormed(t, |key| - at)
    ensures Smaller(t, key, at).None? <==> GREATEST_NON_NULL[t.ct][key[at + |t.prefix|]] == 0
  {
  }

  /** `triev2_find_at_most`. */
  method FindAtMost<D(==)>(root: Trie<D>, key: Key) returns (r: Option<Entry<D>>)
    requires Valid(root, |key|) && key != []
    ensures r == if root.Null? then None else AtMost(root, key, 0)
  {
    hide Has, Slot, Son, OFFSET, Agrees, OnPath, AtMost, Climb, Smaller, Parting;
    if root.Null? {
      return None;
    }
    var p, at: nat, finalKey: Key := root, 0, [];
    var path: seq<Frame<D>> := [];
    PathStart(root, key);
    while at < |key|
      invariant at <= |key| && WellFormed(p, |key| - at) && OnPath(root, key, path, at, p)
      invariant finalKey == key[..at]
    {
      AtMostByPath(root, path, key, at, p);
      AtMostCases(p, key, at);
      if !Agrees(p.prefix, key, at) {
        var j := Parting(p.prefix, key, at, 0);
        if p.prefix[j] < key[at + j] {
          var e := FindMax(p, finalKey, |key| - at);
          return Some(e);
        }
        r := ClimbLoop(root, path, key, at, p, finalKey, |key| - at);
        return;
      }
      var ix := key[at + |p.prefix|];
      SonValid(p, |key| - at, ix);
      if Slot(p.ct, ix) == 0 {
        var i := GREATEST_NON_NULL[p.ct][ix];
        SmallerNone(p, key, at);
        if i < 1 {
          r := ClimbLoop(root, path, key, at, p, finalKey, |key| - at);
        } else {
          var e := TakeSmaller(p, key, at, finalKey, i, |key| - at);
          r := Some(e);
        }
        return;
      }
      AgreesAsSlice(p.prefix, key, at);
      PathPushed(root, key, path, at, p);
      path := path + [Frame(p, ix, Slot(p.ct, ix))];
      finalKey := finalKey + p.prefix + [ix];
      at := at + |p.prefix| + 1;
      p := Son(p, ix);
    }
    AtMostByPath(root, path, key, at, p);
    AtMostAtEnd(p, key);
    assert key[..at] == key;
    return Some(Entry(finalKey, p.value));
  }

  lemma AgreesAsSlice(prefix: Key, key: Key, at: nat)
    requires at + |prefix| < |key| && Agrees(prefix, key, at)
    ensures key[..at + |prefix| + 1] == key[..at] + prefix + [key[at + |prefix|]]
  {
  }

  // ---------- a key that is not there ----------

  /** The key of the block of 16 that differs from `key` in its last two digits. */
  function Block(key: Key, a: Digit, b: Digit): (q: Key)
    requires |key| >= 2
    ensures |q| == |key|
  {
    key[..|key| - 2] + [a, b]
  }

  /** Adding to the number of a key whose last two digits are 0. */
  lemma {:induction false} BlockValue(key: Key, a: Digit, b: Digit, at: nat)
    requires |key| >= 2 && at <= |key| - 2 && key[|key| - 2] == key[|key| - 1] == 0
    ensures Value(Block(key, a, b), at) == Value(key, at) + 4 * a + b
    decreases |key| - at
  {
    var q := Block(key, a, b);
    if at == |key| - 2 {
      assert Power4(1) == 4 && Power4(0) == 1;
      assert Value(q, at + 1) == b && Value(key, at + 1) == 0;
    } else {
      BlockValue(key, a, b, at + 1);
      assert q[at] == key[at];
    }
  }

  /** All keys with the first `at` digits of `key` are looked for below `p`. */
  ghost predicate Leads<D>(root: Trie<D>, key: Key, p: Trie<D>, at: nat)
    requires at <= |key| && Valid(root, |key|) && Valid(p, |key| - at)
  {
    forall q: Key :: |q| == |key| && SameUpTo(q, key, at) ==> Lookup(root, q, 0) == Lookup(p, q, at)
  }

  predicate SameUpTo(q: Key, key: Key, at: nat)
    requires at <= |key| == |q|
  {
    forall i :: 0 <= i < at ==> q[i] == key[i]
  }

  /** A node that the way has passed, from place `at` to `next`. */
  ghost predicate Passed<D>(root: Trie<D>, key: Key, p: Trie<D>, at: nat, next: nat)
    requires Valid(root, |key|)
  {
    && at < |key| && WellFormed(p, |key| - at) && at + |p.prefix| + 1 == next
    && Leads(root, key, p, at) && Agrees(p.prefix, key, at)
  }

  lemma LeadsOn<D>(root: Trie<D>, key: Key, p: Trie<D>, at: nat)
    requires at < |key| && Valid(root, |key|) && WellFormed(p, |key| - at)
    requires Leads(root, key, p, at) && Agrees(p.prefix, key, at)
    ensures var next := at + |p.prefix|;
            && Valid(Son(p, key[next]), |key| - next - 1)
            && Leads(root, key, Son(p, key[next]), next + 1)
  {
    hide Lookup, Son, OFFSET;
    var next := at + |p.prefix|;
    SonValid(p, |key| - at, key[next]);
    forall q: Key | |q| == |key| && SameUpTo(q, key, next + 1)
      ensures Lookup(root, q, 0) == Lookup(Son(p, key[next]), q, next + 1)
    {
      LookupAt(p, q, at);
      assert SameUpTo(q, key, at) && Agrees(p.prefix, q, at);
    }
  }

  /** The last node of the way answers for the keys that differ in the last digit. */
  lemma LeafAnswers<D>(root: Trie<D>, key: Key, p: Trie<D>, at: nat, a: Digit, b: Digit)
    requires |key| >= 2 && Valid(root, |key|) && Passed(root, key, p, at, |key|)
    requires p.prefix == [] && at == |key| - 1 ==> a == key[|key| - 2]
    ensures Lookup(root, Block(key, a, b), 0).Some? <==> a == key[|key| - 2] && Has(p.ct, b)
  {
    hide Lookup, Son, OFFSET;
    var q := Block(key, a, b);
    var last := |key| - 1;
    assert SameUpTo(q, key, at);
    LookupAt(p, q, at);
    SonValid(p, |key| - at, b);
    LookupAtEnd(Son(p, b), q);
    if Agrees(p.prefix, q, at) && p.prefix != [] {
      assert p.prefix[|p.prefix| - 1] == q[last - 1] == key[last - 1];
    }
    if a == key[last - 1] {
      assert forall i :: at <= i < last ==> q[i] == key[i];
    }
  }

  predicate HasGrandson<D>(up: Trie<D>, a: Digit, b: Digit)
    requires Shaped(up)
  {
    var s := Son(up, a);
    s.Node? && s.ct < 15 && Has(s.ct, b)
  }

  /** A father two digits from the end answers through the son for the first of them. */
  lemma FatherAnswers<D>(root: Trie<D>, key: Key, up: Trie<D>, at: nat, a: Digit, b: Digit)
    requires |key| >= 2 && Valid(root, |key|) && Passed(root, key, up, at, |key| - 1)
    ensures Lookup(root, Block(key, a, b), 0).Some? <==> HasGrandson(up, a, b)
  {
    hide Lookup, Son, OFFSET;
    var q := Block(key, a, b);
    var n := |key|;
    assert SameUpTo(q, key, at);
    LookupAt(up, q, at);
    assert forall i :: at <= i < n - 2 ==> q[i] == key[i];
    assert q[n - 2] == a && q[n - 1] == b;
    SonValid(up, n - at, a);
    var s := Son(up, a);
    NullLookup<D>(q, n - 1);
    if !s.Null? {
      LookupAt(s, q, n - 1);
      SonValid(s, 1, b);
      LookupAtEnd(Son(s, b), q);
    }
  }

  /** The answer of the search: the first key of the block that is not there. */
  ghost predicate FirstAbsent<D>(root: Trie<D>, key: Key, r: Option<nat>)
    requires |key| >= 2 && Valid(root, |key|)
  {
    && (r.Some? ==> r.value < 16 && Lookup(root, Block(key, r.value / 4, r.value % 4), 0).None?)
    && forall a: Digit, b: Digit ::
         (r.None? || 4 * a + b < r.value) ==> Lookup(root, Block(key, a, b), 0).Some?
  }

  /** A node of the last level that has not all four sons has the first absent key of its four. */
  lemma FirstInFour<D>(root: Trie<D>, key: Key, a: Digit, ct: nat)
    requires |key| >= 2 && Valid(root, |key|) && 0 < ct < 15
    requires forall b: Digit :: Lookup(root, Block(key, a, b), 0).Some? <==> Has(ct, b)
    requires forall c: Digit, b: Digit :: c < a ==> Lookup(root, Block(key, c, b), 0).Some?
    ensures FIRST_NONEXISTENT_KEY[ct] < 4 && FirstAbsent(root, key, Some(4 * a + FIRST_NONEXISTENT_KEY[ct]))
  {
    hide Lookup, Has, OFFSET;
    var f := FIRST_NONEXISTENT_KEY[ct];
    FirstNonexistentIsFirst(ct, 0);
    forall c: Digit, b: Digit | 4 * c + b < 4 * a + f ensures Lookup(root, Block(key, c, b), 0).Some? {
      FirstNonexistentIsFirst(ct, b);
    }
  }

  lemma AllOfFour(b: Digit)
    ensures Has(0, b)
  {
  }

  /** All keys of the block whose last digit but one is below `a` are there. */
  ghost predicate PresentBelow<D>(root: Trie<D>, key: Key, a: nat)
    requires |key| >= 2 && Valid(root, |key|)
  {
    forall c: Digit, b: Digit :: c < a ==> Lookup(root, Block(key, c, b), 0).Some?
  }

  /** One of the four tests at the last node but one: has the son for digit `a` all four keys? */
  method TryFour<D(==)>(ghost root: Trie<D>, ghost key: Key, up: Trie<D>, ghost upAt: nat, a: Digit) returns (r: Option<nat>)
    requires |key| >= 2 && Valid(root, |key|) && Passed(root, key, up, upAt, |key| - 1) && PresentBelow(root, key, a)
    ensures r.Some? ==> FirstAbsent(root, key, r)
    ensures r.None? ==> PresentBelow(root, key, a + 1)
  {
    hide Lookup, Son, OFFSET, Has, Agrees, Leads;
    forall b: Digit ensures Lookup(root, Block(key, a, b), 0).Some? <==> HasGrandson(up, a, b) {
      FatherAnswers(root, key, up, upAt, a, b);
    }
    SonValid(up, |key| - upAt, a);
    if Slot(up.ct, a) == 0 {
      assert Lookup(root, Block(key, a, 0), 0).None?;
      assert (4 * a) / 4 == a && (4 * a) % 4 == 0;
      return Some(4 * a);
    }
    var p := Son(up, a);
    if p.ct != 0 {
      FirstInFour(root, key, a, p.ct);
      return Some(4 * a + FIRST_NONEXISTENT_KEY[p.ct]);
    }
    forall b: Digit ensures Has(0, b) {
      AllOfFour(b);
    }
    return None;
  }

  lemma LeadsFromRoot<D>(root: Trie<D>, key: Key)
    requires Valid(root, |key|)
    ensures Leads(root, key, root, 0)
  {
  }

  /** The key itself is not there. */
  lemma AbsentHere<D>(root: Trie<D>, key: Key, p: Trie<D>, at: nat)
    requires |key| >= 2 && key[|key| - 2] == key[|key| - 1] == 0 && at <= |key| && Valid(root, |key|) && Valid(p, |key| - at)
    requires Leads(root, key, p, at) && Lookup(p, key, at).None?
    ensures FirstAbsent(root, key, Some(0))
  {
    hide Lookup, WellFormed;
    assert Block(key, 0, 0) == key;
    assert SameUpTo(key, key, at);
  }

  /** What the node where the key ends says about the first four keys of the block. */
  lemma FirstFour<D>(root: Trie<D>, key: Key, p: Trie<D>, at: nat)
    requires |key| >= 2 && key[|key| - 2] == 0 && Valid(root, |key|) && Passed(root, key, p, at, |key|)
    ensures p.ct != 0 ==>
              FIRST_NONEXISTENT_KEY[p.ct] < 4 && FirstAbsent(root, key, Some(FIRST_NONEXISTENT_KEY[p.ct]))
    ensures p.ct == 0 ==> PresentBelow(root, key, 1) && (p.prefix != [] ==> FirstAbsent(root, key, Some(4)))
  {
    hide Lookup, Son, OFFSET, Has, Agrees, Leads;
    forall b: Digit ensures Lookup(root, Block(key, 0, b), 0).Some? <==> Has(p.ct, b) {
      LeafAnswers(root, key, p, at, 0, b);
    }
    if p.ct != 0 {
      FirstInFour(root, key, 0, p.ct);
    } else {
      forall b: Digit ensures Has(0, b) {
        AllOfFour(b);
      }
      if p.prefix != [] {
        LeafAnswers(root, key, p, at, 1, 0);
      }
    }
  }

  /** What is to be added to the key, or nothing when all sixteen keys are there. */
  method FirstAbsentOfBlock<D(==)>(root: Trie<D>, key: Key) returns (r: Option<nat>)
    requires Valid(root, |key|) && IsBlock(key)
    ensures FirstAbsent(root, key, r)
  {
    hide Lookup, Son, OFFSET, Has, Slot, Agrees, Leads, FirstAbsent, PresentBelow;
    ghost var n := |key|;
    var uup: Trie<D>, up: Trie<D>, p, at: nat := Null, Null, root, 0;
    ghost var upAt: nat, uupAt: nat := 0, 0;
    LeadsFromRoot(root, key);
    while at < |key|
      invariant at <= n && Valid(p, n - at) && Leads(root, key, p, at)
      invariant at == n ==> p.Data?
      invariant at > 0 ==> Passed(root, key, up, upAt, at)
      invariant upAt > 0 && at > 0 ==> Passed(root, key, uup, uupAt, upAt)
    {
      if p.Null? {
        NullLookup<D>(key, at);
        AbsentHere(root, key, p, at);
        return Some(0);
      }
      LookupAt(p, key, at);
      if !Agrees(p.prefix, key, at) {
        AbsentHere(root, key, p, at);
        return Some(0);
      }
      var ix := key[at + |p.prefix|];
      SonValid(p, n - at, ix);
      if Slot(p.ct, ix) == 0 {
        NullLookup<D>(key, at + |p.prefix| + 1);
        AbsentHere(root, key, p, at);
        return Some(0);
      }
      LeadsOn(root, key, p, at);
      uup, uupAt := up, upAt;
      up, upAt := p, at;
      at := at + |p.prefix| + 1;
      p := Son(p, ix);
    }
    p := up;
    FirstFour(root, key, p, upAt);
    if p.ct != 0 {
      return Some(FIRST_NONEXISTENT_KEY[p.ct]);
    }
    if p.prefix != [] {
      return Some(4);
    }
    up := uup;
    r := TryFour(root, key, up, uupAt, 1);
    if r.None? {
      r := TryFour(root, key, up, uupAt, 2);
      if r.None? {
        r := TryFour(root, key, up, uupAt, 3);
        if r.None? {
          AllSixteen(root, key);
        }
      }
    }
  }

  lemma AllSixteen<D>(root: Trie<D>, key: Key)
    requires |key| >= 2 && Valid(root, |key|) && PresentBelow(root, key, 4)
    ensures FirstAbsent(root, key, None)
  {
  }

  // ---------- the number answered ----------

  const ALL_ONES: nat := 0xFFFF_FFFF

  /** A key that 16 divides. */
  predicate IsBlock(key: Key) {
    |key| >= 2 && key[|key| - 2] == key[|key| - 1] == 0
  }

  function Number(key: Key, r: Option<nat>): nat {
    if r.Some? then Value(key, 0) + r.value else ALL_ONES
  }

  /** The keys of the block with the first `n` offsets are there. */
  ghost predicate FirstPresent<D>(root: Trie<D>, key: Key, n: nat)
    requires |key| >= 2 && Valid(root, |key|)
  {
    forall a: Digit, b: Digit :: 4 * a + b < n ==> Lookup(root, Block(key, a, b), 0).Some?
  }

  /** The one block of 32-bit keys whose last key is the number of all ones, with only that key absent. */
  ghost predicate OnlyAllOnesAbsent<D>(root: Trie<D>, key: Key)
    requires |key| >= 2 && Valid(root, |key|)
  {
    |key| == 16 && Value(key, 0) == ALL_ONES - 15 && FirstPresent(root, key, 15) && Lookup(root, Block(key, 3, 3), 0).None?
  }

  lemma Power4Values()
    ensures Power4(16) == ALL_ONES + 1 && Power4(15) < ALL_ONES
  {
    assert Power4(4) == 256 && Power4(8) == 0x1_0000 && Power4(12) == 0x100_0000;
  }

  lemma {:induction false} PowerGrows(m: nat, n: nat)
    requires m <= n
    ensures Power4(m) <= Power4(n)
  {
    if m < n {
      PowerGrows(m, n - 1);
    }
  }

  /** The first absent key stands for its own number, which is all ones for one block only. */
  lemma NumberIs<D>(root: Trie<D>, key: Key, r: Option<nat>)
    requires Valid(root, |key|) && IsBlock(key) && |key| <= 16 && FirstAbsent(root, key, r)
    ensures r.Some? ==> r.value < 16 && Number(key, r) == Value(Block(key, r.value / 4, r.value % 4), 0) <= ALL_ONES
    ensures Number(key, r) == ALL_ONES <==> FirstPresent(root, key, 16) || OnlyAllOnesAbsent(root, key)
  {
    hide Lookup, Value, Power4, Valid;
    Power4Values();
    if r.Some? {
      var a: Digit, b: Digit := r.value / 4, r.value % 4;
      BlockValue(key, a, b, 0);
      ValueBound(Block(key, a, b), 0);
      if |key| < 16 {
        PowerGrows(|key|, 15);
      } else {
        BlockValue(key, 3, 3, 0);
        ValueBound(Block(key, 3, 3), 0);
      }
      assert !FirstPresent(root, key, 16);
    }
  }

  /** `triev2_find_nonexistent_key`, for a key that 16 divides: the number of the first absent key of its
      block, or all ones. */
  method FindNonexistentKey<D(==)>(root: Trie<D>, key: Key) returns (number: nat, ghost r: Option<nat>)
    requires Valid(root, |key|) && IsBlock(key) && |key| <= 16
    ensures FirstAbsent(root, key, r)
    ensures number == if r.None? then ALL_ONES else Value(Block(key, r.value / 4, r.value % 4), 0)
    ensures number == ALL_ONES <==> FirstPresent(root, key, 16) || OnlyAllOnesAbsent(root, key)
  {
    var offset := FirstAbsentOfBlock(root, key);
    NumberIs(root, key, offset);
    r := offset;
    number := Number(key, offset);
  }

  /** A trie with just the first `n` keys of a block. */
  function PartOfBlock(key: Key, n: nat): Trie<int>
    requires |key| >= 2 && n <= 16
    ensures Valid(PartOfBlock(key, n), |key|)
  {
    if n == 0 then Null
    else
      var t, q := PartOfBlock(key, n - 1), Block(key, (n - 1) / 4, (n - 1) % 4);
      InsertedValid(t, q, 0, 0);
      Inserted(t, q, 0, 0)
  }

  lemma {:induction false} PartOfBlockIs(key: Key, n: nat, a: Digit, b: Digit)
    requires |key| >= 2 && n <= 16
    ensures Lookup(PartOfBlock(key, n), Block(key, a, b), 0).Some? <==> 4 * a + b < n
  {
    hide Lookup, Inserted;
    if n == 0 {
      NullLookup<int>(Block(key, a, b), 0);
    } else {
      var c: Digit, d: Digit := (n - 1) / 4, (n - 1) % 4;
      var p, q := Block(key, c, d), Block(key, a, b);
      PartOfBlockIs(key, n - 1, a, b);
      InsertedLookup(PartOfBlock(key, n - 1), p, 0, 0, q);
      SameFromStart(q, p);
      assert p[|key| - 2] == c && p[|key| - 1] == d && q[|key| - 2] == a && q[|key| - 1] == b;
    }
  }

  /** With the keys from 0xFFFFFFF0 to 0xFFFFFFFE there, the last one is absent, and the answer is all ones. */
  lemma AllOnesAbsentExample(key: Key)
    requires |key| == 16 && (forall i | 0 <= i < 14 :: key[i] == 3) && IsBlock(key)
    ensures var t := PartOfBlock(key, 15); OnlyAllOnesAbsent(t, key) && !FirstPresent(t, key, 16)
  {
    hide Lookup, PartOfBlock, Value, Power4, Valid;
    ThreesUpTo(key, 0);
    Power4Values();
    PartOfBlockHasFirst(key, 15);
    PartOfBlockIs(key, 15, 3, 3);
  }

  lemma PartOfBlockHasFirst(key: Key, n: nat)
    requires |key| >= 2 && n <= 16
    ensures FirstPresent(PartOfBlock(key, n), key, n)
  {
    hide Lookup, PartOfBlock, Valid;
    forall a: Digit, b: Digit | 4 * a + b < n ensures Lookup(PartOfBlock(key, n), Block(key, a, b), 0).Some? {
      PartOfBlockIs(key, n, a, b);
    }
  }

  lemma {:induction false} ThreesUpTo(key: Key, at: nat)
    requires |key| == 16 && (forall i | 0 <= i < 14 :: key[i] == 3) && IsBlock(key) && at <= 14
    ensures Value(key, at) == Power4(16 - at) - 16
    decreases 14 - at
  {
    if at < 14 {
      ThreesUpTo(key, at + 1);
    } else {
      assert Value(key, 15) == 0 && Power4(2) == 16;
    }
  }
}
