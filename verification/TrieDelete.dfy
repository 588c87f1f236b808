/** `triev2_delete`: removal with shrinking of nodes, merging of prefixes and removal of chains. */
module TrieDelete {

  import opened Wrappers
  import opened TrieKeys
  import opened TrieTables
  import opened Trie
  import opened TrieInsert

  // ---------- one level ----------

  /** A copy with the son for `b`, which is there, replaced. */
  function Replaced<D>(t: Trie<D>, b: Digit, x: Trie<D>): Trie<D>
    requires Shaped(t) && Has(t.ct, b)
  {
    OffsetInCell(t.ct, b);
    Node(t.prefix, t.ct, t.sons[OFFSET[t.ct][b] - 1 := x])
  }

  /** The sons without the one in slot `i` (counted from 1). */
  function Dropped<D>(sons: seq<Trie<D>>, i: nat): seq<Trie<D>>
    requires 1 <= i <= |sons|
  {
    sons[..i - 1] + sons[i..]
  }

  /** A copy without the son for `b`. */
  function Shrunk<D>(t: Trie<D>, b: Digit): Trie<D>
    requires Shaped(t) && Has(t.ct, b) && CELL_SIZE[t.ct] > 2
  {
    OffsetInCell(t.ct, b);
    Node(t.prefix, CELL_TYPE_WITHOUT[t.ct][b], Dropped(t.sons, OFFSET[t.ct][b]))
  }

  /** The digit of the other son of a node with two. */
  function OtherDigit(ct: nat, b: Digit): (c: Digit)
    requires ct < 15 && CELL_SIZE[ct] == 3 && Has(ct, b)
    ensures c != b && Has(ct, c) && OFFSET[ct][c] == 3 - OFFSET[ct][b]
  {
    OtherSlot(ct, b);
    DEOFFSET[ct][2 - OFFSET[ct][b]]
  }

  /** A node with two sons that loses the one for `b`: the other one, `q`, takes its place with the
      prefixes and the digit between joined, if that is no more than ten digits and `q` is a node. */
  function Merged<D>(t: Trie<D>, b: Digit): Trie<D>
    requires Shaped(t) && Has(t.ct, b) && CELL_SIZE[t.ct] == 3
  {
    var c := OtherDigit(t.ct, b);
    var q := Son(t, c);
    if q.Node? && |t.prefix| + |q.prefix| + 1 <= MAX_PREFIX
    then Node(t.prefix + [c] + q.prefix, q.ct, q.sons)
    else Shrunk(t, b)
  }

  /** What becomes of a node when its son for `b` becomes `x`. */
  function After<D>(t: Trie<D>, b: Digit, x: Trie<D>): Trie<D>
    requires Shaped(t) && Has(t.ct, b)
  {
    if !x.Null? then Replaced(t, b, x)
    else if CELL_SIZE[t.ct] == 2 then Null
    else if CELL_SIZE[t.ct] == 3 then Merged(t, b)
    else Shrunk(t, b)
  }

  lemma ReplacedSon<D>(t: Trie<D>, b: Digit, x: Trie<D>, c: Digit)
    requires Shaped(t) && Has(t.ct, b)
    ensures Shaped(Replaced(t, b, x)) && Son(Replaced(t, b, x), c) == if c == b then x else Son(t, c)
  {
    OffsetInCell(t.ct, b);
    OffsetInCell(t.ct, c);
    if Has(t.ct, c) && c != b && OFFSET[t.ct][c] == OFFSET[t.ct][b] {
      OffsetsDiffer(t.ct, b, c);
    }
  }

  lemma ShrunkSon<D>(t: Trie<D>, b: Digit, c: Digit)
    requires Shaped(t) && Has(t.ct, b) && CELL_SIZE[t.ct] > 2
    ensures Shaped(Shrunk(t, b)) && Son(Shrunk(t, b), c) == if c == b then Null else Son(t, c)
  {
    WithoutSize(t.ct, b);
    OffsetInCell(t.ct, b);
    WithoutMoves(t.ct, b, c);
    OffsetInCell(t.ct, c);
    if OFFSET[t.ct][c] == OFFSET[t.ct][b] {
      OffsetsDiffer(t.ct, b, c);
    }
  }

  /** What becomes of a node that loses the son for `b`, written out: an only son takes the node with it; of two
      sons the other one is joined with the node if it is a node itself and the prefixes have no more than 18
      bits together, and is the only son left otherwise; of more sons the others stay. */
  lemma AfterLoss<D>(t: Trie<D>, n: nat, b: Digit, c: Digit)
    requires WellFormed(t, n) && n > 0 && Has(t.ct, b) && c != b && (|t.sons| == 1 || Has(t.ct, c))
    ensures var u := After(t, b, Null);
            && (u.Null? <==> |t.sons| == 1)
            && (|t.sons| == 2 && Son(t, c).Node? && 2 * |t.prefix| + 2 * |Son(t, c).prefix| <= 18 ==>
                  u == Node(t.prefix + [c] + Son(t, c).prefix, Son(t, c).ct, Son(t, c).sons))
            && (|t.sons| > 1 && !(|t.sons| == 2 && Son(t, c).Node? && 2 * |t.prefix| + 2 * |Son(t, c).prefix| <= 18) ==>
                  && u.Node? && u.prefix == t.prefix && |u.sons| == |t.sons| - 1 && Shaped(u)
                  && Son(u, b).Null? && Son(u, c) == Son(t, c))
  {
    hide Son, OFFSET, Has;
    SonValid(t, n, c);
    if |t.sons| == 2 {
      OnlyOtherDigit(t.ct, b, c);
    }
    if |t.sons| > 1 {
      ShrunkSon(t, b, b);
      ShrunkSon(t, b, c);
      WithoutSize(t.ct, b);
    }
  }

  lemma OnlyOtherDigit(ct: nat, b: Digit, c: Digit)
    requires ct < 15 && CELL_SIZE[ct] == 3 && Has(ct, b) && Has(ct, c) && c != b
    ensures OtherDigit(ct, b) == c
  {
  }

  lemma ReplacedValid<D>(t: Trie<D>, n: nat, b: Digit, x: Trie<D>)
    requires WellFormed(t, n) && n > 0 && Has(t.ct, b) && WellFormed(x, n - |t.prefix| - 1)
    ensures WellFormed(Replaced(t, b, x), n)
  {
  }

  lemma ShrunkValid<D>(t: Trie<D>, n: nat, b: Digit)
    requires WellFormed(t, n) && n > 0 && Has(t.ct, b) && CELL_SIZE[t.ct] > 2
    ensures WellFormed(Shrunk(t, b), n)
  {
    ShrunkSon(t, b, b);
    var u := Shrunk(t, b);
    forall i | 0 <= i < |u.sons| ensures WellFormed(u.sons[i], n - |t.prefix| - 1) {
      assert u.sons[i] in t.sons;
    }
  }

  lemma MergedValid<D>(t: Trie<D>, n: nat, b: Digit)
    requires WellFormed(t, n) && n > 0 && Has(t.ct, b) && CELL_SIZE[t.ct] == 3
    ensures WellFormed(Merged(t, b), n)
  {
    var c := OtherDigit(t.ct, b);
    SonValid(t, n, c);
    var q := Son(t, c);
    if q.Node? && |t.prefix| + |q.prefix| + 1 <= MAX_PREFIX {
      JoinedValid(t.prefix + [c], q, n);
    } else {
      ShrunkValid(t, n, b);
    }
  }

  /** A longer prefix in front of a node. */
  lemma JoinedValid<D>(front: Key, q: Trie<D>, n: nat)
    requires |front| < n && WellFormed(q, n - |front|) && |front| + |q.prefix| <= MAX_PREFIX
    ensures WellFormed(Node(front + q.prefix, q.ct, q.sons), n)
  {
    var u := Node(front + q.prefix, q.ct, q.sons);
    assert Shaped(u);
    forall i | 0 <= i < |u.sons| ensures WellFormed(u.sons[i], n - |u.prefix| - 1) {
    }
  }

  lemma AfterValid<D>(t: Trie<D>, n: nat, b: Digit, x: Trie<D>)
    requires WellFormed(t, n) && n > 0 && Has(t.ct, b) && Valid(x, n - |t.prefix| - 1)
    ensures Valid(After(t, b, x), n)
  {
    OffsetInCell(t.ct, b);
    if !x.Null? {
      ReplacedValid(t, n, b, x);
    } else if CELL_SIZE[t.ct] == 3 {
      MergedValid(t, n, b);
    } else if CELL_SIZE[t.ct] > 3 {
      ShrunkValid(t, n, b);
    }
  }

  /** What becomes of the answers when the son of `t` for `b` becomes `x`. */
  ghost function LookupAfter<D>(t: Trie<D>, b: Digit, x: Trie<D>, q: Key, at: nat): Option<D>
    requires at < |q| && WellFormed(t, |q| - at) && Valid(x, |q| - at - |t.prefix| - 1)
  {
    var next := at + |t.prefix|;
    if Agrees(t.prefix, q, at) && q[next] == b then Lookup(x, q, next + 1) else Lookup(t, q, at)
  }

  lemma AnswersBySons<D>(t: Trie<D>, u: Trie<D>, b: Digit, x: Trie<D>, q: Key, at: nat)
    requires at < |q| && WellFormed(t, |q| - at) && WellFormed(u, |q| - at) && u.prefix == t.prefix
    requires Valid(x, |q| - at - |t.prefix| - 1)
    requires var d := q[at + |t.prefix|]; Son(u, d) == if d == b then x else Son(t, d)
    ensures Lookup(u, q, at) == LookupAfter(t, b, x, q, at)
  {
    hide Lookup, Son;
    LookupAt(u, q, at);
    LookupAt(t, q, at);
  }

  lemma AgreesJoined(front: Key, c: Digit, back: Key, q: Key, at: nat)
    requires at + |front| + 1 + |back| <= |q|
    ensures Agrees(front + [c] + back, q, at) <==>
              Agrees(front, q, at) && q[at + |front|] == c && Agrees(back, q, at + |front| + 1)
  {
    var prefix := front + [c] + back;
    AgreesInParts(prefix, q, at, |front|);
    assert prefix[..|front|] == front && prefix[|front|] == c && prefix[|front| + 1..] == back;
  }

  /** The son that takes its father's place answers for the keys that came to it. */
  lemma JoinedSonLookup<D>(t: Trie<D>, b: Digit, c: Digit, s: Trie<D>, u: Trie<D>, q: Key, at: nat)
    requires at < |q| && WellFormed(t, |q| - at) && CELL_SIZE[t.ct] == 3
    requires Has(t.ct, b) && Has(t.ct, c) && b != c && s == Son(t, c) && s.Node?
    requires WellFormed(u, |q| - at) && u == Node(t.prefix + [c] + s.prefix, s.ct, s.sons)
    ensures Lookup(u, q, at) == LookupAfter(t, b, Null, q, at)
  {
    hide Lookup, Son, OFFSET, CELL_SIZE;
    var next := at + |t.prefix|;
    SonValid(t, |q| - at, c);
    SonValid(t, |q| - at, q[next]);
    AgreesJoined(t.prefix, c, s.prefix, q, at);
    LookupAt(t, q, at);
    LookupAt(u, q, at);
    LookupAt(s, q, next + 1);
    SonsOfSame(s, u, q[at + |u.prefix|]);
    OnlyTwo(t.ct, b, c, q[next]);
    NullLookup<D>(q, next + 1);
  }

  lemma SonsOfSame<D>(s: Trie<D>, u: Trie<D>, d: Digit)
    requires Shaped(s) && Shaped(u) && s.ct == u.ct && s.sons == u.sons
    ensures Son(s, d) == Son(u, d)
  {
  }

  lemma MergedLookup<D>(t: Trie<D>, b: Digit, q: Key, at: nat)
    requires at < |q| && WellFormed(t, |q| - at) && Has(t.ct, b) && CELL_SIZE[t.ct] == 3
    requires WellFormed(Merged(t, b), |q| - at)
    ensures Lookup(Merged(t, b), q, at) == LookupAfter(t, b, Null, q, at)
  {
    hide Lookup, Son, OFFSET, CELL_SIZE, LookupAfter, Shrunk;
    var c := OtherDigit(t.ct, b);
    var s := Son(t, c);
    if s.Node? && |t.prefix| + |s.prefix| + 1 <= MAX_PREFIX {
      JoinedSonLookup(t, b, c, s, Merged(t, b), q, at);
    } else {
      ShrunkLookup(t, b, q, at);
    }
  }

  lemma ShrunkLookup<D>(t: Trie<D>, b: Digit, q: Key, at: nat)
    requires at < |q| && WellFormed(t, |q| - at) && Has(t.ct, b) && CELL_SIZE[t.ct] > 2
    requires WellFormed(Shrunk(t, b), |q| - at)
    ensures Lookup(Shrunk(t, b), q, at) == LookupAfter(t, b, Null, q, at)
  {
    ShrunkSon(t, b, q[at + |t.prefix|]);
    AnswersBySons(t, Shrunk(t, b), b, Null, q, at);
  }

  lemma ReplacedLookup<D>(t: Trie<D>, b: Digit, x: Trie<D>, q: Key, at: nat)
    requires at < |q| && WellFormed(t, |q| - at) && Has(t.ct, b) && Valid(x, |q| - at - |t.prefix| - 1)
    requires WellFormed(Replaced(t, b, x), |q| - at)
    ensures Lookup(Replaced(t, b, x), q, at) == LookupAfter(t, b, x, q, at)
  {
    ReplacedSon(t, b, x, q[at + |t.prefix|]);
    AnswersBySons(t, Replaced(t, b, x), b, x, q, at);
  }

  lemma EmptiedLookup<D>(t: Trie<D>, b: Digit, q: Key, at: nat)
    requires at < |q| && WellFormed(t, |q| - at) && Has(t.ct, b) && CELL_SIZE[t.ct] == 2
    ensures LookupAfter(t, b, Null, q, at) == None
  {
    hide Lookup, Son, OFFSET, CELL_SIZE;
    var next := at + |t.prefix|;
    LookupAt(t, q, at);
    SonValid(t, |q| - at, q[next]);
    OnlyOne(t.ct, b, q[next]);
    NullLookup<D>(q, next + 1);
  }

  lemma AfterLookup<D>(t: Trie<D>, b: Digit, x: Trie<D>, q: Key, at: nat)
    requires at < |q| && WellFormed(t, |q| - at) && Has(t.ct, b) && Valid(x, |q| - at - |t.prefix| - 1)
    requires Valid(After(t, b, x), |q| - at)
    ensures Lookup(After(t, b, x), q, at) == LookupAfter(t, b, x, q, at)
  {
    hide Lookup, OFFSET, LookupAfter;
    OffsetInCell(t.ct, b);

    if !x.Null? {
      ReplacedLookup(t, b, x, q, at);
    } else if CELL_SIZE[t.ct] == 2 {
      EmptiedLookup(t, b, q, at);
      NullLookup<D>(q, at);
    } else if CELL_SIZE[t.ct] == 3 {
      MergedLookup(t, b, q, at);
    } else {
      ShrunkLookup(t, b, q, at);
    }
  }

  // ---------- the whole path ----------

  /** The data word at `key`, which is in the trie, changed, or taken away with all that then is empty. */
  function Changed<D>(t: Trie<D>, key: Key, at: nat, d: Option<D>): (u: Trie<D>)
    requires at <= |key| && Valid(t, |key| - at) && Lookup(t, key, at).Some?
    ensures Valid(u, |key| - at)
    decreases |key| - at
  {
    if at == |key| then match d case None => Null case Some(v) => Data(v)
    else
      var next := at + |t.prefix|;
      SonValid(t, |key| - at, key[next]);
      var x := Changed(Son(t, key[next]), key, next + 1, d);
      AfterValid(t, |key| - at, key[next], x);
      After(t, key[next], x)
  }

  lemma ChangedCase<D>(t: Trie<D>, key: Key, at: nat, d: Option<D>)
    requires at < |key| && Valid(t, |key| - at) && Lookup(t, key, at).Some?
    ensures var next := at + |t.prefix|;
            && t.Node? && Agrees(t.prefix, key, at) && Has(t.ct, key[next])
            && Valid(Son(t, key[next]), |key| - next - 1) && Lookup(Son(t, key[next]), key, next + 1).Some?
            && Changed(t, key, at, d) == After(t, key[next], Changed(Son(t, key[next]), key, next + 1, d))
  {
    hide After, OFFSET;
    SonValid(t, |key| - at, key[at + |t.prefix|]);
  }

  lemma ChangedAtEnd<D>(t: Trie<D>, key: Key, d: Option<D>)
    requires Valid(t, 0) && Lookup(t, key, |key|).Some?
    ensures Changed(t, key, |key|, d) == match d case None => Null case Some(v) => Data(v)
  {
  }

  lemma {:induction false} ChangedLookup<D>(t: Trie<D>, key: Key, at: nat, d: Option<D>, q: Key)
    requires at <= |key| == |q| && Valid(t, |key| - at) && Lookup(t, key, at).Some?
    ensures Lookup(Changed(t, key, at, d), q, at) == if SameFrom(q, key, at) then d else Lookup(t, q, at)
    decreases |key| - at
  {
    hide Lookup, Changed, After, Son, OFFSET, Agrees, SameFrom;
    if at == |key| {
      ChangedAtEnd(t, key, d);
      LookupAtEnd(t, q);
      LookupAtEnd(Changed(t, key, at, d), q);
      SameAtEnd(q, key);
      return;
    }
    ChangedCase(t, key, at, d);
    var next := at + |t.prefix|;
    var x := Changed(Son(t, key[next]), key, next + 1, d);
    ChangedLookup(Son(t, key[next]), key, next + 1, d, q);
    AfterLookup(t, key[next], x, q, at);
    LookupAt(t, q, at);
    SameFromBehind(q, key, t.prefix, at);
  }

  lemma SameAtEnd(q: Key, key: Key)
    requires |q| == |key|
    ensures SameFrom(q, key, |key|)
  {
  }

  /** `triev2_delete` with the function that changes the data word or takes it away. */
  function Delete<D(==)>(root: Trie<D>, key: Key, change: D -> Option<D>): Trie<D>
    requires Valid(root, |key|)
  {
    match Lookup(root, key, 0)
    case None => root
    case Some(o) => if change(o) == Some(o) then root else Changed(root, key, 0, change(o))
  }

  lemma DeleteIsUpdate<D>(root: Trie<D>, key: Key, change: D -> Option<D>, q: Key)
    requires Valid(root, |key|) && |q| == |key|
    ensures Valid(Delete(root, key, change), |key|)
    ensures Lookup(Delete(root, key, change), q, 0) ==
              if q != key || Lookup(root, q, 0).None? then Lookup(root, q, 0) else change(Lookup(root, q, 0).value)
  {
    hide Lookup, Changed, WellFormed;
    if Lookup(root, key, 0).Some? {
      ChangedLookup(root, key, 0, change(Lookup(root, key, 0).value), q);
    }
    SameFromStart(q, key);
  }
}
