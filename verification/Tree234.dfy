/** The 2-3-4 trees of ist234.c: nodes, the search, and what a tree must keep.  Slots have
    the source's numbers: kids in 1, 4, 7, 10; keys in 2, 5, 8, each with its datum next. */
module Tree234 {

  import opened Wrappers

  datatype Node<D> =
    | Null
    | Two(c1: Node<D>, k1: int, d1: D, c2: Node<D>)
    | Three(c1: Node<D>, k1: int, d1: D, c2: Node<D>, k2: int, d2: D, c3: Node<D>)
    | Four(c1: Node<D>, k1: int, d1: D, c2: Node<D>, k2: int, d2: D, c3: Node<D>, k3: int, d3: D, c4: Node<D>)

  /** `NODE_TYPE`: the number of kids. */
  function NodeType<D>(p: Node<D>): nat {
    match p
    case Null => 0
    case Two(_, _, _, _) => 2
    case Three(_, _, _, _, _, _, _) => 3
    case Four(_, _, _, _, _, _, _, _, _, _) => 4
  }

  predicate IsKid<D>(p: Node<D>, ix: nat) {
    p != Null && ix in {1, 4, 7, 10} && ix <= 3 * NodeType(p) - 2
  }

  predicate IsEntry<D>(p: Node<D>, i: nat) {
    p != Null && i in {2, 5, 8} && i <= 3 * NodeType(p) - 4
  }

  function Kid<D>(p: Node<D>, ix: nat): Node<D>
    requires IsKid(p, ix)
  {
    if ix == 1 then p.c1 else if ix == 4 then p.c2 else if ix == 7 then p.c3 else p.c4
  }

  function Key<D>(p: Node<D>, i: nat): int
    requires IsEntry(p, i)
  {
    if i == 2 then p.k1 else if i == 5 then p.k2 else p.k3
  }

  function Datum<D>(p: Node<D>, i: nat): D
    requires IsEntry(p, i)
  {
    if i == 2 then p.d1 else if i == 5 then p.d2 else p.d3
  }

  function SetKid<D>(p: Node<D>, ix: nat, t: Node<D>): (r: Node<D>)
    requires IsKid(p, ix)
    ensures NodeType(r) == NodeType(p)
  {
    match p
    case Two(c1, k1, d1, c2) =>
      if ix == 1 then Two(t, k1, d1, c2) else Two(c1, k1, d1, t)
    case Three(c1, k1, d1, c2, k2, d2, c3) =>
      if ix == 1 then Three(t, k1, d1, c2, k2, d2, c3)
      else if ix == 4 then Three(c1, k1, d1, t, k2, d2, c3)
      else Three(c1, k1, d1, c2, k2, d2, t)
    case Four(c1, k1, d1, c2, k2, d2, c3, k3, d3, c4) =>
      if ix == 1 then Four(t, k1, d1, c2, k2, d2, c3, k3, d3, c4)
      else if ix == 4 then Four(c1, k1, d1, t, k2, d2, c3, k3, d3, c4)
      else if ix == 7 then Four(c1, k1, d1, c2, k2, d2, t, k3, d3, c4)
      else Four(c1, k1, d1, c2, k2, d2, c3, k3, d3, t)
  }

  function SetEntry<D>(p: Node<D>, i: nat, k: int, d: D): (r: Node<D>)
    requires IsEntry(p, i)
    ensures NodeType(r) == NodeType(p)
  {
    match p
    case Two(c1, _, _, c2) => Two(c1, k, d, c2)
    case Three(c1, k1, d1, c2, k2, d2, c3) =>
      if i == 2 then Three(c1, k, d, c2, k2, d2, c3) else Three(c1, k1, d1, c2, k, d, c3)
    case Four(c1, k1, d1, c2, k2, d2, c3, k3, d3, c4) =>
      if i == 2 then Four(c1, k, d, c2, k2, d2, c3, k3, d3, c4)
      else if i == 5 then Four(c1, k1, d1, c2, k, d, c3, k3, d3, c4)
      else Four(c1, k1, d1, c2, k2, d2, c3, k, d, c4)
  }

  // ---------- searching one node ----------

  /** Where the comparisons of one node lead: to an entry, or to a kid. */
  datatype Place = AtEntry(i: nat) | InKid(ix: nat)

  function Compare<D>(p: Node<D>, key: int): (r: Place)
    requires p != Null
    ensures r.AtEntry? ==> IsEntry(p, r.i) && Key(p, r.i) == key
    ensures r.InKid? ==> IsKid(p, r.ix)
  {
    if key == p.k1 then AtEntry(2)
    else if key < p.k1 then InKid(1)
    else if p.Two? then InKid(4)
    else if key == p.k2 then AtEntry(5)
    else if key < p.k2 then InKid(4)
    else if p.Three? then InKid(7)
    else if key == p.k3 then AtEntry(8)
    else if key < p.k3 then InKid(7)
    else InKid(10)
  }

  /** What the search returns, by recursion. */
  function Lookup<D>(p: Node<D>, key: int): Option<D> {
    if p == Null then None
    else
      match Compare(p, key)
      case AtEntry(i) => Some(Datum(p, i))
      case InKid(ix) => Lookup(Kid(p, ix), key)
  }

  // ---------- what a tree must keep ----------

  /** An open end of a range of keys, or a key just outside it. */
  datatype End = Open | At(key: int)

  predicate Above(lo: End, k: int) { lo.At? ==> lo.key < k }

  predicate Below(k: int, hi: End) { hi.At? ==> k < hi.key }

  /** All keys lie between `lo` and `hi`, left to right in increasing order. */
  predicate Ordered<D>(p: Node<D>, lo: End, hi: End) {
    match p
    case Null => true
    case Two(c1, k1, _, c2) =>
      Above(lo, k1) && Below(k1, hi) && Ordered(c1, lo, At(k1)) && Ordered(c2, At(k1), hi)
    case Three(c1, k1, _, c2, k2, _, c3) =>
      && Above(lo, k1) && k1 < k2 && Below(k2, hi)
      && Ordered(c1, lo, At(k1)) && Ordered(c2, At(k1), At(k2)) && Ordered(c3, At(k2), hi)
    case Four(c1, k1, _, c2, k2, _, c3, k3, _, c4) =>
      && Above(lo, k1) && k1 < k2 < k3 && Below(k3, hi)
      && Ordered(c1, lo, At(k1)) && Ordered(c2, At(k1), At(k2))
      && Ordered(c3, At(k2), At(k3)) && Ordered(c4, At(k3), hi)
  }

  /** All leaves lie at depth `h`. */
  predicate Uniform<D>(p: Node<D>, h: nat) {
    match p
    case Null => h == 0
    case Two(c1, _, _, c2) => h > 0 && Uniform(c1, h - 1) && Uniform(c2, h - 1)
    case Three(c1, _, _, c2, _, _, c3) => h > 0 && Uniform(c1, h - 1) && Uniform(c2, h - 1) && Uniform(c3, h - 1)
    case Four(c1, _, _, c2, _, _, c3, _, _, c4) =>
      h > 0 && Uniform(c1, h - 1) && Uniform(c2, h - 1) && Uniform(c3, h - 1) && Uniform(c4, h - 1)
  }

  /** The entry occurs somewhere in the tree, wherever that is. */
  predicate Occurs<D(==)>(p: Node<D>, k: int, d: D) {
    match p
    case Null => false
    case Two(c1, k1, d1, c2) => (k, d) == (k1, d1) || Occurs(c1, k, d) || Occurs(c2, k, d)
    case Three(c1, k1, d1, c2, k2, d2, c3) =>
      (k, d) == (k1, d1) || (k, d) == (k2, d2) || Occurs(c1, k, d) || Occurs(c2, k, d) || Occurs(c3, k, d)
    case Four(c1, k1, d1, c2, k2, d2, c3, k3, d3, c4) =>
      || (k, d) == (k1, d1) || (k, d) == (k2, d2) || (k, d) == (k3, d3)
      || Occurs(c1, k, d) || Occurs(c2, k, d) || Occurs(c3, k, d) || Occurs(c4, k, d)
  }

  lemma {:induction false} OccursWithin<D>(p: Node<D>, lo: End, hi: End, k: int, d: D)
    requires Ordered(p, lo, hi) && Occurs(p, k, d)
    ensures Above(lo, k) && Below(k, hi)
  {
    match p
    case Two(c1, k1, d1, c2) =>
      if Occurs(c1, k, d) { OccursWithin(c1, lo, At(k1), k, d); }
      if Occurs(c2, k, d) { OccursWithin(c2, At(k1), hi, k, d); }
    case Three(c1, k1, d1, c2, k2, d2, c3) =>
      if Occurs(c1, k, d) { OccursWithin(c1, lo, At(k1), k, d); }
      if Occurs(c2, k, d) { OccursWithin(c2, At(k1), At(k2), k, d); }
      if Occurs(c3, k, d) { OccursWithin(c3, At(k2), hi, k, d); }
    case Four(c1, k1, d1, c2, k2, d2, c3, k3, d3, c4) =>
      if Occurs(c1, k, d) { OccursWithin(c1, lo, At(k1), k, d); }
      if Occurs(c2, k, d) { OccursWithin(c2, At(k1), At(k2), k, d); }
      if Occurs(c3, k, d) { OccursWithin(c3, At(k2), At(k3), k, d); }
      if Occurs(c4, k, d) { OccursWithin(c4, At(k3), hi, k, d); }
  }

  /** In an ordered tree the search finds exactly the entries that are there. */
  lemma {:induction false} LookupFindsEntries<D>(p: Node<D>, lo: End, hi: End, k: int, d: D)
    requires Ordered(p, lo, hi)
    ensures Lookup(p, k) == Some(d) <==> Occurs(p, k, d)
    decreases p, 0
  {
    match p
    case Null =>
    case Two(c1, k1, d1, c2) =>
      KidFindsEntries(c1, lo, At(k1), k, d);
      KidFindsEntries(c2, At(k1), hi, k, d);
    case Three(c1, k1, d1, c2, k2, d2, c3) =>
      KidFindsEntries(c1, lo, At(k1), k, d);
      KidFindsEntries(c2, At(k1), At(k2), k, d);
      KidFindsEntries(c3, At(k2), hi, k, d);
    case Four(c1, k1, d1, c2, k2, d2, c3, k3, d3, c4) =>
      KidFindsEntries(c1, lo, At(k1), k, d);
      KidFindsEntries(c2, At(k1), At(k2), k, d);
      KidFindsEntries(c3, At(k2), At(k3), k, d);
      KidFindsEntries(c4, At(k3), hi, k, d);
  }

  lemma {:induction false} KidFindsEntries<D>(p: Node<D>, lo: End, hi: End, k: int, d: D)
    requires Ordered(p, lo, hi)
    ensures Lookup(p, k) == Some(d) <==> Occurs(p, k, d)
    ensures Occurs(p, k, d) ==> Above(lo, k) && Below(k, hi)
    decreases p, 1
  {
    LookupFindsEntries(p, lo, hi, k, d);
    if Occurs(p, k, d) {
      OccursWithin(p, lo, hi, k, d);
    }
  }

  /** Outside its range a tree has nothing. */
  lemma {:induction false} LookupWithin<D>(p: Node<D>, lo: End, hi: End, k: int)
    requires Ordered(p, lo, hi) && !(Above(lo, k) && Below(k, hi))
    ensures Lookup(p, k) == None
  {
    if Lookup(p, k).Some? {
      LookupFindsEntries(p, lo, hi, k, Lookup(p, k).value);
      OccursWithin(p, lo, hi, k, Lookup(p, k).value);
    }
  }

  lemma {:induction false} Widen<D>(p: Node<D>, lo: End, hi: End, lo': End, hi': End)
    requires Ordered(p, lo, hi)
    requires lo'.At? ==> lo.At? && lo'.key <= lo.key
    requires hi'.At? ==> hi.At? && hi.key <= hi'.key
    ensures Ordered(p, lo', hi')
  {
    match p
    case Null =>
    case Two(c1, k1, _, c2) => Widen(c1, lo, At(k1), lo', At(k1)); Widen(c2, At(k1), hi, At(k1), hi');
    case Three(c1, k1, _, c2, k2, _, c3) => Widen(c1, lo, At(k1), lo', At(k1)); Widen(c3, At(k2), hi, At(k2), hi');
    case Four(c1, k1, _, c2, k2, _, c3, k3, _, c4) => Widen(c1, lo, At(k1), lo', At(k1)); Widen(c4, At(k3), hi, At(k3), hi');
  }

  // ---------- height ----------

  function Power2(n: nat): nat { if n == 0 then 1 else 2 * Power2(n - 1) }

  function KeyCount<D>(p: Node<D>): nat {
    match p
    case Null => 0
    case Two(c1, _, _, c2) => 1 + KeyCount(c1) + KeyCount(c2)
    case Three(c1, _, _, c2, _, _, c3) => 2 + KeyCount(c1) + KeyCount(c2) + KeyCount(c3)
    case Four(c1, _, _, c2, _, _, c3, _, _, c4) => 3 + KeyCount(c1) + KeyCount(c2) + KeyCount(c3) + KeyCount(c4)
  }

  /** A tree of height `h` has at least 2^h - 1 keys. */
  lemma {:induction false} HeightBound<D>(p: Node<D>, h: nat)
    requires Uniform(p, h)
    ensures KeyCount(p) + 1 >= Power2(h)
  {
    if p != Null {
      HeightBound(p.c1, h - 1);
      HeightBound(p.c2, h - 1);
    }
  }

  lemma {:induction false} Power2Grows(m: nat, n: nat)
    requires m <= n
    ensures Power2(m) <= Power2(n)
    decreases n
  {
    if m < n {
      Power2Grows(m, n - 1);
    }
  }

  /** The 32 slots of `path` are enough for every tree of fewer than 2^32 keys. */
  lemma PathIsLongEnough<D>(p: Node<D>, h: nat)
    requires Uniform(p, h) && KeyCount(p) < 0x1_0000_0000
    ensures h <= 32
  {
    HeightBound(p, h);
    if h > 32 {
      Power2Grows(33, h);
      assert Power2(33) == 2 * Power2(32);
      Power32();
    }
  }

  lemma Power32()
    ensures Power2(32) == 0x1_0000_0000
  {
    assert Power2(8) == 0x100;
    assert Power2(16) == 0x1_0000;
    assert Power2(24) == 0x100_0000;
  }
}
