/** The binomial heaps of priq.c as values: what linking, merging and deleting do, and keep. */
module BinomialHeap {

  /** A list of trees: `next` is the next tree of the list, `sons` the list of the root's
      subtrees, rightmost first.  One cell of the source is one `Tree`. */
  datatype Forest = Nil | Tree(height: nat, item: int, sons: Forest, next: Forest)

  function Length(f: Forest): nat {
    if f == Nil then 0 else 1 + Length(f.next)
  }

  function Append(f: Forest, g: Forest): Forest {
    if f == Nil then g else f.(next := Append(f.next, g))
  }

  // ---------- what a heap must keep ----------

  /** `sons` are the subtrees of a root of height `h` with the item `item`: binomial trees of
      heights h-1 down to 0, with no smaller item than the root's. */
  predicate Sons(sons: Forest, h: nat, item: int) {
    if h == 0 then sons == Nil
    else
      && sons.Tree? && sons.height == h - 1 && item <= sons.item
      && Sons(sons.sons, h - 1, sons.item) && Sons(sons.next, h - 1, item)
  }

  predicate AllBinomial(f: Forest) {
    f.Tree? ==> Sons(f.sons, f.height, f.item) && AllBinomial(f.next)
  }

  /** The roots' heights increase strictly, from `low` on. */
  predicate Rising(f: Forest, low: nat) {
    f.Tree? ==> low <= f.height && Rising(f.next, f.height + 1)
  }

  predicate Valid(f: Forest) {
    AllBinomial(f) && Rising(f, 0)
  }

  /** How often the item `x` occurs in a list of trees. */
  function Count(f: Forest, x: int): nat {
    if f == Nil then 0 else (if f.item == x then 1 else 0) + Count(f.sons, x) + Count(f.next, x)
  }

  function Size(f: Forest): nat {
    if f == Nil then 0 else 1 + Size(f.sons) + Size(f.next)
  }

  function Power2(n: nat): nat { if n == 0 then 1 else 2 * Power2(n - 1) }

  /** A tree of height `h` has 2^h items. */
  lemma {:induction false} SonsCount(sons: Forest, h: nat, item: int)
    requires Sons(sons, h, item)
    ensures Size(sons) + 1 == Power2(h)
  {
    if h > 0 {
      SonsCount(sons.sons, h - 1, sons.item);
      SonsCount(sons.next, h - 1, item);
    }
  }

  lemma {:induction false} SonsAtLeast(sons: Forest, h: nat, item: int, x: int)
    requires Sons(sons, h, item) && Count(sons, x) > 0
    ensures item <= x
  {
    if h > 0 {
      if Count(sons.sons, x) > 0 {
        SonsAtLeast(sons.sons, h - 1, sons.item, x);
      } else if Count(sons.next, x) > 0 {
        SonsAtLeast(sons.next, h - 1, item, x);
      }
    }
  }

  lemma {:induction false} RisingFrom(f: Forest, low: nat, lower: nat)
    requires Rising(f, low) && lower <= low
    ensures Rising(f, lower)
  {
  }

  // ---------- linking ----------

  predicate FirstTwoEqual(f: Forest) {
    f.Tree? && f.next.Tree? && f.height == f.next.height
  }

  /** The root of `b` becomes the rightmost son of the root of `a`; `rest` follows. */
  function Link(a: Forest, b: Forest, rest: Forest): Forest
    requires a.Tree? && b.Tree?
  {
    Tree(a.height + 1, a.item, Tree(b.height, b.item, b.sons, a.sons), rest)
  }

  /** Link the first two trees of the list: the one with the smaller item becomes the root. */
  function LinkFirstTwo(f: Forest): (r: Forest)
    requires FirstTwoEqual(f)
    ensures Length(r) == Length(f) - 1
  {
    if f.item > f.next.item then Link(f.next, f, f.next.next) else Link(f, f.next, f.next.next)
  }

  lemma LinkKeeps(a: Forest, b: Forest, rest: Forest)
    requires a.Tree? && b.Tree? && a.height == b.height && a.item <= b.item
    requires Sons(a.sons, a.height, a.item) && Sons(b.sons, b.height, b.item) && AllBinomial(rest)
    ensures AllBinomial(Link(a, b, rest))
  {
  }

  // ---------- merging ----------

  /** Link the carried tree while the first two trees have one height. */
  function Settle(f: Forest): Forest
    decreases Length(f)
  {
    if FirstTwoEqual(f) then Settle(LinkFirstTwo(f)) else f
  }

  /** The loop of `merge`: the first list may carry one tree too many. */
  function MergeLists(f: Forest, g: Forest): Forest
    decreases Length(f) + Length(g)
  {
    if f == Nil then g
    else if g == Nil then Settle(f)
    else if FirstTwoEqual(f) then MergeLists(LinkFirstTwo(f), g)
    else if f.height < g.height then f.(next := MergeLists(f.next, g))
    else if f.height > g.height then g.(next := MergeLists(f, g.next))
    else if f.item > g.item then MergeLists(Link(g, f, g.next), f.next)
    else MergeLists(Link(f, g, f.next), g.next)
  }

  /** `merge`. */
  function Merged(f: Forest, g: Forest): Forest {
    if f == Nil then g else if g == Nil then f else MergeLists(f, g)
  }

  /** The heights of a list that may carry: the first two may be equal, the rest rises. */
  predicate Carrying(f: Forest, low: nat) {
    f.Tree? ==> low <= f.height && Rising(f.next, f.height)
  }

  lemma LinkFirstTwoKeeps(f: Forest, low: nat)
    requires AllBinomial(f) && Carrying(f, low) && FirstTwoEqual(f)
    ensures AllBinomial(LinkFirstTwo(f)) && Carrying(LinkFirstTwo(f), low)
  {
    if f.item > f.next.item {
      LinkKeeps(f.next, f, f.next.next);
    } else {
      LinkKeeps(f, f.next, f.next.next);
    }
  }

  lemma {:induction false} SettleKeeps(f: Forest, low: nat)
    requires AllBinomial(f) && Carrying(f, low)
    ensures AllBinomial(Settle(f)) && Rising(Settle(f), low)
    decreases Length(f)
  {
    if FirstTwoEqual(f) {
      LinkFirstTwoKeeps(f, low);
      SettleKeeps(LinkFirstTwo(f), low);
    }
  }

  lemma {:induction false} SettleCount(f: Forest, x: int)
    ensures Count(Settle(f), x) == Count(f, x)
    decreases Length(f)
  {
    if FirstTwoEqual(f) {
      SettleCount(LinkFirstTwo(f), x);
    }
  }

  /** Merging keeps the heap order and one tree of each height, also when three trees of one
      height meet. */
  lemma {:induction false} MergeListsKeeps(f: Forest, g: Forest, low: nat)
    requires AllBinomial(f) && AllBinomial(g) && Carrying(f, low) && Rising(g, low)
    ensures AllBinomial(MergeLists(f, g)) && Rising(MergeLists(f, g), low)
    decreases Length(f) + Length(g)
  {
    if f == Nil {
    } else if g == Nil {
      SettleKeeps(f, low);
    } else if FirstTwoEqual(f) {
      LinkFirstTwoKeeps(f, low);
      MergeListsKeeps(LinkFirstTwo(f), g, low);
    } else if f.height < g.height {
      if f.next.Tree? {
        RisingFrom(f.next.next, f.next.height + 1, f.next.height);
      }
      MergeListsKeeps(f.next, g, f.height + 1);
    } else if f.height > g.height {
      MergeListsKeeps(f, g.next, g.height + 1);
    } else if f.item > g.item {
      LinkKeeps(g, f, g.next);
      MergeListsKeeps(Link(g, f, g.next), f.next, low);
    } else {
      LinkKeeps(f, g, f.next);
      MergeListsKeeps(Link(f, g, f.next), g.next, low);
    }
  }

  /** Merging keeps every item. */
  lemma {:induction false} MergeListsCount(f: Forest, g: Forest, x: int)
    ensures Count(MergeLists(f, g), x) == Count(f, x) + Count(g, x)
    decreases Length(f) + Length(g)
  {
    if f == Nil {
    } else if g == Nil {
      SettleCount(f, x);
    } else if FirstTwoEqual(f) {
      MergeListsCount(LinkFirstTwo(f), g, x);
    } else if f.height < g.height {
      MergeListsCount(f.next, g, x);
    } else if f.height > g.height {
      MergeListsCount(f, g.next, x);
    } else if f.item > g.item {
      MergeListsCount(Link(g, f, g.next), f.next, x);
    } else {
      MergeListsCount(Link(f, g, f.next), g.next, x);
    }
  }

  /** The merge of two heaps is a heap of exactly their items. */
  lemma MergedKeeps(f: Forest, g: Forest)
    requires Valid(f) && Valid(g)
    ensures Valid(Merged(f, g))
    ensures forall x :: Count(Merged(f, g), x) == Count(f, x) + Count(g, x)
  {
    if f != Nil && g != Nil {
      RisingFrom(f.next, f.height + 1, f.height);
      MergeListsKeeps(f, g, 0);
      forall x
        ensures Count(Merged(f, g), x) == Count(f, x) + Count(g, x)
      {
        MergeListsCount(f, g, x);
      }
    }
  }

  // ---------- the minimum ----------

  /** The smallest root item of a nonempty list; `find_min` stops at the first such root. */
  function MinItem(f: Forest): int
    requires f.Tree?
  {
    if f.next == Nil || f.item <= MinItem(f.next) then f.item else MinItem(f.next)
  }

  /** The tree that `find_min` finds, with what follows it. */
  function MinTree(f: Forest): (r: Forest)
    requires f.Tree?
    ensures r.Tree? && r.item == MinItem(f)
  {
    if f.item == MinItem(f) then f else MinTree(f.next)
  }

  /** The list without that tree. */
  function WithoutMin(f: Forest): Forest
    requires f.Tree?
  {
    if f.item == MinItem(f) then f.next else f.(next := WithoutMin(f.next))
  }

  lemma {:induction false} MinIsLeast(f: Forest, x: int)
    requires f.Tree? && AllBinomial(f) && Count(f, x) > 0
    ensures MinItem(f) <= x
  {
    if Count(f.sons, x) > 0 {
      SonsAtLeast(f.sons, f.height, f.item, x);
    } else if Count(f.next, x) > 0 {
      MinIsLeast(f.next, x);
    }
  }

  lemma {:induction false} WithoutMinKeeps(f: Forest, low: nat)
    requires f.Tree? && AllBinomial(f) && Rising(f, low)
    ensures AllBinomial(WithoutMin(f)) && Rising(WithoutMin(f), low)
    ensures AllBinomial(MinTree(f))
  {
    if f.item == MinItem(f) {
      RisingFrom(f.next, f.height + 1, low);
    } else {
      WithoutMinKeeps(f.next, f.height + 1);
    }
  }

  lemma {:induction false} WithoutMinCount(f: Forest, x: int)
    requires f.Tree?
    ensures Count(f, x) == Count(WithoutMin(f), x) + (if x == MinItem(f) then 1 else 0) + Count(MinTree(f).sons, x)
  {
    if f.item != MinItem(f) {
      WithoutMinCount(f.next, x);
    }
  }

  /** The trees of a list in the opposite order, in front of `done`. */
  function Turned(f: Forest, done: Forest): Forest
    decreases Length(f)
  {
    if f == Nil then done else Turned(f.next, f.(next := done))
  }

  /** The sons of a root, turned round, are a heap. */
  lemma {:induction false} TurnedSons(sons: Forest, h: nat, item: int, done: Forest)
    requires Sons(sons, h, item) && AllBinomial(done) && Rising(done, h)
    ensures Valid(Turned(sons, done))
    decreases h
  {
    if h > 0 {
      TurnedSons(sons.next, h - 1, item, sons.(next := done));
    } else {
      RisingFrom(done, h, 0);
    }
  }

  lemma {:induction false} TurnedCount(f: Forest, done: Forest, x: int)
    ensures Count(Turned(f, done), x) == Count(f, x) + Count(done, x)
    decreases Length(f)
  {
    if f != Nil {
      TurnedCount(f.next, f.(next := done), x);
    }
  }

  /** `priq_delete` of a nonempty heap. */
  function Deleted(f: Forest): Forest
    requires f.Tree?
  {
    Merged(Turned(MinTree(f).sons, Nil), WithoutMin(f))
  }

  /** Deletion takes away one least item and keeps every other. */
  lemma DeletedKeeps(f: Forest)
    requires f.Tree? && Valid(f)
    ensures Valid(Deleted(f))
    ensures forall x :: Count(Deleted(f), x) + (if x == MinItem(f) then 1 else 0) == Count(f, x)
    ensures forall x | Count(f, x) > 0 :: MinItem(f) <= x
  {
    WithoutMinKeeps(f, 0);
    var m := MinTree(f);
    TurnedSons(m.sons, m.height, m.item, Nil);
    MergedKeeps(Turned(m.sons, Nil), WithoutMin(f));
    forall x
      ensures Count(Deleted(f), x) + (if x == MinItem(f) then 1 else 0) == Count(f, x)
    {
      WithoutMinCount(f, x);
      TurnedCount(m.sons, Nil, x);
    }
    forall x | Count(f, x) > 0
      ensures MinItem(f) <= x
    {
      MinIsLeast(f, x);
    }
  }

  /** `priq_insert`. */
  function Inserted(f: Forest, item: int): Forest {
    Merged(f, Tree(0, item, Nil, Nil))
  }

  lemma InsertedKeeps(f: Forest, item: int)
    requires Valid(f)
    ensures Valid(Inserted(f, item))
    ensures forall x :: Count(Inserted(f, item), x) == Count(f, x) + if x == item then 1 else 0
  {
    var single := Tree(0, item, Nil, Nil);
    MergedKeeps(f, single);
    assert forall x :: Count(single, x) == if x == item then 1 else 0;
  }
}
