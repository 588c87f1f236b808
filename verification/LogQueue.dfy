/** The logarithmic queue of lq.c: a tail of perfect trees linked like the digits of a skew-binary
    number, and a head of trees that have been turned over and unpacked. */
module LogQueue {

  /** The four cell types.  A tree of height 0 is a bare item; a higher one has only a link to its
      right son, whose `next` is the left son.  `00` and `10` have no `next`. */
  datatype Item<D> =
    | Nil
    | Item00(data: D)
    | Item01(data: D, next: Item<D>)
    | Item10(height: nat, data: D, right: Item<D>)
    | Item11(height: nat, data: D, next: Item<D>, right: Item<D>)

  /** `CELL_lq_entry_point`, or the null pointer. */
  datatype Queue<D> = Empty | Entry(head: Item<D>, tail: Item<D>)

  function Height<D>(t: Item<D>): nat {
    if t.Item10? || t.Item11? then t.height else 0
  }

  // ---------- perfect trees ----------

  /** The tree at `t` is perfect and has height `h`, whatever follows it. */
  predicate IsTree<D>(t: Item<D>, h: nat)
    decreases t, 0
  {
    match t
    case Nil => false
    case Item00(_) => h == 0
    case Item01(_, _) => h == 0
    case Item10(k, _, r) => h == k > 0 && IsPair(r, h - 1)
    case Item11(k, _, _, r) => h == k > 0 && IsPair(r, h - 1)
  }

  /** A right son followed by its brother, the left son, both of height `h`. */
  predicate IsPair<D>(t: Item<D>, h: nat)
    decreases t, 1
  {
    && IsTree(t, h)
    && (t.Item01? || t.Item11?) && (t.next.Item00? || t.next.Item10?)
    && IsTree(t.next, h)
  }

  /** The items of one tree, oldest first: right son, left son, root. */
  function TreeItems<D>(t: Item<D>): seq<D> {
    match t
    case Nil => []
    case Item00(d) => [d]
    case Item01(d, _) => [d]
    case Item10(_, d, r) => PairItems(r) + [d]
    case Item11(_, d, _, r) => PairItems(r) + [d]
  }

  function PairItems<D>(r: Item<D>): seq<D> {
    match r
    case Item01(d, l) => [d] + TreeItems(l)
    case Item11(_, d, l, rr) => PairItems(rr) + [d] + TreeItems(l)
    case _ => []
  }

  function Pow2(n: nat): nat {
    if n == 0 then 1 else 2 * Pow2(n - 1)
  }

  lemma {:induction false} PerfectSize<D>(t: Item<D>, h: nat)
    requires IsTree(t, h)
    ensures |TreeItems(t)| == Pow2(h + 1) - 1
    decreases t, 0
  {
    if h > 0 {
      PairSize(t.right, h - 1);
    }
  }

  lemma {:induction false} PairSize<D>(t: Item<D>, h: nat)
    requires IsPair(t, h)
    ensures PairItems(t) == TreeItems(t) + TreeItems(t.next)
    ensures |PairItems(t)| == 2 * (Pow2(h + 1) - 1)
    decreases t, 1
  {
    PerfectSize(t, h);
    PerfectSize(t.next, h);
  }

  // ---------- head and tail ----------

  /** A list of perfect trees.  In the head the oldest is in front. */
  predicate Listed<D>(t: Item<D>) {
    match t
    case Nil => true
    case Item00(_) => true
    case Item01(_, n) => n != Nil && Listed(n)
    case Item10(h, _, _) => IsTree(t, h)
    case Item11(h, _, n, _) => IsTree(t, h) && n != Nil && Listed(n)
  }

  function HeadItems<D>(t: Item<D>): seq<D> {
    match t
    case Nil => []
    case Item00(_) => TreeItems(t)
    case Item01(_, n) => TreeItems(t) + HeadItems(n)
    case Item10(_, _, _) => TreeItems(t)
    case Item11(_, _, n, _) => TreeItems(t) + HeadItems(n)
  }

  /** Heights grow strictly along the list, except that the first two may be equal. */
  predicate Skew<D>(t: Item<D>, mayEqual: bool) {
    t.Item01? || t.Item11? ==> Follows(t.next, Height(t), mayEqual) && Skew(t.next, false)
  }

  /** The tail: perfect trees, the newest in front, with the heights of a skew-binary number. */
  predicate TailOk<D>(t: Item<D>) {
    Listed(t) && Skew(t, true)
  }

  predicate Follows<D>(n: Item<D>, h: nat, mayEqual: bool) {
    n != Nil && (h < Height(n) || (mayEqual && h == Height(n)))
  }

  function TailItems<D>(t: Item<D>): seq<D> {
    match t
    case Nil => []
    case Item00(_) => TreeItems(t)
    case Item01(_, n) => TailItems(n) + TreeItems(t)
    case Item10(_, _, _) => TreeItems(t)
    case Item11(_, _, n, _) => TailItems(n) + TreeItems(t)
  }

  lemma ListedHasItems<D>(t: Item<D>)
    requires Listed(t)
    ensures t != Nil ==> |TreeItems(t)| > 0 && |HeadItems(t)| > 0 && |TailItems(t)| > 0
  {
    if t != Nil {
      PerfectSize(t, Height(t));
    }
  }

  predicate Valid<D>(q: Queue<D>) {
    q.Entry? ==> (q.head != Nil || q.tail != Nil) && Listed(q.head) && TailOk(q.tail)
  }

  /** The queue's items, the one to leave first in front. */
  function Contents<D>(q: Queue<D>): seq<D> {
    if q.Empty? then [] else HeadItems(q.head) + TailItems(q.tail)
  }

  // ---------- insertion ----------

  /** `lq_insert_last`, with the words it allocates. */
  function InsertLast<D>(q: Queue<D>, data: D): (Queue<D>, nat)
    requires Valid(q)
  {
    if q.Empty? then (Entry(Item00(data), Nil), 5)
    else if q.tail.Nil? then (Entry(q.head, Item00(data)), 5)
    else var (item, words) := NewItem(q.tail, data); (Entry(q.head, item), words + 3)
  }

  /** The new first cell of the tail: the item on its own, or over the first two trees. */
  function NewItem<D>(tail: Item<D>, data: D): (Item<D>, nat)
    requires TailOk(tail) && tail != Nil
  {
    match tail
    case Item00(_) => (Item01(data, tail), 3)
    case Item10(_, _, _) => (Item01(data, tail), 3)
    case Item01(d1, second) =>
      var rightSon := Item01(second.data, Item00(d1));
      if second.Item10? || second.Item11? then (Item01(data, tail), 3)
      else if second.Item00? then (Item10(1, data, rightSon), 8)
      else (Item11(1, data, second.next, rightSon), 9)
    case Item11(h1, d1, second, r1) =>
      if h1 != Height(second) then (Item01(data, tail), 3)
      else
        var leftSon := Item10(h1, d1, r1);
        var rightSon := Item11(second.height, second.data, leftSon, second.right);
        if second.Item10? then (Item10(h1 + 1, data, rightSon), 10)
        else (Item11(h1 + 1, data, second.next, rightSon), 11)
  }

  const LQ_INSERT_MAX_ALLOCATION: nat := 14
  const LQ_REMOVE_MAX_ALLOCATION: nat := 3 + 3 * 31 * 4

  /** Two trees of height `h`, copied as the sons of a new root. */
  lemma LinkedSons<D>(h: nat, first: Item<D>, second: Item<D>)
    requires h > 0 && first.Item11? && IsTree(first, h) && IsTree(second, h)
    ensures var leftSon := Item10(h, first.data, first.right);
            var rightSon := Item11(h, second.data, leftSon, second.right);
            IsPair(rightSon, h) && PairItems(rightSon) == TreeItems(second) + TreeItems(first)
  {
    var leftSon := Item10(h, first.data, first.right);
    var rightSon := Item11(h, second.data, leftSon, second.right);
    assert IsTree(leftSon, h) && IsTree(rightSon, h);
    assert TreeItems(leftSon) == TreeItems(first);
  }

  /** The new first cell is a tree of the item over the first two trees, or the item alone, and the
      heights are again those of a skew-binary number. */
  lemma NewItemIsNewest<D>(tail: Item<D>, data: D)
    requires TailOk(tail) && tail != Nil
    ensures TailOk(NewItem(tail, data).0) && NewItem(tail, data).0 != Nil
    ensures TailItems(NewItem(tail, data).0) == TailItems(tail) + [data]
    ensures NewItem(tail, data).1 + 3 <= LQ_INSERT_MAX_ALLOCATION
  {
    if tail.Item11? && tail.height == Height(tail.next) {
      assert Listed(tail.next) && Skew(tail.next, false) && IsTree(tail.next, tail.height);
      LinkedSons(tail.height, tail, tail.next);
    } else if tail.Item01? && Height(tail.next) == 0 {
      assert Listed(tail.next) && Skew(tail.next, false);
      var rightSon := Item01(tail.next.data, Item00(tail.data));
      assert IsTree(rightSon, 0) && IsPair(rightSon, 0);
      assert PairItems(rightSon) == TreeItems(tail.next) + TreeItems(tail);
    }
  }

  /** Insertion appends. */
  lemma InsertAppends<D>(q: Queue<D>, data: D)
    requires Valid(q)
    ensures Valid(InsertLast(q, data).0) && InsertLast(q, data).0.Entry?
    ensures Contents(InsertLast(q, data).0) == Contents(q) + [data]
    ensures InsertLast(q, data).1 <= LQ_INSERT_MAX_ALLOCATION
  {
    if q.Entry? && q.tail != Nil {
      NewItemIsNewest(q.tail, data);
    }
  }

  // ---------- the words of cells ----------

  function CellWords<D>(t: Item<D>): nat {
    match t
    case Nil => 0
    case Item00(_) => 2
    case Item01(_, _) => 3
    case Item10(_, _, _) => 3
    case Item11(_, _, _, _) => 4
  }

  /** The words of the cells that follow each other by `next`. */
  function RowWords<D>(t: Item<D>): nat {
    CellWords(t) + if t.Item01? || t.Item11? then RowWords(t.next) else 0
  }

  /** The words that insertion counts are those of the cells it makes: the entry point, the cell of the new item,
      and, when that is a tree, copies of its two sons. */
  lemma InsertWords<D>(q: Queue<D>, data: D)
    requires Valid(q)
    ensures var (r, words) := InsertLast(q, data);
            && r.Entry?
            && (q.Empty? ==> words == 3 + CellWords(r.head))
            && (q.Entry? ==> r.head == q.head && r.tail != Nil
                             && words == 3 + CellWords(r.tail) + if Height(r.tail) > 0 then RowWords(r.tail.right) else 0)
  {
    if q.Entry? && q.tail != Nil {
      NewItemIsNewest(q.tail, data);
      var item := NewItem(q.tail, data).0;
      if item.Item10? || item.Item11? {
        assert item.right.next.Item00? || item.right.next.Item10?;
        assert RowWords(item.right) == CellWords(item.right) + CellWords(item.right.next);
      }
    }
  }

  // ---------- removal ----------

  /** What one turn of the `unpack` loop puts in front of the head: the brother, then the root. */
  function BrotherAndRoot<D>(t: Item<D>, h: nat, head: Item<D>): Item<D>
    requires IsPair(t, h) && t.Item11?
  {
    assert IsTree(t, h) && IsTree(t.next, h);
    Item01(t.data, Item11(t.next.height, t.next.data, head, t.next.right))
  }

  /** The `unpack` loop: all items of a right son and its brother, but the oldest, go to the head. */
  function Unpacked<D>(t: Item<D>, h: nat, head: Item<D>): Item<D>
    requires IsPair(t, h)
  {
    if t.Item01? then Item01(t.next.data, head)
    else
      assert IsTree(t, h);
      Unpacked(t.right, h - 1, BrotherAndRoot(t, h, head))
  }

  lemma BrotherAndRootItems<D>(t: Item<D>, h: nat, head: Item<D>)
    requires IsPair(t, h) && t.Item11? && Listed(head) && head != Nil
    ensures Listed(BrotherAndRoot(t, h, head))
    ensures HeadItems(BrotherAndRoot(t, h, head)) == [t.data] + (TreeItems(t.next) + HeadItems(head))
  {
    assert IsTree(t, h) && IsTree(t.next, h);
    var withBrother := Item11(t.next.height, t.next.data, head, t.next.right);
    assert IsTree(withBrother, h) && TreeItems(withBrother) == TreeItems(t.next);
  }

  lemma {:induction false} UnpackedItems<D>(t: Item<D>, h: nat, head: Item<D>)
    requires IsPair(t, h) && Listed(head) && head != Nil
    ensures Listed(Unpacked(t, h, head)) && Unpacked(t, h, head) != Nil
    ensures |PairItems(t)| > 0 && HeadItems(Unpacked(t, h, head)) == (PairItems(t) + HeadItems(head))[1..]
    decreases t
  {
    if t.Item11? {
      assert IsTree(t, h);
      BrotherAndRootItems(t, h, head);
      UnpackedItems(t.right, h - 1, BrotherAndRoot(t, h, head));
      assert PairItems(t.right) + ([t.data] + (TreeItems(t.next) + HeadItems(head))) == PairItems(t) + HeadItems(head);
    } else {
      assert IsTree(t.next, h);
    }
  }

  /** Taking the oldest item off a single tree, in front of `head`, which may be null. */
  function Opened<D>(t: Item<D>, h: nat, head: Item<D>): Item<D>
    requires IsTree(t, h) && h > 0
  {
    Unpacked(t.right, h - 1, if head.Nil? then Item00(t.data) else Item01(t.data, head))
  }

  lemma OpenedItems<D>(t: Item<D>, h: nat, head: Item<D>)
    requires IsTree(t, h) && h > 0 && Listed(head)
    ensures Listed(Opened(t, h, head)) && Opened(t, h, head) != Nil
    ensures HeadItems(Opened(t, h, head)) == (TreeItems(t) + HeadItems(head))[1..]
  {
    var root := if head.Nil? then Item00(t.data) else Item01(t.data, head);
    UnpackedItems(t.right, h - 1, root);
    assert PairItems(t.right) + HeadItems(root) == TreeItems(t) + HeadItems(head);
  }

  /** The `reverse` loop: the trees of the tail go to the head one by one; the last one is opened. */
  function TurnedOver<D>(t: Item<D>, head: Item<D>): Item<D>
    requires Listed(t) && t != Nil
  {
    match t
    case Item00(_) => head
    case Item10(h, _, _) => Opened(t, h, head)
    case Item01(d, n) => TurnedOver(n, if head.Nil? then Item00(d) else Item01(d, head))
    case Item11(h, d, n, r) =>
      TurnedOver(n, if head.Nil? then Item10(h, d, r) else Item11(h, d, head, r))
  }

  lemma {:induction false} TurnedOverItems<D>(t: Item<D>, head: Item<D>)
    requires Listed(t) && t != Nil && Listed(head)
    ensures Listed(TurnedOver(t, head))
    ensures TurnedOver(t, head) == Nil <==> t.Item00? && head == Nil
    ensures |TailItems(t)| > 0 && HeadItems(TurnedOver(t, head)) == (TailItems(t) + HeadItems(head))[1..]
  {
    match t
    case Item00(_) =>
    case Item10(h, _, _) => OpenedItems(t, h, head);
      PerfectSize(t, h);
    case Item01(d, n) =>
      var more := if head.Nil? then Item00(d) else Item01(d, head);
      TurnedOverItems(n, more);
      assert TailItems(n) + HeadItems(more) == TailItems(t) + HeadItems(head);
    case Item11(h, d, n, r) =>
      var more := if head.Nil? then Item10(h, d, r) else Item11(h, d, head, r);
      assert IsTree(more, h);
      TurnedOverItems(n, more);
      assert TailItems(n) + HeadItems(more) == TailItems(t) + HeadItems(head);
  }

  /** A head without its first item. */
  function HeadRest<D>(t: Item<D>): Item<D>
    requires Listed(t) && t != Nil
  {
    match t
    case Item00(_) => Nil
    case Item01(_, n) => n
    case Item10(h, _, _) => Opened(t, h, Nil)
    case Item11(h, _, n, _) => Opened(t, h, n)
  }

  lemma HeadLosesFirst<D>(t: Item<D>)
    requires Listed(t) && t != Nil
    ensures Listed(HeadRest(t)) && (HeadRest(t) == Nil ==> t.Item00?)
    ensures |HeadItems(t)| > 0 && HeadItems(HeadRest(t)) == HeadItems(t)[1..]
  {
    ListedHasItems(t);
    match t
    case Item00(_) =>
    case Item01(_, _) =>
    case Item10(h, _, _) =>
      OpenedItems(t, h, Nil);
      assert TreeItems(t) + HeadItems<D>(Nil) == HeadItems(t);
    case Item11(h, _, n, _) =>
      OpenedItems(t, h, n);
  }

  /** The queue without its first item. */
  function Removed<D>(q: Queue<D>): Queue<D>
    requires Valid(q)
  {
    if q.Empty? then Empty
    else if q.head.Nil? then
      var head := TurnedOver(q.tail, Nil);
      if head.Nil? then Empty else Entry(head, Nil)
    else
      var head := HeadRest(q.head);
      if head.Nil? && q.tail.Nil? then Empty else Entry(head, q.tail)
  }

  /** Removal takes exactly the oldest item, and keeps the order of the rest. */
  lemma RemoveTakesFirst<D>(q: Queue<D>)
    requires Valid(q)
    ensures Valid(Removed(q))
    ensures q.Entry? ==> |Contents(q)| > 0 && Contents(Removed(q)) == Contents(q)[1..]
    ensures q.Empty? ==> Removed(q).Empty?
  {
    if q.Entry? {
      if q.head.Nil? {
        TurnedOverItems(q.tail, Nil);
        assert TailItems(q.tail) + HeadItems<D>(Nil) == TailItems(q.tail);
      } else {
        HeadLosesFirst(q.head);
        assert Contents(q)[1..] == HeadItems(q.head)[1..] + TailItems(q.tail);
      }
    }
  }

  // ---------- runs ----------

  datatype Op<D> = Insert(data: D) | Remove

  function Apply<D>(q: Queue<D>, op: Op<D>): (r: Queue<D>)
    requires Valid(q)
    ensures Valid(r)
  {
    match op
    case Insert(d) => InsertAppends(q, d); InsertLast(q, d).0
    case Remove => RemoveTakesFirst(q); Removed(q)
  }

  function Run<D>(q: Queue<D>, ops: seq<Op<D>>): (r: Queue<D>)
    requires Valid(q)
    ensures Valid(r)
    decreases |ops|
  {
    if ops == [] then q else Run(Apply(q, ops[0]), ops[1..])
  }

  function FifoStep<D>(s: seq<D>, op: Op<D>): seq<D> {
    match op
    case Insert(d) => s + [d]
    case Remove => if s == [] then s else s[1..]
  }

  function FifoRun<D>(s: seq<D>, ops: seq<Op<D>>): seq<D>
    decreases |ops|
  {
    if ops == [] then s else FifoRun(FifoStep(s, ops[0]), ops[1..])
  }

  /** Under every sequence of operations the queue is the first-in first-out sequence. */
  lemma {:induction false} RunIsFifo<D>(q: Queue<D>, ops: seq<Op<D>>)
    requires Valid(q)
    ensures Contents(Run(q, ops)) == FifoRun(Contents(q), ops)
    decreases |ops|
  {
    if ops != [] {
      RunIsFifo(Apply(q, ops[0]), ops[1..]);
      if ops[0].Insert? {
        InsertAppends(q, ops[0].data);
      } else {
        RemoveTakesFirst(q);
      }
    }
  }

  // ---------- heights and allocation ----------

  /** The height of the last tree of a list, the number of its trees. */
  function LastHeight<D>(t: Item<D>): nat {
    if (t.Item01? || t.Item11?) && t.next != Nil then LastHeight(t.next) else Height(t)
  }

  function Trees<D>(t: Item<D>): nat {
    match t
    case Nil => 0
    case Item01(_, n) => 1 + Trees(n)
    case Item11(_, _, n, _) => 1 + Trees(n)
    case _ => 1
  }

  lemma {:induction false} FewTrees<D>(t: Item<D>, mayEqual: bool)
    requires Listed(t) && Skew(t, mayEqual) && t != Nil
    ensures Trees(t) + Height(t) <= LastHeight(t) + 1 + (if mayEqual then 1 else 0)
    ensures |TailItems(t)| >= Pow2(LastHeight(t) + 1) - 1
  {
    if t.Item01? || t.Item11? {
      FewTrees(t.next, false);
    } else {
      PerfectSize(t, Height(t));
    }
  }

  lemma {:induction false} Pow2Grows(m: nat, n: nat)
    requires m <= n
    ensures Pow2(m) <= Pow2(n)
  {
    if m < n {
      Pow2Grows(m, n - 1);
    }
  }

  lemma Pow2Eleven(n: nat)
    ensures Pow2(n + 11) == 2048 * Pow2(n)
  {
    assert Pow2(n + 2) == 4 * Pow2(n);
    assert Pow2(n + 4) == 16 * Pow2(n);
    assert Pow2(n + 6) == 64 * Pow2(n);
    assert Pow2(n + 8) == 256 * Pow2(n);
    assert Pow2(n + 10) == 1024 * Pow2(n);
  }

  lemma Pow2Large(n: nat)
    requires n >= 33
    ensures Pow2(n) - 1 > 0x1_0000_0000
  {
    Pow2Eleven(0);
    Pow2Eleven(11);
    Pow2Eleven(22);
    Pow2Grows(33, n);
  }

  // ---------- the loops ----------

  /** The `unpack` loop of `lq_remove_first`: seven words a level. */
  method Unpack<D>(tree0: Item<D>, h: nat, head: Item<D>) returns (newHead: Item<D>, words: nat)
    requires IsPair(tree0, h)
    ensures newHead == Unpacked(tree0, h, head)
    ensures words == 7 * h + 3 && RowWords(newHead) == RowWords(head) + words
  {
    var tree := tree0;
    newHead, words := head, 0;
    ghost var level: nat := h;
    while tree.Item11?
      invariant level <= h && IsPair(tree, level)
      invariant Unpacked(tree, level, newHead) == Unpacked(tree0, h, head)
      invariant words == 7 * (h - level) && RowWords(newHead) == RowWords(head) + words
      decreases tree
    {
      var brother := tree.next;
      newHead := Item11(brother.height, brother.data, newHead, brother.right);
      newHead := Item01(tree.data, newHead);
      words := words + 7;
      tree := tree.right;
      level := level - 1;
    }
    tree := tree.next;
    newHead := Item01(tree.data, newHead);
    words := words + 3;
  }

  /** The `reverse` loop, from the second tree on, and the opening of the last tree. */
  method Reverse<D>(tail: Item<D>) returns (newHead: Item<D>, words: nat)
    requires TailOk(tail) && (tail.Item01? || tail.Item11?)
    ensures newHead == TurnedOver(tail, Nil)
    ensures words <= 4 * Trees(tail) + 7 * LastHeight(tail) + 3 && words == RowWords(newHead)
  {
    var p := if tail.Item01? then Item00(tail.data) else Item10(tail.height, tail.data, tail.right);
    words := if tail.Item01? then 2 else 3;
    var tree := tail.next;
    newHead := p;
    while tree.Item01? || tree.Item11?
      invariant Listed(tree) && tree != Nil && newHead != Nil
      invariant TurnedOver(tree, newHead) == TurnedOver(tail, Nil)
      invariant LastHeight(tree) == LastHeight(tail)
      invariant words <= 4 * (Trees(tail) - Trees(tree)) && words == RowWords(newHead)
      decreases tree
    {
      if tree.Item01? {
        p := Item01(tree.data, newHead);
        words := words + 3;
      } else {
        p := Item11(tree.height, tree.data, newHead, tree.right);
        words := words + 4;
      }
      newHead := p;
      tree := tree.next;
    }
    if tree.Item10? {
      var h := tree.height;
      newHead := Item01(tree.data, newHead);
      var more;
      newHead, more := Unpack(tree.right, h - 1, newHead);
      words := words + 3 + more;
    }
  }

  lemma TreeHeightBound(h: nat, items: nat)
    requires items >= Pow2(h + 1) - 1
    ensures items <= 0x1_0000_0000 ==> h <= 31
  {
    if h >= 32 {
      Pow2Large(h + 1);
    }
  }

  /** Up to 2^32 items no tree at the front of the head or at the end of the tail is higher than 31. */
  lemma HeightsAreBounded<D>(q: Queue<D>)
    requires Valid(q) && q.Entry?
    ensures q.head != Nil && |Contents(q)| <= 0x1_0000_0000 ==> Height(q.head) <= 31
    ensures q.head == Nil && |Contents(q)| <= 0x1_0000_0000 ==> LastHeight(q.tail) <= 31
    ensures q.head == Nil ==> Trees(q.tail) + Height(q.tail) <= LastHeight(q.tail) + 2
    ensures q.tail.Item10? ==> LastHeight(q.tail) == q.tail.height
  {
    if q.head != Nil {
      PerfectSize(q.head, Height(q.head));
      TreeHeightBound(Height(q.head), |Contents(q)|);
    } else {
      FewTrees(q.tail, true);
      TreeHeightBound(LastHeight(q.tail), |Contents(q)|);
    }
  }

  /** `lq_remove_first`: the loops compute `Removed`.  The words are those of a new entry point and of the
      cells of its head up to the one that the given head goes on with, and below 2^32 items they are no more
      than `LQ_REMOVE_MAX_ALLOCATION`. */
  method RemoveFirst<D>(q: Queue<D>) returns (r: Queue<D>, words: nat)
    requires Valid(q)
    ensures r == Removed(q)
    ensures r.Empty? ==> words == 0
    ensures r.Entry? && q.Entry? && (q.head.Item01? || q.head.Item11?) ==> words + RowWords(q.head.next) == 3 + RowWords(r.head)
    ensures r.Entry? && q.Entry? && !(q.head.Item01? || q.head.Item11?) ==> words == 3 + RowWords(r.head)
    ensures |Contents(q)| <= 0x1_0000_0000 ==> words <= LQ_REMOVE_MAX_ALLOCATION
  {
    hide Contents, HeadItems, TailItems, TreeItems, Skew, Unpacked, LastHeight, Trees;
    if q.Empty? {
      return Empty, 0;
    }
    if q.head != Nil {
      HeadLosesFirst(q.head);
    }
    match q.head {
      case Item00(_) =>
        if q.tail.Nil? {
          return Empty, 0;
        }
        return Entry(Nil, q.tail), 3;
      case Item01(_, n) =>
        return Entry(n, q.tail), 3;
      case Item10(h, d, right) =>
        HeightsAreBounded(q);
        var newHead, more := Unpack(right, h - 1, Item00(d));
        return Entry(newHead, q.tail), 5 + more;
      case Item11(h, d, n, right) =>
        HeightsAreBounded(q);
        var newHead, more := Unpack(right, h - 1, Item01(d, n));
        return Entry(newHead, q.tail), 6 + more;
      case Nil =>
    }
    TurnedOverItems(q.tail, Nil);
    HeightsAreBounded(q);
    if q.tail.Item00? {
      return Empty, 0;
    }
    var newHead, more;
    if q.tail.Item10? {
      newHead, more := Unpack(q.tail.right, q.tail.height - 1, Item00(q.tail.data));
      more := more + 2;
    } else {
      newHead, more := Reverse(q.tail);
    }
    return Entry(newHead, Nil), 3 + more;
  }

  // ---------- lq_get_first ----------

  /** `lq_get_first` goes to the right in the first tree of the tail. */
  method GetFirst<D>(q: Queue<D>) returns (data: D)
    requires Valid(q) && q.Entry? && q.tail != Nil
    ensures |TreeItems(q.tail)| <= |Contents(q)|
    ensures |TreeItems(q.tail)| > 0 && data == Contents(q)[|Contents(q)| - |TreeItems(q.tail)|]
  {
    var p := q.tail;
    PerfectSize(p, Height(p));
    ghost var h: nat := Height(p);
    while p.Item10? || p.Item11?
      invariant IsTree(p, h) && |TreeItems(p)| > 0 && TreeItems(p)[0] == TreeItems(q.tail)[0]
      decreases p
    {
      PairSize(p.right, h - 1);
      PerfectSize(p.right, h - 1);
      p := p.right;
      h := h - 1;
    }
    data := p.data;
    assert data == TreeItems(q.tail)[0];
    assert Contents(q)[|Contents(q)| - |TreeItems(q.tail)|..] == TreeItems(q.tail);
  }

  /** It stands at the front of the queue exactly when there is no head and the tail is one tree. */
  lemma GetFirstIsFrontIff<D>(q: Queue<D>)
    requires Valid(q) && q.Entry? && q.tail != Nil
    ensures |Contents(q)| - |TreeItems(q.tail)| == 0
            <==> q.head == Nil && (q.tail.Item00? || q.tail.Item10?)
  {
    ListedHasItems(q.head);
    if q.tail.Item01? || q.tail.Item11? {
      ListedHasItems(q.tail.next);
    }
  }
}
