/** The real-time queue of queue.c.  A queue header is copied and its copy changed; list
    cells are never changed, so a list is the sequence of its items. */
module RealTimeQueue {

  /** `CELL_queue` (slots 1-4) and `CELL_queue_rev` (slots 1-10); the empty queue is the null pointer. */
  datatype Queue<T> =
    | Empty
    | Plain(head: seq<T>, tail: seq<T>, headCount: int, tailCount: int)
    | Transfer(head: seq<T>, tail: seq<T>, headCount: int, tailCount: int,
               oldHead: seq<T>, revHead: seq<T>, oldTail: seq<T>, newHead: seq<T>, moved: int, atStart: int)

  const WORDS_IN_QUEUE_HEADER: int := 5
  const CONS_MAX_ALLOCATION: int := 3
  const QUEUE_MAX_ALLOCATION: int := 3 + WORDS_IN_QUEUE_HEADER + WORDS_IN_QUEUE_HEADER + 6 + 3 * 2 * 3

  function Reverse<T>(s: seq<T>): (r: seq<T>)
    ensures |r| == |s|
  {
    if s == [] then [] else Reverse(s[1..]) + [s[0]]
  }

  // ---------- what a queue holds ----------

  /** The head as it was when the transfer started: turned over, turned back, or not yet reached. */
  ghost function HeadAtStart<T>(q: Queue<T>): seq<T>
    requires q.Transfer? && 0 <= q.moved <= |q.newHead|
  {
    Reverse(q.revHead) + q.newHead[..q.moved] + q.oldHead
  }

  /** The items behind the head that the transfer is putting in place. */
  ghost function BehindHead<T>(q: Queue<T>): seq<T>
    requires q.Transfer? && 0 <= q.moved <= |q.newHead|
  {
    Reverse(q.oldTail) + q.newHead[q.moved..]
  }

  /** The number of calls since the transfer started: two pairs of items move in each call of
      phase one, two items in each call of phase two. */
  function CallsSinceStart<T>(q: Queue<T>): int
    requires q.Transfer?
  {
    (q.atStart - 2 - q.atStart % 2 - |q.oldHead|) / 2 + q.moved / 2
  }

  ghost predicate TransferValid<T>(q: Queue<T>)
    requires q.Transfer?
  {
    && q.atStart >= 2
    && q.headCount == |q.head| && q.tailCount == |q.tail|
    && 0 <= q.moved <= |q.newHead|
    // both lists run out together, two items at a time
    && |q.oldHead| == |q.oldTail| && |q.oldHead| % 2 == 0
    && |q.oldHead| <= q.atStart - 2 - q.atStart % 2
    && (|q.oldHead| > 0 ==> q.moved == 0)
    // no item of the old head is lost, and the head is what is left of it
    && |HeadAtStart(q)| == q.atStart
    && |BehindHead(q)| == q.atStart + 1
    && q.headCount <= q.atStart
    && q.head == HeadAtStart(q)[q.atStart - q.headCount..]
    // the transfer keeps ahead of removals and insertions
    && q.moved < q.headCount
    && (q.atStart - q.headCount) + q.tailCount == CallsSinceStart(q)
  }

  ghost predicate Valid<T>(q: Queue<T>) {
    match q
    case Empty => true
    case Plain(h, t, n, m) => n == |h| && m == |t| && m <= n && n >= 1
    case Transfer(_, _, _, _, _, _, _, _, _, _) => TransferValid(q)
  }

  /** The items of the queue, first to last. */
  ghost function Contents<T>(q: Queue<T>): seq<T>
    requires Valid(q)
  {
    match q
    case Empty => []
    case Plain(h, t, _, _) => h + Reverse(t)
    case Transfer(h, t, _, _, _, _, _, _, _, _) => h + BehindHead(q) + Reverse(t)
  }

  // ---------- what a call may make ----------

  /** List `r` is `n` new cells in front of a rest of list `s`. */
  ghost predicate Conses<T>(r: seq<T>, s: seq<T>, n: nat) {
    n <= |r| <= n + |s| && r[n..] == s[|s| - (|r| - n)..]
  }

  ghost function Lists<T>(q: Queue<T>): seq<seq<T>> {
    match q
    case Empty => [[]]
    case Plain(h, t, _, _) => [[], h, t]
    case Transfer(h, t, _, _, oh, rh, ot, nh, _, _) => [[], h, t, oh, rh, ot, nh]
  }

  /** With `n` new cells a list is made from nothing, or from a list of queue `q`. */
  ghost predicate IsMade<T>(r: seq<T>, q: Queue<T>, n: nat) {
    exists k | 0 <= k < |Lists(q)| :: Conses(r, Lists(q)[k], n)
  }

  /** A header and new cells of so many words are enough to make `q` from the lists of queue `given`. */
  ghost predicate MadeWithin<T>(q: Queue<T>, given: Queue<T>, words: int) {
    match q
    case Empty => true
    case Plain(h, t, _, _) =>
      exists a: nat, b: nat | WORDS_IN_QUEUE_HEADER + (a + b) * CONS_MAX_ALLOCATION <= words ::
        IsMade(h, given, a) && IsMade(t, given, b)
    case Transfer(h, t, _, _, oh, rh, ot, nh, _, _) =>
      && IsMade(h, given, 0) && IsMade(oh, given, 0) && IsMade(ot, given, 0)
      && exists a: nat, b: nat, c: nat | WORDS_IN_QUEUE_HEADER + 6 + (a + b + c) * CONS_MAX_ALLOCATION <= words ::
           IsMade(t, given, a) && IsMade(rh, given, b) && IsMade(nh, given, c)
  }

  lemma Made<T>(r: seq<T>, q: Queue<T>, k: nat, n: nat)
    requires k < |Lists(q)| && Conses(r, Lists(q)[k], n)
    ensures IsMade(r, q, n)
  {
  }

  lemma OneMore<T>(r: seq<T>, s: seq<T>, n: nat, x: T)
    requires Conses(r, s, n)
    ensures Conses([x] + r, s, n + 1)
  {
    assert ([x] + r)[n + 1..] == r[n..];
  }

  lemma OneLess<T>(r: seq<T>, s: seq<T>)
    requires Conses(r, s, 0) && r != []
    ensures Conses(r[1..], s, 0)
  {
  }

  lemma Same<T>(r: seq<T>)
    ensures Conses(r, r, 0)
  {
  }

  lemma MadeAnew<T>(r: seq<T>, q: Queue<T>)
    ensures IsMade(r, q, |r|)
  {
    assert Conses(r, Lists(q)[0], |r|);
  }

  // ---------- the steps of the transfer ----------

  /** Phase one: an item from the old head to the reversed head, one from the old tail to the new head. */
  function MovePair<T>(q: Queue<T>): Queue<T>
    requires q.Transfer? && q.oldHead != [] && q.oldTail != []
  {
    q.(revHead := [q.oldHead[0]] + q.revHead, oldHead := q.oldHead[1..],
       newHead := [q.oldTail[0]] + q.newHead, oldTail := q.oldTail[1..])
  }

  /** Phase two: an item from the reversed head to the new head. */
  function MoveBack<T>(q: Queue<T>): Queue<T>
    requires q.Transfer? && q.revHead != []
  {
    q.(newHead := [q.revHead[0]] + q.newHead, revHead := q.revHead[1..], moved := q.moved + 1)
  }

  lemma MovePairKeepsItems<T>(q: Queue<T>)
    requires q.Transfer? && q.oldHead != [] && q.oldTail != [] && q.moved == 0
    ensures HeadAtStart(MovePair(q)) == HeadAtStart(q) && BehindHead(MovePair(q)) == BehindHead(q)
  {
    var r := MovePair(q);
    assert r.revHead[1..] == q.revHead;
    assert [q.oldHead[0]] + q.oldHead[1..] == q.oldHead;
    assert HeadAtStart(r) == HeadAtStart(q);
    assert BehindHead(r) == BehindHead(q);
  }

  lemma MoveBackKeepsItems<T>(q: Queue<T>)
    requires q.Transfer? && q.revHead != [] && 0 <= q.moved <= |q.newHead|
    ensures HeadAtStart(MoveBack(q)) == HeadAtStart(q) && BehindHead(MoveBack(q)) == BehindHead(q)
  {
    var r := MoveBack(q);
    assert r.newHead[..r.moved] == [q.revHead[0]] + q.newHead[..q.moved];
    assert r.newHead[r.moved..] == q.newHead[q.moved..];
    assert HeadAtStart(r) == HeadAtStart(q);
  }

  /** What is fixed while a transfer moves items: all that the abstract queue depends on. */
  ghost predicate SameItems<T>(q: Queue<T>, r: Queue<T>) {
    && q.Transfer? && r.Transfer?
    && 0 <= q.moved <= |q.newHead| && 0 <= r.moved <= |r.newHead|
    && HeadAtStart(r) == HeadAtStart(q) && BehindHead(r) == BehindHead(q)
    && r.head == q.head && r.tail == q.tail && r.headCount == q.headCount && r.tailCount == q.tailCount
    && r.atStart == q.atStart
  }

  /** The loop that starts a transfer (queue.c:108-117 and 229-234): two pairs, or three. */
  method StartTransfer<T>(start: Queue<T>) returns (q: Queue<T>, words: nat)
    requires start.Transfer? && start.moved == 0 && start.revHead == []
    requires start.atStart >= 2 && start.headCount == start.atStart
    requires |start.oldHead| == |start.oldTail| == start.atStart
    ensures SameItems(start, q) && q.moved == 0
    ensures |q.oldHead| == |q.oldTail| == start.atStart - 2 - start.atStart % 2
    ensures words <= 6 * CONS_MAX_ALLOCATION
    ensures var n := start.atStart - |q.oldHead|;
            && words == 2 * n * CONS_MAX_ALLOCATION && |q.revHead| == n && |q.newHead| == |start.newHead| + n
            && Conses(q.oldHead, start.oldHead, 0) && Conses(q.oldTail, start.oldTail, 0)
  {
    q, words := start, 0;
    for i := 0 to 2 + start.headCount % 2
      invariant SameItems(start, q) && q.moved == 0
      invariant |q.oldHead| == |q.oldTail| == start.atStart - i
      invariant words == 2 * i * CONS_MAX_ALLOCATION && |q.revHead| == i && |q.newHead| == |start.newHead| + i
      invariant q.oldHead == start.oldHead[i..] && q.oldTail == start.oldTail[i..]
    {
      MovePairKeepsItems(q);
      q := q.(revHead := [q.oldHead[0]] + q.revHead, oldHead := q.oldHead[1..]);
      q := q.(newHead := [q.oldTail[0]] + q.newHead, oldTail := q.oldTail[1..]);
      words := words + 2 * CONS_MAX_ALLOCATION;
    }
  }

  /** A copied header whose head or tail has just changed, one call ahead of its transfer. */
  ghost predicate Pending<T>(q: Queue<T>) {
    && q.Transfer?
    && q.atStart >= 2
    && q.headCount == |q.head| && q.tailCount == |q.tail|
    && 0 <= q.moved <= |q.newHead|
    && |q.oldHead| == |q.oldTail| && |q.oldHead| % 2 == 0
    && |q.oldHead| <= q.atStart - 2 - q.atStart % 2
    && (|q.oldHead| > 0 ==> q.moved == 0)
    && |HeadAtStart(q)| == q.atStart
    && |BehindHead(q)| == q.atStart + 1
    && 1 <= q.headCount <= q.atStart
    && q.head == HeadAtStart(q)[q.atStart - q.headCount..]
    && q.moved <= q.headCount
    && (q.atStart - q.headCount) + q.tailCount == CallsSinceStart(q) + 1
  }

  /** Some items have been put back, with a new cell each. */
  ghost predicate BackSoFar<T>(pending: Queue<T>, q: Queue<T>, words: int) {
    && SameItems(pending, q) && q.oldHead == [] && q.oldTail == []
    && pending.moved <= q.moved && |q.revHead| == q.atStart - q.moved
    && words == (q.moved - pending.moved) * CONS_MAX_ALLOCATION
    && Conses(q.newHead, pending.newHead, q.moved - pending.moved) && Conses(q.revHead, pending.revHead, 0)
  }

  lemma NoneBack<T>(q: Queue<T>)
    requires Pending(q) && q.oldHead == []
    ensures BackSoFar(q, q, 0)
  {
  }

  lemma OneBack<T>(pending: Queue<T>, q: Queue<T>, words: int)
    requires BackSoFar(pending, q, words) && q.moved < q.atStart
    ensures BackSoFar(pending, MoveBack(q), words + CONS_MAX_ALLOCATION)
  {
    hide Conses, HeadAtStart, BehindHead;
    MoveBackKeepsItems(q);
    OneMore(q.newHead, pending.newHead, q.moved - pending.moved, q.revHead[0]);
    OneLess(q.revHead, pending.revHead);
  }

  lemma HasGone<T>(pending: Queue<T>, q: Queue<T>, words: int)
    requires BackSoFar(pending, q, words)
    ensures q.Transfer? && q.headCount == pending.headCount && q.atStart == pending.atStart
    ensures |q.revHead| == q.atStart - q.moved && q.oldHead == [] && q.oldTail == []
  {
  }

  /** Phase two of one call: the odd item first, then up to two more. */
  method PutBack<T>(pending: Queue<T>) returns (q: Queue<T>, words: nat)
    requires Pending(pending) && pending.oldHead == []
    ensures BackSoFar(pending, q, words)
    ensures SameItems(pending, q) && q.oldHead == [] && q.oldTail == []
    ensures q.moved <= q.headCount
    ensures q.moved < q.headCount ==> q.moved / 2 == pending.moved / 2 + 1
    ensures words <= 3 * CONS_MAX_ALLOCATION
  {
    hide BackSoFar, HeadAtStart, BehindHead;
    q, words := pending, 0;
    NoneBack(q);
    if q.moved == 0 && q.headCount % 2 == 1 {
      HasGone(pending, q, words);
      OneBack(pending, q, words);
      q := q.(newHead := [q.revHead[0]] + q.newHead, revHead := q.revHead[1..], moved := q.moved + 1);
      words := words + CONS_MAX_ALLOCATION;
    }
    ghost var first := q.moved;
    var i := 0;
    HasGone(pending, q, words);
    while i < 2 && q.headCount > q.moved
      invariant 0 <= i <= 2 && q.Transfer? && BackSoFar(pending, q, words)
      invariant q.headCount == pending.headCount && q.moved == first + i <= q.headCount
      invariant words == (first - pending.moved + i) * CONS_MAX_ALLOCATION
    {
      HasGone(pending, q, words);
      OneBack(pending, q, words);
      q := q.(newHead := [q.revHead[0]] + q.newHead, revHead := q.revHead[1..], moved := q.moved + 1);
      words := words + CONS_MAX_ALLOCATION;
      i := i + 1;
    }
    BackIsSame(pending, q, words);
  }

  lemma BackIsSame<T>(pending: Queue<T>, q: Queue<T>, words: int)
    requires BackSoFar(pending, q, words)
    ensures SameItems(pending, q) && q.oldHead == [] && q.oldTail == []
  {
  }

  /** Phase one of one call: two pairs. */
  method TurnOver<T>(pending: Queue<T>) returns (q: Queue<T>, words: nat)
    requires Pending(pending) && pending.oldHead != []
    ensures SameItems(pending, q) && q.moved == 0
    ensures |q.oldHead| == |q.oldTail| == |pending.oldHead| - 2
    ensures words == 4 * CONS_MAX_ALLOCATION
    ensures Conses(q.revHead, pending.revHead, 2) && Conses(q.newHead, pending.newHead, 2)
    ensures Conses(q.oldHead, pending.oldHead, 0) && Conses(q.oldTail, pending.oldTail, 0)
  {
    q := pending;
    MovePairKeepsItems(q);
    MovePairKeepsItems(MovePair(q));
    q := q.(revHead := [q.oldHead[0]] + q.revHead, oldHead := q.oldHead[1..]);
    q := q.(revHead := [q.oldHead[0]] + q.revHead, oldHead := q.oldHead[1..]);
    q := q.(newHead := [q.oldTail[0]] + q.newHead, oldTail := q.oldTail[1..]);
    q := q.(newHead := [q.oldTail[0]] + q.newHead, oldTail := q.oldTail[1..]);
    assert q == MovePair(MovePair(pending));
    words := 4 * CONS_MAX_ALLOCATION;
  }

  /** What one call's share makes: new cells in front of the two lists that grow, and a header at the end. */
  ghost predicate Advanced<T>(q: Queue<T>, pending: Queue<T>, words: int)
    requires pending.Transfer?
  {
    match q
    case Empty => false
    case Plain(h, t, _, _) =>
      t == pending.tail
      && exists n: nat | WORDS_IN_QUEUE_HEADER + n * CONS_MAX_ALLOCATION <= words :: Conses(h, pending.newHead, n)
    case Transfer(h, t, _, _, oh, rh, ot, nh, _, _) =>
      && h == pending.head && t == pending.tail
      && Conses(oh, pending.oldHead, 0) && Conses(ot, pending.oldTail, 0)
      && exists b: nat, c: nat | (b + c) * CONS_MAX_ALLOCATION <= words ::
           Conses(rh, pending.revHead, b) && Conses(nh, pending.newHead, c)
  }

  /** One call's share of the transfer (queue.c:143-177 and 263-299). */
  method Advance<T>(pending: Queue<T>) returns (q: Queue<T>, words: nat)
    requires Pending(pending)
    ensures Valid(q) && Contents(q) == pending.head + BehindHead(pending) + Reverse(pending.tail)
    ensures words <= 3 * CONS_MAX_ALLOCATION + WORDS_IN_QUEUE_HEADER && Advanced(q, pending, words)
  {
    hide Conses, HeadAtStart, Reverse;
    if pending.oldHead == [] {
      Same(pending.oldHead);
      q, words := PutBack(pending);
      ghost var n: nat := q.moved - pending.moved;
      assert Conses(q.newHead, pending.newHead, n);
      if q.headCount == q.moved {
        TransferIsDone(q);
        q := Plain(q.newHead, q.tail, q.headCount + q.atStart + 1, q.tailCount);
        words := words + WORDS_IN_QUEUE_HEADER;
        TailFits(pending);
      }
    } else {
      q, words := TurnOver(pending);
    }
  }

  /** When all that is left of the head has been put back, the new head holds the head and what was behind it. */
  lemma TransferIsDone<T>(q: Queue<T>)
    requires q.Transfer? && 0 <= q.moved == q.headCount <= |q.newHead| && q.oldHead == [] && q.oldTail == []
    requires |HeadAtStart(q)| == q.atStart && q.headCount <= q.atStart
    requires q.head == HeadAtStart(q)[q.atStart - q.headCount..]
    ensures q.newHead == q.head + BehindHead(q)
  {
    assert |Reverse(q.revHead)| == q.atStart - q.moved;
    assert HeadAtStart(q)[q.atStart - q.moved..] == q.newHead[..q.moved];
    assert BehindHead(q) == q.newHead[q.moved..];
  }

  /** The tail cannot have grown past the new head. */
  lemma TailFits<T>(q: Queue<T>)
    requires Pending(q)
    ensures q.tailCount <= q.headCount + q.atStart + 1
  {
  }

  // ---------- the operations ----------

  lemma {:induction false} ReverseSnoc<T>(s: seq<T>, x: T)
    ensures Reverse([x] + s) == Reverse(s) + [x]
  {
    assert ([x] + s)[1..] == s;
  }

  lemma ReverseTwo<T>(s: seq<T>)
    requires |s| == 2
    ensures Reverse(s) == [s[1], s[0]]
  {
    assert s[1..] == [s[1]];
    assert Reverse([s[1]]) == Reverse([s[1]][1..]) + [s[1]] == [s[1]];
  }

  lemma ReverseOne<T>(s: seq<T>)
    requires |s| == 1
    ensures Reverse(s) == s
  {
    assert s == [s[0]] && s[1..] == [];
  }

  /** A transfer about to start from a head and a tail of equal length, with one more item behind them. */
  lemma AtStart<T>(q: Queue<T>)
    requires q.Transfer? && q.head == q.oldHead && q.revHead == [] && q.moved == 0 && |q.newHead| == 1
    requires |q.oldTail| == |q.oldHead| == q.atStart
    ensures HeadAtStart(q) == q.head && BehindHead(q) == Reverse(q.oldTail) + q.newHead
  {
  }

  /** Once the starting moves are made, the queue is a valid transfer with the same items. */
  lemma Started<T>(start: Queue<T>, q: Queue<T>)
    requires start.Transfer? && start.head == start.oldHead && start.revHead == [] && start.moved == 0
    requires |start.newHead| == 1 && start.tail == [] && start.tailCount == 0
    requires |start.oldTail| == |start.oldHead| == start.atStart == start.headCount >= 2
    requires SameItems(start, q) && q.moved == 0
    requires |q.oldHead| == |q.oldTail| == start.atStart - 2 - start.atStart % 2
    ensures Valid(q) && Contents(q) == start.head + Reverse(start.oldTail) + start.newHead
  {
    AtStart(start);
    assert HeadAtStart(q)[0..] == q.head;
    assert Contents(q) == start.head + (Reverse(start.oldTail) + start.newHead) + [];
  }

  /** A queue after its share of the transfer is made from what the given queue had, with `a` new cells in its tail. */
  lemma AdvancedIsMade<T>(q: Queue<T>, pending: Queue<T>, given: Queue<T>, a: nat, words: int)
    requires given.Transfer? && pending.Transfer? && Advanced(q, pending, words)
    requires Conses(pending.head, given.head, 0) && Conses(pending.tail, given.tail, a)
    requires pending.oldHead == given.oldHead && pending.revHead == given.revHead
    requires pending.oldTail == given.oldTail && pending.newHead == given.newHead
    ensures MadeWithin(q, given, words + WORDS_IN_QUEUE_HEADER + 6 + a * CONS_MAX_ALLOCATION)
  {
    match q
    case Plain(h, t, _, _) =>
      var n: nat :| WORDS_IN_QUEUE_HEADER + n * CONS_MAX_ALLOCATION <= words && Conses(h, pending.newHead, n);
      Made(h, given, 6, n);
      Made(t, given, 2, a);
    case Transfer(h, t, _, _, oh, rh, ot, nh, _, _) =>
      var b: nat, c: nat :| (b + c) * CONS_MAX_ALLOCATION <= words
                            && Conses(rh, pending.revHead, b) && Conses(nh, pending.newHead, c);
      Made(h, given, 1, 0);
      Made(t, given, 2, a);
      Made(oh, given, 3, 0);
      Made(rh, given, 4, b);
      Made(ot, given, 5, 0);
      Made(nh, given, 6, c);
  }

  /** A transfer that has just been started from a head and a tail of the given queue. */
  lemma StartIsMade<T>(start: Queue<T>, q: Queue<T>, given: Queue<T>, n: nat)
    requires given.Plain? && start.Transfer? && q.Transfer? && q.head == start.head && q.tail == []
    requires Conses(start.head, given.head, 0) && Conses(q.oldHead, given.head, 0) && Conses(q.oldTail, given.tail, 0)
    requires |q.revHead| == n && |q.newHead| == n + 1
    ensures MadeWithin(q, given, 2 * n * CONS_MAX_ALLOCATION + WORDS_IN_QUEUE_HEADER + 6 + CONS_MAX_ALLOCATION)
  {
    Made(q.head, given, 1, 0);
    Made(q.oldHead, given, 1, 0);
    Made(q.oldTail, given, 2, 0);
    MadeAnew(q.tail, given);
    MadeAnew(q.revHead, given);
    MadeAnew(q.newHead, given);
    assert WORDS_IN_QUEUE_HEADER + 6 + (0 + n + (n + 1)) * CONS_MAX_ALLOCATION
           <= 2 * n * CONS_MAX_ALLOCATION + WORDS_IN_QUEUE_HEADER + 6 + CONS_MAX_ALLOCATION;
  }

  lemma PlainIsMade<T>(q: Queue<T>, given: Queue<T>, a: nat, b: nat)
    requires q.Plain? && IsMade(q.head, given, a) && IsMade(q.tail, given, b)
    ensures MadeWithin(q, given, WORDS_IN_QUEUE_HEADER + (a + b) * CONS_MAX_ALLOCATION)
  {
  }

  lemma ThreeAnew<T>(head: seq<T>, given: Queue<T>)
    requires |head| == 3
    ensures MadeWithin(Plain(head, [], 3, 0), given, WORDS_IN_QUEUE_HEADER + 3 * CONS_MAX_ALLOCATION)
  {
    hide MadeWithin, IsMade;
    MadeAnew(head, given);
    MadeAnew([], given);
    PlainIsMade(Plain(head, [], 3, 0), given, 3, 0);
  }

  /** Inserting while the tail is shorter than the head. */
  lemma Appended<T>(head: seq<T>, tail: seq<T>, n: int, m: int, data: T)
    requires Valid(Plain(head, tail, n, m)) && n != m
    ensures var queue, q := Plain(head, tail, n, m), Plain(head, [data] + tail, n, m + 1);
            && Valid(q) && Contents(q) == Contents(queue) + [data]
            && MadeWithin(q, queue, WORDS_IN_QUEUE_HEADER + CONS_MAX_ALLOCATION)
  {
    var queue, q := Plain(head, tail, n, m), Plain(head, [data] + tail, n, m + 1);
    ReverseSnoc(tail, data);
    assert Contents(q) == Contents(queue) + [data];
    Made(head, queue, 1, 0);
    Made([data] + tail, queue, 2, 1);
    PlainIsMade(q, queue, 0, 1);
  }

  lemma ThirdAppended<T>(head: seq<T>, tail: seq<T>, data: T)
    requires |head| == |tail| == 1
    ensures var queue, q := Plain(head, tail, 1, 1), Plain([head[0]] + ([tail[0]] + [data]), [], 3, 0);
            && Valid(q) && Contents(q) == Contents(queue) + [data]
            && MadeWithin(q, queue, WORDS_IN_QUEUE_HEADER + 3 * CONS_MAX_ALLOCATION)
  {
    var queue, q := Plain(head, tail, 1, 1), Plain([head[0]] + ([tail[0]] + [data]), [], 3, 0);
    ReverseOne(tail);
    assert Contents(queue) == [head[0], tail[0]];
    ThreeAnew(q.head, queue);
  }

  /** Inserting during a transfer leaves it one call behind. */
  lemma InsertionIsPending<T>(queue: Queue<T>, pending: Queue<T>, data: T)
    requires queue.Transfer? && Valid(queue)
    requires pending == Transfer(queue.head, [data] + queue.tail, queue.headCount, queue.tailCount + 1, queue.oldHead,
                                 queue.revHead, queue.oldTail, queue.newHead, queue.moved, queue.atStart)
    ensures Pending(pending)
    ensures pending.head + BehindHead(pending) + Reverse(pending.tail) == Contents(queue) + [data]
    ensures Conses(pending.head, queue.head, 0) && Conses(pending.tail, queue.tail, 1)
  {
    ReverseSnoc(queue.tail, data);
    assert HeadAtStart(pending) == HeadAtStart(queue) && BehindHead(pending) == BehindHead(queue);
    assert CallsSinceStart(pending) == CallsSinceStart(queue);
    assert Contents(queue) == queue.head + BehindHead(queue) + Reverse(queue.tail);
  }

  /** `queue_insert_last`. */
  method InsertLast<T>(queue: Queue<T>, data: T) returns (q: Queue<T>, words: nat)
    requires Valid(queue)
    ensures Valid(q) && Contents(q) == Contents(queue) + [data]
    ensures words <= QUEUE_MAX_ALLOCATION && MadeWithin(q, queue, words)
  {
    hide MadeWithin, Conses, HeadAtStart, Pending, Advanced, TransferValid;
    match queue
    case Empty =>
      q := Plain([data], [], 1, 0);
      words := WORDS_IN_QUEUE_HEADER + CONS_MAX_ALLOCATION;
      MadeAnew(q.head, queue);
      MadeAnew(q.tail, queue);
      PlainIsMade(q, queue, 1, 0);
    case Plain(head, tail, headCount, tailCount) =>
      if headCount == tailCount {
        if headCount == 1 {
          var list := [data];
          list := [tail[0]] + list;
          q := Plain([head[0]] + list, [], 3, 0);
          words := WORDS_IN_QUEUE_HEADER + 3 * CONS_MAX_ALLOCATION;
          ThirdAppended(head, tail, data);
        } else {
          var start := Transfer(head, [], headCount, 0, head, [], tail, [data], 0, headCount);
          q, words := StartTransfer(start);
          Started(start, q);
          Same(head);
          StartIsMade(start, q, queue, start.atStart - |q.oldHead|);
          words := words + WORDS_IN_QUEUE_HEADER + 6 + CONS_MAX_ALLOCATION;
        }
      } else {
        q := Plain(head, [data] + tail, headCount, tailCount + 1);
        words := WORDS_IN_QUEUE_HEADER + CONS_MAX_ALLOCATION;
        Appended(head, tail, headCount, tailCount, data);
      }
    case Transfer(head, tail, headCount, tailCount, oldHead, revHead, oldTail, newHead, moved, atStart) =>
      var pending := Transfer(head, [data] + tail, headCount, tailCount + 1,
                              oldHead, revHead, oldTail, newHead, moved, atStart);
      InsertionIsPending(queue, pending, data);
      q, words := Advance(pending);
      AdvancedIsMade(q, pending, queue, 1, words);
      words := words + WORDS_IN_QUEUE_HEADER + 6 + CONS_MAX_ALLOCATION;
  }

  /** A transfer never lets the head run out: one more item can be taken from it. */
  lemma HeadOutlastsTransfer<T>(q: Queue<T>)
    requires q.Transfer? && Valid(q)
    ensures q.headCount >= 2
  {
  }

  /** A queue with items has one in its head. */
  lemma HeadIsFirst<T>(q: Queue<T>)
    requires Valid(q) && !q.Empty?
    ensures |q.head| > 0 && Contents(q) != [] && Contents(q)[0] == q.head[0]
  {
  }

  /** `QUEUE_GET_FIRST`. */
  method GetFirst<T>(queue: Queue<T>) returns (data: T)
    requires Valid(queue) && !queue.Empty?
    ensures data == Contents(queue)[0]
  {
    HeadIsFirst(queue);
    data := queue.head[0];
  }

  lemma OneOfTwoLeft<T>(head: seq<T>, tail: seq<T>)
    requires |head| == |tail| == 1
    ensures var q := Plain(tail, [], 1, 0);
            && Valid(q) && Contents(q) == head[1..] + Reverse(tail)
            && MadeWithin(q, Plain(head, tail, 1, 1), WORDS_IN_QUEUE_HEADER)
  {
    var given, q := Plain(head, tail, 1, 1), Plain(tail, [], 1, 0);
    ReverseOne(tail);
    Made(tail, given, 2, 0);
    MadeAnew(q.tail, given);
    PlainIsMade(q, given, 0, 0);
  }

  lemma OnlyHead<T>(head: seq<T>)
    requires |head| > 0
    ensures Valid(Plain(head, [], |head|, 0)) && Contents(Plain(head, [], |head|, 0)) == head
  {
  }

  lemma ThreeOfFourLeft<T>(head: seq<T>, tail: seq<T>)
    requires |head| == |tail| == 2
    ensures var q := Plain([head[1]] + ([tail[1]] + [tail[0]]), [], 3, 0);
            && Valid(q) && Contents(q) == head[1..] + Reverse(tail)
            && MadeWithin(q, Plain(head, tail, 2, 2), WORDS_IN_QUEUE_HEADER + 3 * CONS_MAX_ALLOCATION)
  {
    hide MadeWithin, IsMade, Reverse, Contents;
    var given, q := Plain(head, tail, 2, 2), Plain([head[1]] + ([tail[1]] + [tail[0]]), [], 3, 0);
    assert [tail[1]] + [tail[0]] == Reverse(tail) by { ReverseTwo(tail); }
    assert head[1..] == [head[1]];
    OnlyHead(q.head);
    ThreeAnew(q.head, given);
  }

  lemma RestIsOver<T>(s: seq<T>, r: seq<T>)
    requires |s| > 0
    ensures Conses(s[1..], s, 0) && (Conses(r, s[1..], 0) ==> Conses(r, s, 0))
  {
  }

  /** `queue_remove_first` when head and tail are equally long (queue.c:195-235). */
  method RemoveFromBalanced<T>(head: seq<T>, tail: seq<T>) returns (q: Queue<T>, words: nat)
    requires |head| == |tail| >= 1
    ensures Valid(q) && !q.Empty? && Contents(q) == head[1..] + Reverse(tail)
    ensures words <= QUEUE_MAX_ALLOCATION && MadeWithin(q, Plain(head, tail, |head|, |tail|), words)
  {
    hide MadeWithin, TransferValid, Contents, Conses;
    ghost var given := Plain(head, tail, |head|, |tail|);
    var headCount := |head|;
    if headCount == 1 {
      q := Plain(tail, [], 1, 0);
      words := WORDS_IN_QUEUE_HEADER;
      OneOfTwoLeft(head, tail);
    } else if headCount == 2 {
      var list := [tail[0]];
      list := [tail[1]] + list;
      q := Plain([head[1]] + list, [], 3, 0);
      words := WORDS_IN_QUEUE_HEADER + 3 * CONS_MAX_ALLOCATION;
      ThreeOfFourLeft(head, tail);
    } else {
      var start := Transfer(head[1..], [], headCount - 1, 0, head[1..], [], tail[1..], [tail[0]], 0, headCount - 1);
      q, words := StartTransfer(start);
      Started(start, q);
      RestIsOver(head, q.oldHead);
      RestIsOver(tail, q.oldTail);
      StartIsMade(start, q, given, start.atStart - |q.oldHead|);
      words := words + WORDS_IN_QUEUE_HEADER + 6 + CONS_MAX_ALLOCATION;
      assert head[1..] + Reverse(tail) == head[1..] + Reverse(tail[1..]) + [tail[0]];
    }
  }

  lemma WithoutFirst<T>(a: seq<T>, b: seq<T>, c: seq<T>)
    requires |a| > 0
    ensures (a + b + c)[1..] == a[1..] + b + c
  {
  }

  /** Taking the first item off the head leaves the transfer one call behind, and no more. */
  lemma RemovalIsPending<T>(queue: Queue<T>, pending: Queue<T>)
    requires queue.Transfer? && TransferValid(queue)
    requires pending == Transfer(queue.head[1..], queue.tail, queue.headCount - 1, queue.tailCount, queue.oldHead,
                                 queue.revHead, queue.oldTail, queue.newHead, queue.moved, queue.atStart)
    ensures Pending(pending) && BehindHead(pending) == BehindHead(queue)
  {
    var n := queue.atStart - queue.headCount;
    assert HeadAtStart(pending) == HeadAtStart(queue);
    assert HeadAtStart(queue)[n..][1..] == HeadAtStart(queue)[n + 1..];
    assert CallsSinceStart(pending) == CallsSinceStart(queue);
  }

  /** `queue_remove_first` during a transfer (queue.c:248-299). */
  method RemoveFromTransfer<T>(queue: Queue<T>) returns (q: Queue<T>, words: nat)
    requires queue.Transfer? && Valid(queue)
    ensures Valid(q) && Contents(q) == Contents(queue)[1..] && |Contents(queue)| > 1
    ensures words <= QUEUE_MAX_ALLOCATION && MadeWithin(q, queue, words)
  {
    hide MadeWithin, Advanced;
    HeadOutlastsTransfer(queue);
    var Transfer(head, tail, headCount, tailCount, oldHead, revHead, oldTail, newHead, moved, atStart) := queue;
    var pending := Transfer(head[1..], tail, headCount - 1, tailCount,
                            oldHead, revHead, oldTail, newHead, moved, atStart);
    RemovalIsPending(queue, pending);
    q, words := Advance(pending);
    Same(tail);
    AdvancedIsMade(q, pending, queue, 0, words);
    words := words + WORDS_IN_QUEUE_HEADER + 6;
    WithoutFirst(head, BehindHead(queue), Reverse(tail));
  }

  /** `queue_remove_first`. */
  method RemoveFirst<T>(queue: Queue<T>) returns (q: Queue<T>, words: nat)
    requires Valid(queue) && !queue.Empty?
    ensures Valid(q) && Contents(queue) != [] && Contents(q) == Contents(queue)[1..]
    ensures q.Empty? <==> |Contents(queue)| == 1
    ensures words <= QUEUE_MAX_ALLOCATION && MadeWithin(q, queue, words)
  {
    match queue
    case Plain(head, tail, headCount, tailCount) =>
      assert Contents(queue)[1..] == head[1..] + Reverse(tail);
      if headCount == tailCount {
        q, words := RemoveFromBalanced(head, tail);
      } else if headCount == 1 && tailCount == 0 {
        q, words := Empty, 0;
      } else {
        q := Plain(head[1..], tail, headCount - 1, tailCount);
        words := WORDS_IN_QUEUE_HEADER;
        Made(q.head, queue, 1, 0);
        Made(tail, queue, 2, 0);
        PlainIsMade(q, queue, 0, 0);
      }
    case Transfer(_, _, _, _, _, _, _, _, _, _) =>
      q, words := RemoveFromTransfer(queue);
  }

  // ---------- every sequence of operations ----------

  datatype Operation<T> = Insert(data: T) | Remove

  /** The first-in first-out sequence that the operations describe, and the items it gives out. */
  function Fifo<T>(start: seq<T>, ops: seq<Operation<T>>): (r: (seq<T>, seq<T>))
    decreases |ops|
  {
    if ops == [] then (start, [])
    else
      var (before, out) := Fifo(start, ops[..|ops| - 1]);
      match ops[|ops| - 1]
      case Insert(data) => (before + [data], out)
      case Remove => if before == [] then (before, out) else (before[1..], out + [before[0]])
  }

  /** Any sequence of operations on the queue gives out what the abstract sequence gives out,
      in the same order. */
  method Run<T>(ops: seq<Operation<T>>) returns (q: Queue<T>, out: seq<T>)
    ensures Valid(q) && (Contents(q), out) == Fifo([], ops)
  {
    q, out := Empty, [];
    for i := 0 to |ops|
      invariant Valid(q) && (Contents(q), out) == Fifo([], ops[..i])
    {
      assert ops[..i + 1][..i] == ops[..i];
      var words: nat;
      match ops[i] {
        case Insert(data) =>
          q, words := InsertLast(q, data);
        case Remove =>
          if !q.Empty? {
            HeadIsFirst(q);
            var first := GetFirst(q);
            out := out + [first];
            q, words := RemoveFirst(q);
          }
      }
    }
    assert ops[..|ops|] == ops;
  }
}
