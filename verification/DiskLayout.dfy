/** Root time stamps (root.c) and the contents of the disk pages of one file (io.c).

    A page is known to recovery only by the magic cookie in its first word: it was
    never written since `io_create_file`, or it holds a data page, or it holds a root
    block with its time stamp. */
module DiskLayout {

  import opened Wrappers

  /** The number of values of a `word_t`, a 32-bit unsigned word. */
  const WORD_LIMIT: int := 0x1_0000_0000

  type Word = x: int | 0 <= x < WORD_LIMIT

  // ---------- root.c: time stamps ----------

  datatype Stamp = Stamp(hi: Word, lo: Word)

  /** The position of a stamp in the order of all 64-bit stamps. */
  function Value(s: Stamp): (v: nat) {
    s.hi * WORD_LIMIT + s.lo
  }

  /** `time_stamp_is_newer_than`: compares the halves, never the combined value. */
  predicate IsNewer(a: Stamp, b: Stamp) {
    if a.hi > b.hi then true
    else if a.hi < b.hi then false
    else a.lo > b.lo
  }

  /** `increment_root_time_stamp`: a full low half carries into the high half, which wraps. */
  function Increment(s: Stamp): Stamp {
    if s.lo == WORD_LIMIT - 1 then Stamp((s.hi + 1) % WORD_LIMIT, 0)
    else Stamp(s.hi, s.lo + 1)
  }

  const MAX_STAMP := Stamp(WORD_LIMIT - 1, WORD_LIMIT - 1)

  /** Comparing halves is comparing the 64-bit values. */
  lemma NewerIsGreater(a: Stamp, b: Stamp)
    ensures IsNewer(a, b) <==> Value(a) > Value(b)
    ensures Value(a) == Value(b) ==> a == b
  {
    if a.hi > b.hi {
      assert a.hi * WORD_LIMIT >= (b.hi + 1) * WORD_LIMIT;
    } else if a.hi < b.hi {
      assert b.hi * WORD_LIMIT >= (a.hi + 1) * WORD_LIMIT;
    }
  }

  /** An increment gives a newer stamp for every stamp but the very last one. */
  lemma IncrementIsNewer(s: Stamp)
    ensures IsNewer(Increment(s), s) <==> s != MAX_STAMP
    ensures s != MAX_STAMP ==> Value(Increment(s)) == Value(s) + 1
  {
    if s.lo == WORD_LIMIT - 1 && s != MAX_STAMP {
      assert (s.hi + 1) % WORD_LIMIT == s.hi + 1;
    }
  }

  // ---------- io.c: what recovery can read from a page ----------

  datatype Block =
    | UnusedBlock
    | PageBlock(data: int)
    | RootBlock(stamp: Stamp, body: int)

  predicate RootAt(blocks: seq<Block>, p: int) {
    0 <= p < |blocks| && blocks[p].RootBlock?
  }

  function StampAt(blocks: seq<Block>, p: int): Stamp
    requires RootAt(blocks, p)
  {
    blocks[p].stamp
  }

  /** In the cyclic order of pages that starts at `start`, page `p` comes before page `q`. */
  predicate Before(start: int, p: int, q: int) {
    if (p >= start) == (q >= start) then p < q else p >= start
  }

  /** Read cyclically from page `start`, the root blocks get strictly newer. */
  ghost predicate SortedFrom(blocks: seq<Block>, start: int) {
    forall p, q | RootAt(blocks, p) && RootAt(blocks, q) && Before(start, p, q) ::
      Value(StampAt(blocks, p)) < Value(StampAt(blocks, q))
  }

  ghost predicate Sorted(blocks: seq<Block>) {
    exists start :: 0 <= start <= |blocks| && SortedFrom(blocks, start)
  }

  /** No root block lies above a page that was never written. */
  ghost predicate UnusedAboveRoots(blocks: seq<Block>) {
    forall p, q | 0 <= p < q < |blocks| && blocks[p].UnusedBlock? :: !RootAt(blocks, q)
  }

  /** What the search for the newest root needs of a file. */
  ghost predicate WellPlaced(blocks: seq<Block>) {
    Sorted(blocks) && UnusedAboveRoots(blocks)
  }

  /** Page `p` holds a root newer than every other root of the file. */
  ghost predicate IsNewest(blocks: seq<Block>, p: int) {
    && RootAt(blocks, p)
    && forall q | RootAt(blocks, q) && q != p :: Value(StampAt(blocks, q)) < Value(StampAt(blocks, p))
  }

  ghost predicate NoRoots(blocks: seq<Block>) {
    forall q :: !RootAt(blocks, q)
  }

  /** The newest root among the first `n` pages, by looking at every one of them. */
  function NewestBelow(blocks: seq<Block>, n: nat): (r: Option<nat>)
    requires n <= |blocks|
    ensures r.Some? ==> r.value < n && RootAt(blocks, r.value)
    ensures r.None? ==> forall q | q < n :: !RootAt(blocks, q)
    ensures r.Some? ==> forall q | q < n && RootAt(blocks, q) ::
              Value(StampAt(blocks, q)) <= Value(StampAt(blocks, r.value))
  {
    if n == 0 then None
    else
      var r := NewestBelow(blocks, n - 1);
      if !blocks[n - 1].RootBlock? then r
      else if r.None? then Some(n - 1)
      else
        NewerIsGreater(blocks[n - 1].stamp, blocks[r.value].stamp);
        if IsNewer(blocks[n - 1].stamp, blocks[r.value].stamp) then Some(n - 1) else r
  }

  /** The newest root of a file, by looking at every page. */
  function Newest(blocks: seq<Block>): (r: Option<nat>)
    ensures r.Some? ==> RootAt(blocks, r.value)
    ensures r.None? <==> NoRoots(blocks)
  {
    NewestBelow(blocks, |blocks|)
  }

  lemma NewestIsUnique(blocks: seq<Block>, p: int)
    requires IsNewest(blocks, p)
    ensures Newest(blocks) == Some(p)
  {
    var r := Newest(blocks);
    assert RootAt(blocks, p);
  }

  lemma NewestIsNewest(blocks: seq<Block>)
    requires Sorted(blocks) && !NoRoots(blocks)
    ensures IsNewest(blocks, Newest(blocks).value)
  {
    var start :| 0 <= start <= |blocks| && SortedFrom(blocks, start);
    var p := Newest(blocks).value;
    forall q | RootAt(blocks, q) && q != p
      ensures Value(StampAt(blocks, q)) < Value(StampAt(blocks, p))
    {
      assert Before(start, p, q) || Before(start, q, p);
    }
  }

  // ---------- placement ----------

  /** Overwriting any page by a data page only takes roots away. */
  lemma DataWriteKeepsOrder(blocks: seq<Block>, start: int, p: nat, data: int)
    requires p < |blocks| && SortedFrom(blocks, start)
    ensures SortedFrom(blocks[p := PageBlock(data)], start)
  {
    var after := blocks[p := PageBlock(data)];
    forall a, b | RootAt(after, a) && RootAt(after, b) && Before(start, a, b)
      ensures Value(StampAt(after, a)) < Value(StampAt(after, b))
    {
      assert RootAt(blocks, a) && RootAt(blocks, b);
    }
  }

  lemma DataWriteKeepsWellPlaced(blocks: seq<Block>, p: nat, data: int)
    requires p < |blocks| && WellPlaced(blocks)
    ensures WellPlaced(blocks[p := PageBlock(data)])
  {
    var start :| 0 <= start <= |blocks| && SortedFrom(blocks, start);
    DataWriteKeepsOrder(blocks, start, p, data);
    var after := blocks[p := PageBlock(data)];
    forall a, b | 0 <= a < b < |after| && after[a].UnusedBlock?
      ensures !RootAt(after, b)
    {
      assert blocks[a].UnusedBlock?;
      assert RootAt(after, b) ==> RootAt(blocks, b);
    }
  }

  /** A page without a root may be passed by the point from which the order is read. */
  lemma PassPageWithoutRoot(blocks: seq<Block>, c: nat)
    requires c < |blocks| && !RootAt(blocks, c)
    requires SortedFrom(blocks, c)
    ensures SortedFrom(blocks, c + 1)
  {
    forall p, q | RootAt(blocks, p) && RootAt(blocks, q) && Before(c + 1, p, q)
      ensures Value(StampAt(blocks, p)) < Value(StampAt(blocks, q))
    {
      assert p != c && q != c;
      assert Before(c, p, q);
    }
  }

  /** When the newest root comes first in the order, it is the only root. */
  lemma FirstNewestIsOnlyRoot(blocks: seq<Block>, c: nat)
    requires c < |blocks| && IsNewest(blocks, c)
    requires SortedFrom(blocks, c)
    ensures forall q | RootAt(blocks, q) :: q == c
  {
    forall q | RootAt(blocks, q)
      ensures q == c
    {
      assert q != c ==> Before(c, c, q);
    }
  }

  /** The newest root is the last one in the order that starts just after it. */
  lemma SortedAfterNewest(blocks: seq<Block>, c: nat)
    requires IsNewest(blocks, c) && Sorted(blocks)
    ensures SortedFrom(blocks, c + 1)
  {
    var start :| 0 <= start <= |blocks| && SortedFrom(blocks, start);
    forall p, q | RootAt(blocks, p) && RootAt(blocks, q) && Before(c + 1, p, q)
      ensures Value(StampAt(blocks, p)) < Value(StampAt(blocks, q))
    {
      assert p == c || !Before(start, c, p);
      assert q == c || !Before(start, c, q);
      assert p != c;
    }
  }

  /** Writing the newest root at `c` keeps the order when the rest is ordered from `c` or from `c + 1`. */
  lemma RootWriteKeepsOrder(blocks: seq<Block>, c: nat, stamp: Stamp, body: int)
    requires c < |blocks|
    requires SortedFrom(blocks, c) || SortedFrom(blocks, c + 1)
    requires forall q | RootAt(blocks, q) :: Value(StampAt(blocks, q)) < Value(stamp)
    ensures SortedFrom(blocks[c := RootBlock(stamp, body)], c + 1)
    ensures IsNewest(blocks[c := RootBlock(stamp, body)], c)
  {
    var after := blocks[c := RootBlock(stamp, body)];
    forall p, q | RootAt(after, p) && RootAt(after, q) && Before(c + 1, p, q)
      ensures Value(StampAt(after, p)) < Value(StampAt(after, q))
    {
      assert p != c;
      assert RootAt(blocks, p);
      if q != c {
        assert RootAt(blocks, q);
        assert Before(c, p, q);
      }
    }
    forall q | RootAt(after, q) && q != c
      ensures Value(StampAt(after, q)) < Value(StampAt(after, c))
    {
      assert RootAt(blocks, q);
    }
  }
}
