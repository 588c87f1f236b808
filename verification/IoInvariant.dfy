/** What every run of the disk space manager keeps, and why recovery can rely on it. */
module IoInvariant {

  import opened Wrappers
  import opened DiskLayout
  import opened IoSteps

  // ---------- the disk as it will be once all requests have landed ----------

  function Pending(w: Writer): seq<Aio> {
    (if w.current.Some? then [w.current.value.aio] else []) + w.queued
  }

  predicate AiosFit(aios: seq<Aio>, n: nat) {
    forall k | 0 <= k < |aios| :: aios[k].page < n
  }

  function Overlay(blocks: seq<Block>, aios: seq<Aio>): (r: seq<Block>)
    requires AiosFit(aios, |blocks|)
    ensures |r| == |blocks|
    decreases |aios|
  {
    if aios == [] then blocks
    else Overlay(blocks[aios[0].page := PageBlock(aios[0].data)], aios[1..])
  }

  lemma {:induction false} OverlayAppend(blocks: seq<Block>, aios: seq<Aio>, a: Aio)
    requires AiosFit(aios, |blocks|) && a.page < |blocks|
    ensures AiosFit(aios + [a], |blocks|)
    ensures Overlay(blocks, aios + [a]) == Overlay(blocks, aios)[a.page := PageBlock(a.data)]
    decreases |aios|
  {
    if aios == [] {
      assert aios + [a] == [a];
      assert Overlay(blocks[a.page := PageBlock(a.data)], [a][1..]) == blocks[a.page := PageBlock(a.data)];
    } else {
      OverlayAppend(blocks[aios[0].page := PageBlock(aios[0].data)], aios[1..], a);
      assert (aios + [a])[1..] == aios[1..] + [a];
    }
  }

  /** A page that no request names is not touched. */
  lemma {:induction false} OverlayOutside(blocks: seq<Block>, aios: seq<Aio>, p: nat)
    requires AiosFit(aios, |blocks|) && p < |blocks|
    requires forall k | 0 <= k < |aios| :: aios[k].page != p
    ensures Overlay(blocks, aios)[p] == blocks[p]
    decreases |aios|
  {
    if aios != [] {
      OverlayOutside(blocks[aios[0].page := PageBlock(aios[0].data)], aios[1..], p);
    }
  }

  /** Every page is what it was, or has become a data page. */
  lemma {:induction false} OverlayOnlyAddsData(blocks: seq<Block>, aios: seq<Aio>, p: nat)
    requires AiosFit(aios, |blocks|) && p < |blocks|
    ensures Overlay(blocks, aios)[p] == blocks[p] || Overlay(blocks, aios)[p].PageBlock?
    decreases |aios|
  {
    if aios != [] {
      OverlayOnlyAddsData(blocks[aios[0].page := PageBlock(aios[0].data)], aios[1..], p);
    }
  }

  // ---------- the invariant ----------

  /** The root blocks are ordered from the cursor, or from the page after it: the latter
      right after recovery, which leaves the cursor on the newest root of the file. */
  ghost predicate Ready(blocks: seq<Block>, cursor: nat) {
    SortedFrom(blocks, cursor) || SortedFrom(blocks, cursor + 1)
  }

  /** Never-written pages lie at or above the cursor, and no root lies above one of them. */
  ghost predicate UnusedIsSuffix(blocks: seq<Block>, cursor: nat) {
    && UnusedAboveRoots(blocks)
    && forall p | 0 <= p < cursor && p < |blocks| :: !blocks[p].UnusedBlock?
  }

  ghost predicate StampsBelow(blocks: seq<Block>, limit: Stamp) {
    forall p | RootAt(blocks, p) :: 0 < Value(StampAt(blocks, p)) < Value(limit)
  }

  ghost predicate WriterInv(w: Writer, blocks: seq<Block>) {
    && AiosFit(Pending(w), |blocks|)
    && w.pending == |Pending(w)|
    && (w.current.Some? ==> w.current.value.aio.page < |blocks|)
    && (w.current.Some? && w.current.value.landed ==>
          blocks[w.current.value.aio.page] == PageBlock(w.current.value.aio.data))
  }

  /** The status of the pages of file `i` against what the pages hold or will hold. */
  ghost predicate StatusInv(i: nat, f: FileT, w: Writer, blocks: seq<Block>, prevRoot: Option<Loc>, h: History)
    requires |f.status| == |blocks| && AiosFit(Pending(w), |blocks|)
  {
    && (forall p | 0 <= p < |blocks| :: f.status[p] in {ALLOCATED, ROOT, FREE})
    && (forall p: nat | p < |blocks| :: f.status[p] == ROOT <==> prevRoot == Some(Loc(i, p)))
    && (forall p: nat | p < |blocks| :: f.status[p] == ALLOCATED <==> Loc(i, p) in h.want)
    && (forall p: nat | p < |blocks| && Loc(i, p) in h.want ::
          Overlay(blocks, Pending(w))[p] == PageBlock(h.want[Loc(i, p)]))
    && (forall k | 0 <= k < |Pending(w)| ::
          f.status[Pending(w)[k].page] != ROOT && Loc(i, Pending(w)[k].page) !in h.durable)
  }

  ghost predicate FileInv(i: nat, f: FileT, w: Writer, blocks: seq<Block>, prevRoot: Option<Loc>, nextStamp: Stamp, h: History) {
    && 0 < |f.status| == |blocks| <= PAGE_INDEX_LIMIT
    && f.cursor < |blocks|
    && WriterInv(w, blocks)
    && StatusInv(i, f, w, blocks, prevRoot, h)
    && WellPlaced(blocks)
    && StampsBelow(blocks, nextStamp)
    && Ready(Overlay(blocks, Pending(w)), f.cursor)
    && UnusedIsSuffix(Overlay(blocks, Pending(w)), f.cursor)
    && f.freePages == if h.shortFile == Some(i) then Pred(FreeCount(f.status)) else FreeCount(f.status)
  }

  /** The last root is on disk where `prevRoot` says, newer than every other root. */
  ghost predicate RootInv(s: IoState, h: History)
    requires ShapeOk(s)
  {
    && (h.lastRoot.Some? <==> s.prevRoot.Some?)
    && (h.lastRoot.Some? ==>
          && h.lastRoot.value.RootBlock?
          && BlockAt(s, s.prevRoot.value) == h.lastRoot.value
          && s.nextStamp == Increment(h.lastRoot.value.stamp)
          && h.lastRoot.value.stamp != MAX_STAMP
          && forall i, q | 0 <= i < |s.disk| && RootAt(s.disk[i], q) && Loc(i, q) != s.prevRoot.value ::
               Value(StampAt(s.disk[i], q)) < Value(h.lastRoot.value.stamp))
    && (h.lastRoot.None? ==> forall i | 0 <= i < |s.disk| :: NoRoots(s.disk[i]))
  }

  ghost predicate FilesInv(s: IoState, h: History)
    requires ShapeOk(s)
  {
    forall i | 0 <= i < |s.file| :: FileInv(i, s.file[i], s.writer[i], s.disk[i], s.prevRoot, s.nextStamp, h)
  }

  ghost predicate WantedArePages(s: IoState, h: History) {
    forall l | l in h.want :: IsPage(s, l)
  }

  /** No requests are left for the files that the main thread has finished waiting for. */
  ghost predicate DrainedBelow(writer: seq<Writer>, n: nat) {
    n <= |writer| && forall i | 0 <= i < n :: Pending(writer[i]) == []
  }

  ghost predicate RestInv(s: IoState, h: History)
    requires ShapeOk(s)
  {
    && h.durable <= h.want.Keys
    && WantedArePages(s, h)
    && s.freeTotal == FreeSum(s.file)
    && PageSum(s.disk) < WORD_LIMIT
    && 0 < Value(s.nextStamp)
    && (s.phase.Draining? ==> DrainedBelow(s.writer, s.phase.next))
  }

  ghost predicate Inv(s: IoState, h: History) {
    ShapeOk(s) && FilesInv(s, h) && RootInv(s, h) && RestInv(s, h)
  }

  // ---------- counting free pages ----------

  lemma {:induction false} FreeCountBound(status: seq<PageStatus>)
    ensures FreeCount(status) <= |status|
  {
    if status != [] {
      FreeCountBound(status[..|status| - 1]);
    }
  }

  lemma {:induction false} FreeSumBound(file: seq<FileT>, disk: seq<seq<Block>>)
    requires |file| == |disk|
    requires forall i | 0 <= i < |file| :: |file[i].status| == |disk[i]|
    ensures FreeSum(file) <= PageSum(disk)
    ensures forall i | 0 <= i < |file| :: FreeCount(file[i].status) <= FreeSum(file)
  {
    if file != [] {
      var n := |file| - 1;
      FreeSumBound(file[..n], disk[..n]);
      FreeCountBound(file[n].status);
      assert forall i | 0 <= i < n :: file[..n][i] == file[i];
    }
  }

  lemma {:induction false} FreeSumUpdate(file: seq<FileT>, i: nat, f: FileT)
    requires i < |file|
    ensures FreeSum(file[i := f]) == FreeSum(file) - FreeCount(file[i].status) + FreeCount(f.status)
  {
    var n := |file| - 1;
    if i == n {
      assert file[i := f][..n] == file[..n];
    } else {
      FreeSumUpdate(file[..n], i, f);
      assert file[i := f][..n] == file[..n][i := f];
    }
  }

  lemma {:induction false} PageSumUpdate(disk: seq<seq<Block>>, i: nat, blocks: seq<Block>)
    requires i < |disk| && |blocks| == |disk[i]|
    ensures PageSum(disk[i := blocks]) == PageSum(disk)
  {
    var n := |disk| - 1;
    if i == n {
      assert disk[i := blocks][..n] == disk[..n];
    } else {
      PageSumUpdate(disk[..n], i, blocks);
      assert disk[i := blocks][..n] == disk[..n][i := blocks];
    }
  }

  lemma {:induction false} CountUpdate(status: seq<PageStatus>, p: nat, st: PageStatus)
    requires p < |status|
    ensures FreeCount(status[p := st]) ==
            FreeCount(status) - (if status[p] == FREE then 1 else 0) + (if st == FREE then 1 else 0)
  {
    var n := |status| - 1;
    if p == n {
      assert status[p := st][..n] == status[..n];
    } else {
      CountUpdate(status[..n], p, st);
      assert status[p := st][..n] == status[..n][p := st];
    }
  }

  lemma CountTaken(status: seq<PageStatus>, p: nat, st: PageStatus)
    requires p < |status| && status[p] == FREE && st != FREE
    ensures FreeCount(status[p := st]) == FreeCount(status) - 1
  {
    CountUpdate(status, p, st);
  }

  lemma CountReleased(status: seq<PageStatus>, p: nat)
    requires p < |status| && status[p] != FREE
    ensures FreeCount(status[p := FREE]) == FreeCount(status) + 1
  {
    CountUpdate(status, p, FREE);
  }

  // ---------- moving the cursor ----------

  /** The cursor passes pages that hold no root, or hold the newest one. */
  lemma {:induction false} PassPages(blocks: seq<Block>, c: nat, d: nat)
    requires c <= d <= |blocks| && Ready(blocks, c)
    requires forall p | c <= p < d && RootAt(blocks, p) :: IsNewest(blocks, p)
    ensures Ready(blocks, d)
    decreases d - c
  {
    if c < d {
      if SortedFrom(blocks, c) {
        if RootAt(blocks, c) {
          FirstNewestIsOnlyRoot(blocks, c);
          assert SortedFrom(blocks, c + 1);
        } else {
          PassPageWithoutRoot(blocks, c);
        }
      }
      PassPages(blocks, c + 1, d);
    }
  }

  /** At the end of the file the cursor returns to the first page. */
  lemma WrapCursor(blocks: seq<Block>)
    requires Ready(blocks, |blocks|)
    ensures Ready(blocks, 0)
  {
    forall p, q | RootAt(blocks, p) && RootAt(blocks, q) && Before(0, p, q)
      ensures Value(StampAt(blocks, p)) < Value(StampAt(blocks, q))
    {
      assert Before(|blocks|, p, q) && Before(|blocks| + 1, p, q);
    }
  }

  /** The cursor arrives at the next FREE page still ready, and with no never-written page below it. */
  lemma CursorAtNextFree(f: FileT, blocks: seq<Block>)
    requires |f.status| == |blocks| && f.cursor < |blocks| && NextFree(f).Some?
    requires Ready(blocks, f.cursor) && UnusedIsSuffix(blocks, f.cursor)
    requires forall p | 0 <= p < |blocks| && f.status[p] != FREE && RootAt(blocks, p) :: IsNewest(blocks, p)
    requires forall p | 0 <= p < |blocks| && f.status[p] != FREE :: !blocks[p].UnusedBlock?
    ensures Ready(blocks, NextFree(f).value)
    ensures UnusedIsSuffix(blocks, NextFree(f).value)
  {
    var n := |blocks|;
    if FirstFree(f.status, f.cursor, n).Some? {
      PassPages(blocks, f.cursor, NextFree(f).value);
    } else {
      PassPages(blocks, f.cursor, n);
      WrapCursor(blocks);
      PassPages(blocks, 0, NextFree(f).value);
    }
  }

  /** After the page under the cursor has been filled the cursor moves on by one, cyclically. */
  lemma StepCursor(blocks: seq<Block>, c: nat)
    requires c < |blocks| && SortedFrom(blocks, c + 1)
    requires UnusedIsSuffix(blocks, c) && !blocks[c].UnusedBlock?
    ensures Ready(blocks, (c + 1) % |blocks|)
    ensures UnusedIsSuffix(blocks, (c + 1) % |blocks|)
  {
    if c + 1 == |blocks| {
      assert Ready(blocks, |blocks|);
      WrapCursor(blocks);
      assert (c + 1) % |blocks| == 0;
    } else {
      assert (c + 1) % |blocks| == c + 1;
    }
  }
}
