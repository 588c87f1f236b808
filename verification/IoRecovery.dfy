/** Recovery keeps the invariant, and the theorems about whole runs. */
module IoRecovery {

  import opened Wrappers
  import opened DiskLayout
  import opened IoSteps
  import opened IoInvariant
  import opened IoRuns

  // ---------- recovery ----------

  /** The search over all files finds the last root. */
  lemma SearchFindsLastRoot(s: IoState, h: History)
    requires Inv(s, h)
    ensures NewestRoot(s.disk) == s.prevRoot
  {
    if h.lastRoot.Some? {
      var l := s.prevRoot.value;
      assert RootAt(s.disk[l.file], l.page);
    }
  }

  lemma RecoveredStatus(i: nat, blocks: seq<Block>, root: Loc, live: set<Loc>, h: History, k: History)
    requires live <= h.want.Keys && root !in live
    requires forall p: nat | p < |blocks| && Loc(i, p) in live :: blocks[p] == PageBlock(h.want[Loc(i, p)])
    requires k.want == (map l | l in live && l in h.want :: h.want[l])
    ensures StatusInv(i, RecoveredFile(i, blocks, root, live), IDLE_WRITER, blocks, Some(root), k)
  {
    var f := RecoveredFile(i, blocks, root, live);
    assert Overlay(blocks, Pending(IDLE_WRITER)) == blocks;
    forall p: nat | p < |blocks|
      ensures f.status[p] in {ALLOCATED, ROOT, FREE}
      ensures f.status[p] == ROOT <==> root == Loc(i, p)
      ensures f.status[p] == ALLOCATED <==> Loc(i, p) in k.want
      ensures Loc(i, p) in k.want ==> blocks[p] == PageBlock(k.want[Loc(i, p)])
    {
    }
  }

  /** The cursor left on the newest root of the file is a good place to go on from. */
  lemma RecoveredLayout(i: nat, blocks: seq<Block>, root: Loc, live: set<Loc>)
    requires |blocks| > 0 && WellPlaced(blocks)
    ensures var f := RecoveredFile(i, blocks, root, live);
            f.cursor < |blocks| && Ready(blocks, f.cursor) && UnusedIsSuffix(blocks, f.cursor)
  {
    var f := RecoveredFile(i, blocks, root, live);
    if Newest(blocks).Some? {
      assert RootAt(blocks, f.cursor);
      NewestIsNewest(blocks);
      SortedAfterNewest(blocks, f.cursor);
    } else {
      assert SortedFrom(blocks, 0);
    }
  }

  /** A durable page is on disk, and no request is on its way to it. */
  lemma DurableIsOnDisk(s: IoState, h: History, l: Loc)
    requires Inv(s, h) && l in h.durable
    ensures IsPage(s, l) && l in h.want && BlockAt(s, l) == PageBlock(h.want[l])
  {
    assert IsPage(s, l);
    var i := l.file;
    assert FileInv(i, s.file[i], s.writer[i], s.disk[i], s.prevRoot, s.nextStamp, h);
    assert Loc(i, l.page) == l;
    OverlayOutside(s.disk[i], Pending(s.writer[i]), l.page);
  }

  lemma RecoverKeepsFiles(s: IoState, h: History, live: set<Loc>)
    requires Inv(s, h) && Enabled(s, CrashAndRecover(live)) && live <= h.durable
    ensures FilesInv(Next(s, CrashAndRecover(live)), NextHistory(s, h, CrashAndRecover(live)))
  {
    var t, k := Next(s, CrashAndRecover(live)), NextHistory(s, h, CrashAndRecover(live));
    SearchFindsLastRoot(s, h);
    var root := s.prevRoot.value;
    forall i | 0 <= i < |t.file|
      ensures FileInv(i, t.file[i], t.writer[i], t.disk[i], t.prevRoot, t.nextStamp, k)
    {
      assert FileInv(i, s.file[i], s.writer[i], s.disk[i], s.prevRoot, s.nextStamp, h);
      forall p: nat | p < |s.disk[i]| && Loc(i, p) in live
        ensures s.disk[i][p] == PageBlock(h.want[Loc(i, p)])
      {
        DurableIsOnDisk(s, h, Loc(i, p));
      }
      RecoveredStatus(i, s.disk[i], root, live, h, k);
      RecoveredLayout(i, s.disk[i], root, live);
      assert Overlay(s.disk[i], Pending(IDLE_WRITER)) == s.disk[i];
    }
  }

  lemma RecoverKeepsRest(s: IoState, h: History, live: set<Loc>)
    requires Inv(s, h) && Enabled(s, CrashAndRecover(live)) && live <= h.durable
    ensures RestInv(Next(s, CrashAndRecover(live)), NextHistory(s, h, CrashAndRecover(live)))
    ensures RootInv(Next(s, CrashAndRecover(live)), NextHistory(s, h, CrashAndRecover(live)))
  {
    var t, k := Next(s, CrashAndRecover(live)), NextHistory(s, h, CrashAndRecover(live));
    SearchFindsLastRoot(s, h);
    forall m | m in k.want
      ensures IsPage(t, m)
    {
      assert IsPage(s, m);
    }
    assert live <= k.want.Keys;
    assert t.disk == s.disk && t.prevRoot == s.prevRoot && t.nextStamp == s.nextStamp;
  }

  lemma RecoverKeeps(s: IoState, h: History, live: set<Loc>)
    requires Inv(s, h) && Enabled(s, CrashAndRecover(live)) && live <= h.durable
    ensures Inv(Next(s, CrashAndRecover(live)), NextHistory(s, h, CrashAndRecover(live)))
  {
    RecoverKeepsFiles(s, h, live);
    RecoverKeepsRest(s, h, live);
  }

  // ---------- creation ----------

  lemma {:induction false} AllFree(n: nat)
    ensures FreeCount(seq(n, _ => FREE)) == n
  {
    if n > 0 {
      AllFree(n - 1);
      assert seq(n, _ => FREE)[..n - 1] == seq(n - 1, _ => FREE);
    }
  }

  lemma CreatedInv(pages: seq<nat>)
    requires GoodSizes(pages)
    ensures Inv(Created(pages), EMPTY_HISTORY)
  {
    var s := Created(pages);
    forall i | 0 <= i < |s.file|
      ensures FileInv(i, s.file[i], s.writer[i], s.disk[i], s.prevRoot, s.nextStamp, EMPTY_HISTORY)
    {
      AllFree(pages[i]);
      assert Overlay(s.disk[i], Pending(s.writer[i])) == s.disk[i];
      assert SortedFrom(s.disk[i], 0);
    }
    assert RootInv(s, EMPTY_HISTORY) && RestInv(s, EMPTY_HISTORY);
  }

  // ---------- runs ----------

  /** The events of `run` can happen in this order from `s`. */
  ghost predicate CanRun(s: IoState, h: History, run: seq<Event>)
    decreases |run|
  {
    run != [] ==>
      && ShapeOk(s) && Enabled(s, run[0]) && ClientMay(h, run[0])
      && CanRun(Next(s, run[0]), NextHistory(s, h, run[0]), run[1..])
  }

  ghost function After(s: IoState, h: History, run: seq<Event>): (IoState, History)
    requires CanRun(s, h, run)
    decreases |run|
  {
    if run == [] then (s, h)
    else After(Next(s, run[0]), NextHistory(s, h, run[0]), run[1..])
  }

  function RootWrites(run: seq<Event>): nat {
    if run == [] then 0 else (if run[0].WriteRoot? then 1 else 0) + RootWrites(run[1..])
  }

  /** Every event keeps the invariant; a root write needs a stamp left to count up to. */
  lemma EventKeeps(s: IoState, h: History, e: Event)
    requires Inv(s, h) && Enabled(s, e) && ClientMay(h, e)
    requires e.WriteRoot? ==> s.nextStamp != MAX_STAMP
    ensures Inv(Next(s, e), NextHistory(s, h, e))
    ensures Value(Next(s, e).nextStamp) == Value(s.nextStamp) + if e.WriteRoot? then 1 else 0
  {
    match e
    case WritePage(i, data) => WritePageKeeps(s, h, i, data);
    case FreePage(l) => FreePageKeeps(s, h, l);
    case BeginRoot => BeginRootKeeps(s, h);
    case DrainFile => DrainFileKeeps(s, h);
    case WriteRoot(body) => WriteRootKeeps(s, h, body); IncrementIsNewer(s.nextStamp);
    case TakeRequest(i) => WriterEventKeeps(s, h, i, e);
    case LandRequest(i) => WriterEventKeeps(s, h, i, e);
    case FinishRequest(i) => WriterEventKeeps(s, h, i, e);
    case CrashAndRecover(live) => RecoverKeeps(s, h, live); SearchFindsLastRoot(s, h);
  }

  lemma {:induction false} RunKeeps(s: IoState, h: History, run: seq<Event>)
    requires Inv(s, h) && CanRun(s, h, run)
    requires Value(s.nextStamp) + RootWrites(run) <= Value(MAX_STAMP)
    ensures Inv(After(s, h, run).0, After(s, h, run).1)
    decreases |run|
  {
    if run != [] {
      EventKeeps(s, h, run[0]);
      RunKeeps(Next(s, run[0]), NextHistory(s, h, run[0]), run[1..]);
    }
  }

  /** At every point of every run from an empty database, whatever the writer threads have
      and have not done and however many crashes there were: if any root was written, the
      search finds exactly the last one written, and every page allocated when it was
      written and not freed since holds its data; if none was written, the search finds
      none. */
  lemma CrashSafety(pages: seq<nat>, run: seq<Event>)
    requires GoodSizes(pages) && CanRun(Created(pages), EMPTY_HISTORY, run)
    requires RootWrites(run) < Value(MAX_STAMP)
    ensures var (s, h) := After(Created(pages), EMPTY_HISTORY, run);
            && ShapeOk(s)
            && (h.lastRoot.Some? <==> NewestRoot(s.disk).Some?)
            && (h.lastRoot.Some? ==>
                  && IsPage(s, NewestRoot(s.disk).value)
                  && BlockAt(s, NewestRoot(s.disk).value) == h.lastRoot.value)
            && (forall i | 0 <= i < |s.disk| :: WellPlaced(s.disk[i]))
            && (forall l | l in h.durable :: IsPage(s, l) && l in h.want && BlockAt(s, l) == PageBlock(h.want[l]))
  {
    CreatedInv(pages);
    RunKeeps(Created(pages), EMPTY_HISTORY, run);
    var (s, h) := After(Created(pages), EMPTY_HISTORY, run);
    SearchFindsLastRoot(s, h);
    forall i | 0 <= i < |s.disk|
      ensures WellPlaced(s.disk[i])
    {
      assert FileInv(i, s.file[i], s.writer[i], s.disk[i], s.prevRoot, s.nextStamp, h);
    }
    forall l | l in h.durable
      ensures IsPage(s, l) && l in h.want && BlockAt(s, l) == PageBlock(h.want[l])
    {
      DurableIsOnDisk(s, h, l);
    }
  }

  /** When the root is written, every request made so far is on disk: all pages asked for
      and not freed again hold their data, and no write lands on an allocated page or on
      the page of the previous root. */
  lemma RootFollowsItsPages(s: IoState, h: History, body: int)
    requires Inv(s, h) && Enabled(s, WriteRoot(body))
    ensures forall i | 0 <= i < |s.writer| :: Pending(s.writer[i]) == []
    ensures forall l | l in h.want :: IsPage(s, l) && BlockAt(s, l) == PageBlock(h.want[l])
    ensures IsPage(s, RootPlace(s)) && RootPlace(s) !in h.want && s.prevRoot != Some(RootPlace(s))
    ensures BlockAt(Next(s, WriteRoot(body)), RootPlace(s)) == RootBlock(s.nextStamp, body)
    ensures s.prevRoot.Some? ==>
              BlockAt(Next(s, WriteRoot(body)), s.prevRoot.value) == BlockAt(s, s.prevRoot.value)
  {
    AllDrained(s, h);
    WriteRootShape(s, body);
    forall l | l in h.want
      ensures IsPage(s, l) && BlockAt(s, l) == PageBlock(h.want[l])
    {
      assert IsPage(s, l);
      assert FileInv(l.file, s.file[l.file], s.writer[l.file], s.disk[l.file], s.prevRoot, s.nextStamp, h);
      assert Loc(l.file, l.page) == l;
    }
    var l := RootPlace(s);
    assert FileInv(l.file, s.file[l.file], s.writer[l.file], s.disk[l.file], s.prevRoot, s.nextStamp, h);
    assert Loc(l.file, l.page) == l;
  }

  // ---------- room for the next root ----------

  /** Outside the file that recovery left one short, the free counters are exact. */
  lemma CountersAreExact(s: IoState, h: History)
    requires Inv(s, h)
    ensures s.freeTotal == FreeSum(s.file)
    ensures forall i | 0 <= i < |s.file| && h.shortFile != Some(i) :: s.file[i].freePages == FreeCount(s.file[i].status)
    ensures forall i | 0 <= i < |s.file| && h.shortFile == Some(i) ::
              s.file[i].freePages == FreeCount(s.file[i].status) - 1
              || (FreeCount(s.file[i].status) == 0 && s.file[i].freePages == WORD_LIMIT - 1)
  {
    forall i | 0 <= i < |s.file|
      ensures FileInv(i, s.file[i], s.writer[i], s.disk[i], s.prevRoot, s.nextStamp, h)
    {
    }
  }

  lemma {:induction false} SomeFileIsFree(file: seq<FileT>)
    requires FreeSum(file) > 0
    ensures exists i :: 0 <= i < |file| && FREE in file[i].status
  {
    var n := |file| - 1;
    if FreeCount(file[n].status) > 0 {
      SomePageIsFree(file[n].status);
    } else {
      SomeFileIsFree(file[..n]);
      var i :| 0 <= i < |file[..n]| && FREE in file[..n][i].status;
      assert FREE in file[i].status;
    }
  }

  lemma {:induction false} SomePageIsFree(status: seq<PageStatus>)
    requires FreeCount(status) > 0
    ensures FREE in status
  {
    var n := |status| - 1;
    if status[n] != FREE {
      SomePageIsFree(status[..n]);
    }
  }

  lemma {:induction false} FreeIsCounted(status: seq<PageStatus>, p: nat)
    requires p < |status| && status[p] == FREE
    ensures FreeCount(status) > 0
  {
    CountTaken(status, p, ALLOCATED);
  }

  /** Index `i` is among the next `left` indices from `from` on, cyclically. */
  predicate Within(n: nat, from: nat, left: nat, i: nat) {
    (if i >= from then i - from else i + n - from) < left
  }

  lemma NextIndex(n: nat, from: nat)
    requires from < n
    ensures (from + 1) % n == if from + 1 == n then 0 else from + 1
  {
  }

  /** The round robin for the root looks at every file. */
  lemma {:induction false} RootFileFound(file: seq<FileT>, from: nat, left: nat, i: nat)
    requires from < |file| && left <= |file| && i < |file| && FREE in file[i].status
    requires Within(|file|, from, left, i)
    ensures RootFile(file, from, left).Some?
    decreases left
  {
    if FREE !in file[from].status {
      NextIndex(|file|, from);
      RootFileFound(file, (from + 1) % |file|, left - 1, i);
    }
  }

  /** After the drain a root can be placed exactly when the free counter says so. */
  lemma RootCanBePlaced(s: IoState, h: History, body: int)
    requires Inv(s, h) && s.phase == Draining(|s.writer|)
    ensures Enabled(s, WriteRoot(body)) <==> s.freeTotal > 0
  {
    if s.freeTotal > 0 {
      SomeFileIsFree(s.file);
      var i :| 0 <= i < |s.file| && FREE in s.file[i].status;
      RootFileFound(s.file, s.fileCursor, |s.file|, i);
    }
  }

  lemma FreePageIsCounted(s: IoState, i: nat, p: nat)
    requires ShapeOk(s) && i < |s.file| && p < |s.file[i].status| && s.file[i].status[p] == FREE
    ensures FreeSum(s.file) > 0
  {
    FreeIsCounted(s.file[i].status, p);
    FreeSumBound(s.file, s.disk);
  }

  lemma RoomAfterWritePage(s: IoState, h: History, i: nat, data: int)
    requires Inv(s, h) && Enabled(s, WritePage(i, data))
    ensures Next(s, WritePage(i, data)).freeTotal > 0
  {
    CountersAreExact(s, h);
    FreeIsCounted(s.file[i].status, NextFree(s.file[i]).value);
    FreeSumBound(s.file, s.disk);
  }

  lemma RecoveredPageIsFree(s: IoState, h: History, live: set<Loc>, i: nat, p: nat)
    requires Inv(s, h) && Enabled(s, CrashAndRecover(live)) && live <= h.durable
    requires i < |s.file| && p < |s.file[i].status| && s.file[i].status[p] == FREE
    ensures p < |s.disk[i]| && Loc(i, p) !in live && NewestRoot(s.disk) != Some(Loc(i, p))
  {
    assert FileInv(i, s.file[i], s.writer[i], s.disk[i], s.prevRoot, s.nextStamp, h);
    SearchFindsLastRoot(s, h);
    assert Loc(i, p) !in h.want;
  }

  lemma RoomAfterRecovery(s: IoState, h: History, live: set<Loc>)
    requires Inv(s, h) && Enabled(s, CrashAndRecover(live)) && live <= h.durable && s.freeTotal > 0
    ensures RecoverStep(s, live).freeTotal > 0
  {
    SomeFileIsFree(s.file);
    var i :| 0 <= i < |s.file| && FREE in s.file[i].status;
    var p: nat :| p < |s.file[i].status| && s.file[i].status[p] == FREE;
    RecoveredPageIsFree(s, h, live, i, p);
    RecoveredRoom(s, live, i, p);
  }

  lemma RecoveredRoom(s: IoState, live: set<Loc>, i: nat, p: nat)
    requires ShapeOk(s) && NewestRoot(s.disk).Some? && i < |s.disk| && p < |s.disk[i]|
    requires Loc(i, p) !in live && NewestRoot(s.disk) != Some(Loc(i, p))
    ensures RecoverStep(s, live).freeTotal > 0
  {
    var t := RecoverStep(s, live);
    assert t.file[i] == RecoveredFile(i, s.disk[i], NewestRoot(s.disk).value, live);
    assert t.file[i].status[p] == FREE;
    FreePageIsCounted(t, i, p);
  }

  lemma RoomAfterFreePage(s: IoState, h: History, l: Loc)
    requires ShapeOk(s) && RestInv(s, h) && Enabled(s, FreePage(l)) && s.freeTotal > 0
    ensures FreePageStep(s, l).freeTotal > 0
  {
    if s.file[l.file].status[l.page] == ALLOCATED {
      FreePageKeepsRest(s, h, l);
      TotalAfterRelease(s.file, l.file, l.page);
    }
  }

  /** Writing a root takes one page and gives one back. */
  lemma RoomAfterWriteRoot(s: IoState, body: int)
    requires ShapeOk(s) && Enabled(s, WriteRoot(body)) && 0 < s.freeTotal < WORD_LIMIT && s.prevRoot.Some?
    requires s.file[s.prevRoot.value.file].status[s.prevRoot.value.page] == ROOT
    ensures WriteRootStep(s, body).freeTotal == s.freeTotal
  {
    var l := RootPlace(s);
    assert s.file[l.file].status[l.page] == FREE;
    assert Succ(Pred(s.freeTotal)) == s.freeTotal;
  }

  /** Data pages never take the last place: once a root is on disk and there is room for
      the next one, there is room after every event, so the next root can be written. */
  lemma RoomForRootIsKept(s: IoState, h: History, e: Event)
    requires Inv(s, h) && Enabled(s, e) && ClientMay(h, e)
    requires h.lastRoot.Some? && s.freeTotal > 0
    ensures Next(s, e).freeTotal > 0
  {
    match e
    case FreePage(l) => RoomAfterFreePage(s, h, l);
    case WritePage(i, data) => RoomAfterWritePage(s, h, i, data);
    case CrashAndRecover(live) => RoomAfterRecovery(s, h, live);
    case WriteRoot(body) =>
      PrevRootIsRoot(s, h);
      FreeSumBound(s.file, s.disk);
      RoomAfterWriteRoot(s, body);
    case _ =>
  }
}
