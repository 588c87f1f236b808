/** Every event keeps the invariant, so at every point of every run, through any number of
    crashes, the disk holds what recovery needs. */
module IoRuns {

  import opened Wrappers
  import opened DiskLayout
  import opened IoSteps
  import opened IoInvariant

  /** The history says the same about file `j` before and after. */
  ghost predicate SameFor(j: nat, h: History, k: History) {
    && (forall p :: Loc(j, p) in h.want <==> Loc(j, p) in k.want)
    && (forall p | Loc(j, p) in h.want && Loc(j, p) in k.want :: h.want[Loc(j, p)] == k.want[Loc(j, p)])
    && (forall p | Loc(j, p) in k.durable :: Loc(j, p) in h.durable)
    && h.shortFile == k.shortFile
  }

  lemma OtherFileKept(j: nat, f: FileT, w: Writer, blocks: seq<Block>, prevRoot: Option<Loc>, nextStamp: Stamp,
                      h: History, k: History)
    requires FileInv(j, f, w, blocks, prevRoot, nextStamp, h) && SameFor(j, h, k)
    ensures FileInv(j, f, w, blocks, prevRoot, nextStamp, k)
  {
    forall p: nat | p < |blocks|
      ensures f.status[p] == ALLOCATED <==> Loc(j, p) in k.want
      ensures Loc(j, p) in k.want ==> Overlay(blocks, Pending(w))[p] == PageBlock(k.want[Loc(j, p)])
    {
      assert Loc(j, p) in h.want <==> Loc(j, p) in k.want;
    }
  }

  /** Pages that are not FREE hold, or will hold, data, or are the newest root. */
  lemma NonFreePages(s: IoState, h: History, i: nat)
    requires Inv(s, h) && i < |s.file|
    ensures var blocks := Overlay(s.disk[i], Pending(s.writer[i]));
            forall p | 0 <= p < |blocks| && s.file[i].status[p] != FREE ::
              !blocks[p].UnusedBlock? && (RootAt(blocks, p) ==> IsNewest(blocks, p))
  {
    var w := s.writer[i];
    var blocks := Overlay(s.disk[i], Pending(w));
    assert FileInv(i, s.file[i], w, s.disk[i], s.prevRoot, s.nextStamp, h);
    forall p: nat | p < |blocks| && s.file[i].status[p] != FREE
      ensures !blocks[p].UnusedBlock? && (RootAt(blocks, p) ==> IsNewest(blocks, p))
    {
      if s.file[i].status[p] == ROOT {
        OverlayOutside(s.disk[i], Pending(w), p);
        forall q | RootAt(blocks, q) && q != p
          ensures Value(StampAt(blocks, q)) < Value(StampAt(blocks, p))
        {
          OverlayOnlyAddsData(s.disk[i], Pending(w), q);
          assert RootAt(s.disk[i], q) && Loc(i, q) != s.prevRoot.value;
        }
      } else {
        assert Loc(i, p) in h.want;
      }
    }
  }

  lemma PlaceIsReady(s: IoState, h: History, i: nat)
    requires Inv(s, h) && i < |s.file| && NextFree(s.file[i]).Some?
    ensures var blocks := Overlay(s.disk[i], Pending(s.writer[i]));
            Ready(blocks, NextFree(s.file[i]).value) && UnusedIsSuffix(blocks, NextFree(s.file[i]).value)
  {
    assert FileInv(i, s.file[i], s.writer[i], s.disk[i], s.prevRoot, s.nextStamp, h);
    NonFreePages(s, h, i);
    CursorAtNextFree(s.file[i], Overlay(s.disk[i], Pending(s.writer[i])));
  }

  // ---------- io_write_page ----------

  /** A data page at the place under the cursor keeps the order of the roots. */
  lemma FillPlace(before: seq<Block>, p: nat, data: int)
    requires p < |before| && Ready(before, p) && UnusedIsSuffix(before, p)
    ensures Ready(before[p := PageBlock(data)], (p + 1) % |before|)
    ensures UnusedIsSuffix(before[p := PageBlock(data)], (p + 1) % |before|)
  {
    var after := before[p := PageBlock(data)];
    if SortedFrom(before, p) {
      DataWriteKeepsOrder(before, p, p, data);
      PassPageWithoutRoot(after, p);
    } else {
      DataWriteKeepsOrder(before, p + 1, p, data);
    }
    forall a, b | 0 <= a < b < |after| && after[a].UnusedBlock?
      ensures !RootAt(after, b)
    {
      assert before[a].UnusedBlock?;
      assert RootAt(after, b) ==> RootAt(before, b);
    }
    StepCursor(after, p);
  }

  function Request(w: Writer, a: Aio): Writer {
    w.(queued := w.queued + [a], pending := w.pending + 1)
  }

  lemma RequestKeepsWriter(w: Writer, blocks: seq<Block>, a: Aio)
    requires WriterInv(w, blocks) && a.page < |blocks|
    ensures WriterInv(Request(w, a), blocks)
    ensures Pending(Request(w, a)) == Pending(w) + [a]
    ensures Overlay(blocks, Pending(Request(w, a))) == Overlay(blocks, Pending(w))[a.page := PageBlock(a.data)]
  {
    assert Pending(Request(w, a)) == Pending(w) + [a];
    OverlayAppend(blocks, Pending(w), a);
  }

  lemma WritePageKeepsStatus(i: nat, f: FileT, w: Writer, blocks: seq<Block>, prevRoot: Option<Loc>, h: History,
                             p: nat, data: int)
    requires |f.status| == |blocks| && WriterInv(w, blocks) && StatusInv(i, f, w, blocks, prevRoot, h)
    requires p < |blocks| && f.status[p] == FREE && h.durable <= h.want.Keys
    ensures WriterInv(Request(w, Aio(p, data)), blocks)
    ensures StatusInv(i, Take(f, p, ALLOCATED), Request(w, Aio(p, data)), blocks, prevRoot,
                      h.(want := h.want[Loc(i, p) := data]))
  {
    var a := Aio(p, data);
    RequestKeepsWriter(w, blocks, a);
    var g, v, k := Take(f, p, ALLOCATED), Request(w, a), h.(want := h.want[Loc(i, p) := data]);
    assert Loc(i, p) !in h.want;
    forall q: nat | q < |blocks|
      ensures g.status[q] in {ALLOCATED, ROOT, FREE}
      ensures g.status[q] == ROOT <==> prevRoot == Some(Loc(i, q))
      ensures g.status[q] == ALLOCATED <==> Loc(i, q) in k.want
      ensures Loc(i, q) in k.want ==> Overlay(blocks, Pending(v))[q] == PageBlock(k.want[Loc(i, q)])
    {
      assert f.status[q] == ALLOCATED <==> Loc(i, q) in h.want;
    }
  }

  lemma WritePageKeepsFile(i: nat, f: FileT, w: Writer, blocks: seq<Block>, prevRoot: Option<Loc>, nextStamp: Stamp,
                           h: History, p: nat, data: int)
    requires FileInv(i, f, w, blocks, prevRoot, nextStamp, h) && h.durable <= h.want.Keys
    requires p < |blocks| && f.status[p] == FREE
    requires Ready(Overlay(blocks, Pending(w)), p) && UnusedIsSuffix(Overlay(blocks, Pending(w)), p)
    ensures FileInv(i, Take(f, p, ALLOCATED), Request(w, Aio(p, data)), blocks, prevRoot, nextStamp,
                    h.(want := h.want[Loc(i, p) := data]))
  {
    RequestKeepsWriter(w, blocks, Aio(p, data));
    FillPlace(Overlay(blocks, Pending(w)), p, data);
    CountTaken(f.status, p, ALLOCATED);
    WritePageKeepsStatus(i, f, w, blocks, prevRoot, h, p, data);
  }

  lemma WritePageKeepsFiles(s: IoState, h: History, i: nat, data: int)
    requires Inv(s, h) && Enabled(s, WritePage(i, data))
    ensures FilesInv(Next(s, WritePage(i, data)), NextHistory(s, h, WritePage(i, data)))
  {
    var e := WritePage(i, data);
    var t, k := Next(s, e), NextHistory(s, h, e);
    var p := NextFree(s.file[i]).value;
    PlaceIsReady(s, h, i);
    assert t.writer[i] == Request(s.writer[i], Aio(p, data));
    forall j | 0 <= j < |t.file|
      ensures FileInv(j, t.file[j], t.writer[j], t.disk[j], t.prevRoot, t.nextStamp, k)
    {
      if j != i {
        OtherFileKept(j, s.file[j], s.writer[j], s.disk[j], s.prevRoot, s.nextStamp, h, k);
      } else {
        WritePageKeepsFile(i, s.file[i], s.writer[i], s.disk[i], s.prevRoot, s.nextStamp, h, p, data);
      }
    }
  }

  lemma TotalAfterTake(file: seq<FileT>, i: nat, p: nat, st: PageStatus)
    requires i < |file| && p < |file[i].status| && file[i].status[p] == FREE && st != FREE
    ensures FreeSum(file[i := Take(file[i], p, st)]) == FreeSum(file) - 1
  {
    FreeSumUpdate(file, i, Take(file[i], p, st));
    CountTaken(file[i].status, p, st);
  }

  lemma TotalAfterRelease(file: seq<FileT>, i: nat, p: nat)
    requires i < |file| && p < |file[i].status| && file[i].status[p] != FREE
    ensures FreeSum(file[i := Release(file[i], p)]) == FreeSum(file) + 1
  {
    FreeSumUpdate(file, i, Release(file[i], p));
    CountReleased(file[i].status, p);
  }

  lemma WritePageKeepsRest(s: IoState, h: History, i: nat, data: int)
    requires ShapeOk(s) && RestInv(s, h) && Enabled(s, WritePage(i, data))
    ensures RestInv(Next(s, WritePage(i, data)), NextHistory(s, h, WritePage(i, data)))
  {
    var t, k := Next(s, WritePage(i, data)), NextHistory(s, h, WritePage(i, data));
    var p := NextFree(s.file[i]).value;
    TotalAfterTake(s.file, i, p, ALLOCATED);
    assert t.freeTotal == FreeSum(t.file);
    forall l | l in k.want
      ensures IsPage(t, l)
    {
      assert l == Loc(i, p) || IsPage(s, l);
    }
  }

  lemma WritePageKeeps(s: IoState, h: History, i: nat, data: int)
    requires Inv(s, h) && Enabled(s, WritePage(i, data))
    ensures Inv(Next(s, WritePage(i, data)), NextHistory(s, h, WritePage(i, data)))
  {
    hide FilesInv, RestInv, NextFree;
    WritePageKeepsFiles(s, h, i, data);
    WritePageKeepsRest(s, h, i, data);
  }

  // ---------- io_free_disk_page ----------

  lemma ReleaseKeepsFile(i: nat, f: FileT, w: Writer, blocks: seq<Block>, prevRoot: Option<Loc>, nextStamp: Stamp,
                         h: History, p: nat)
    requires FileInv(i, f, w, blocks, prevRoot, nextStamp, h)
    requires p < |blocks| && f.status[p] == ALLOCATED
    ensures FileInv(i, Release(f, p), w, blocks, prevRoot, nextStamp,
                    h.(want := h.want - {Loc(i, p)}, durable := h.durable - {Loc(i, p)}))
  {
    FreeCountBound(f.status);
    CountReleased(f.status, p);
    var g, k := Release(f, p), h.(want := h.want - {Loc(i, p)}, durable := h.durable - {Loc(i, p)});
    forall q: nat | q < |blocks|
      ensures g.status[q] in {ALLOCATED, ROOT, FREE}
      ensures g.status[q] == ROOT <==> prevRoot == Some(Loc(i, q))
      ensures g.status[q] == ALLOCATED <==> Loc(i, q) in k.want
    {
      assert f.status[q] == ALLOCATED <==> Loc(i, q) in h.want;
    }
  }

  lemma FreePageKeepsFiles(s: IoState, h: History, l: Loc)
    requires Inv(s, h) && Enabled(s, FreePage(l)) && s.file[l.file].status[l.page] == ALLOCATED
    ensures FilesInv(Next(s, FreePage(l)), NextHistory(s, h, FreePage(l)))
  {
    hide FileInv, RootInv, RestInv, NextFree, RootFile;
    var t, k := Next(s, FreePage(l)), NextHistory(s, h, FreePage(l));
    forall j | 0 <= j < |t.file|
      ensures FileInv(j, t.file[j], t.writer[j], t.disk[j], t.prevRoot, t.nextStamp, k)
    {
      if j != l.file {
        OtherFileKept(j, s.file[j], s.writer[j], s.disk[j], s.prevRoot, s.nextStamp, h, k);
      } else {
        ReleaseKeepsFile(j, s.file[j], s.writer[j], s.disk[j], s.prevRoot, s.nextStamp, h, l.page);
      }
    }
  }

  lemma FreePageKeepsRest(s: IoState, h: History, l: Loc)
    requires ShapeOk(s) && RestInv(s, h) && Enabled(s, FreePage(l)) && s.file[l.file].status[l.page] == ALLOCATED
    ensures RestInv(Next(s, FreePage(l)), NextHistory(s, h, FreePage(l)))
  {
    var f := s.file[l.file := Release(s.file[l.file], l.page)];
    TotalAfterRelease(s.file, l.file, l.page);
    FreeSumBound(f, s.disk);
    var t := Next(s, FreePage(l));
    assert t.file == f && t.freeTotal == FreeSum(f);
    forall m | m in h.want - {l}
      ensures IsPage(t, m)
    {
      assert IsPage(s, m);
    }
  }

  lemma FreePageKeepsRoot(s: IoState, h: History, l: Loc)
    requires ShapeOk(s) && RootInv(s, h) && Enabled(s, FreePage(l))
    ensures RootInv(Next(s, FreePage(l)), NextHistory(s, h, FreePage(l)))
  {
    assert Next(s, FreePage(l)).disk == s.disk;
  }

  lemma FreePageKeeps(s: IoState, h: History, l: Loc)
    requires Inv(s, h) && Enabled(s, FreePage(l))
    ensures Inv(Next(s, FreePage(l)), NextHistory(s, h, FreePage(l)))
  {
    if s.file[l.file].status[l.page] == FREE {
      NothingToFree(s, h, l);
    } else {
      FreePageKeepsFiles(s, h, l);
      FreePageKeepsRest(s, h, l);
      FreePageKeepsRoot(s, h, l);
    }
  }

  lemma NothingToFree(s: IoState, h: History, l: Loc)
    requires Inv(s, h) && IsPage(s, l) && s.file[l.file].status[l.page] == FREE
    ensures h.want - {l} == h.want && h.durable - {l} == h.durable
  {
    assert FileInv(l.file, s.file[l.file], s.writer[l.file], s.disk[l.file], s.prevRoot, s.nextStamp, h);
    assert Loc(l.file, l.page) == l;
    assert l !in h.want;
  }

  // ---------- the drain ----------

  /** Waiting changes nothing but where the main thread waits. */
  lemma PhaseKeepsFiles(s: IoState, h: History, phase: Phase)
    requires ShapeOk(s) && FilesInv(s, h) && RootInv(s, h)
    ensures ShapeOk(s.(phase := phase)) && FilesInv(s.(phase := phase), h) && RootInv(s.(phase := phase), h)
  {
    var t := s.(phase := phase);
    forall j | 0 <= j < |t.file|
      ensures FileInv(j, t.file[j], t.writer[j], t.disk[j], t.prevRoot, t.nextStamp, h)
    {
      assert FileInv(j, s.file[j], s.writer[j], s.disk[j], s.prevRoot, s.nextStamp, h);
    }
  }

  lemma BeginRootKeeps(s: IoState, h: History)
    requires Inv(s, h) && Enabled(s, BeginRoot)
    ensures Inv(Next(s, BeginRoot), h)
  {
    PhaseKeepsFiles(s, h, Draining(0));
  }

  lemma DrainedIsEmpty(s: IoState, h: History, i: nat)
    requires Inv(s, h) && i < |s.writer| && s.writer[i].pending == 0
    ensures Pending(s.writer[i]) == []
  {
    assert FileInv(i, s.file[i], s.writer[i], s.disk[i], s.prevRoot, s.nextStamp, h);
  }

  lemma DrainFileKeepsRest(s: IoState, h: History)
    requires ShapeOk(s) && RestInv(s, h) && Enabled(s, DrainFile) && Pending(s.writer[s.phase.next]) == []
    ensures RestInv(Next(s, DrainFile), h)
  {
    var t := Next(s, DrainFile);
    forall m | m in h.want
      ensures IsPage(t, m)
    {
      assert IsPage(s, m);
    }
  }

  lemma DrainFileKeeps(s: IoState, h: History)
    requires Inv(s, h) && Enabled(s, DrainFile)
    ensures Inv(Next(s, DrainFile), h)
  {
    DrainedIsEmpty(s, h, s.phase.next);
    DrainFileKeepsRest(s, h);
    PhaseKeepsFiles(s, h, Next(s, DrainFile).phase);
  }

  // ---------- the writer thread ----------

  /** One step of a writer thread, on one file. */
  ghost predicate WriterStep(w: Writer, blocks: seq<Block>, v: Writer, after: seq<Block>) {
    || (w.queued != [] && w.current.None? && after == blocks
        && v == w.(queued := w.queued[1..], current := Some(Current(w.queued[0], false))))
    || (w.current.Some? && !w.current.value.landed && w.current.value.aio.page < |blocks|
        && v == w.(current := Some(Current(w.current.value.aio, true)))
        && after == blocks[w.current.value.aio.page := PageBlock(w.current.value.aio.data)])
    || (w.current.Some? && w.current.value.landed && after == blocks
        && v == w.(current := None, pending := w.pending - 1))
  }

  /** Landing a request changes the disk, but not what the disk will be. */
  lemma WriterStepKeepsOverlay(w: Writer, blocks: seq<Block>, v: Writer, after: seq<Block>)
    requires WriterInv(w, blocks) && WriterStep(w, blocks, v, after)
    ensures WriterInv(v, after) && |after| == |blocks|
    ensures Overlay(after, Pending(v)) == Overlay(blocks, Pending(w))
    ensures forall k | 0 <= k < |Pending(v)| :: Pending(v)[k] in Pending(w)
  {
    if w.current.None? {
      assert Pending(v) == Pending(w);
      assert Pending(v)[0] == v.current.value.aio;
    } else if !w.current.value.landed {
      var a := w.current.value.aio;
      assert Pending(v) == Pending(w);
      assert Pending(w)[0] == a;
      assert after[a.page := PageBlock(a.data)] == after;
    } else {
      var a := w.current.value.aio;
      assert Pending(v) == Pending(w)[1..];
      assert Pending(w)[0] == a;
      assert blocks[a.page := PageBlock(a.data)] == blocks;
    }
  }

  lemma WriterStepKeepsFile(i: nat, f: FileT, w: Writer, blocks: seq<Block>, v: Writer, after: seq<Block>,
                            prevRoot: Option<Loc>, nextStamp: Stamp, h: History)
    requires FileInv(i, f, w, blocks, prevRoot, nextStamp, h) && WriterStep(w, blocks, v, after)
    ensures FileInv(i, f, v, after, prevRoot, nextStamp, h)
  {
    WriterStepKeepsOverlay(w, blocks, v, after);
    if after != blocks {
      var a := w.current.value.aio;
      DataWriteKeepsWellPlaced(blocks, a.page, a.data);
      forall p | RootAt(after, p)
        ensures 0 < Value(StampAt(after, p)) < Value(nextStamp)
      {
        assert RootAt(blocks, p);
      }
    }
  }

  lemma WriterStepKeepsFiles(s: IoState, h: History, i: nat, e: Event)
    requires e in {TakeRequest(i), LandRequest(i), FinishRequest(i)}
    requires Inv(s, h) && Enabled(s, e)
    ensures FilesInv(Next(s, e), h)
    ensures |Next(s, e).disk[i]| == |s.disk[i]|
    ensures Pending(s.writer[i]) == [] ==> Pending(Next(s, e).writer[i]) == []
  {
    hide RootInv, RestInv, NextFree, RootFile;
    var t := Next(s, e);
    assert WriterStep(s.writer[i], s.disk[i], t.writer[i], t.disk[i]);
    forall j | 0 <= j < |t.file|
      ensures FileInv(j, t.file[j], t.writer[j], t.disk[j], t.prevRoot, t.nextStamp, h)
    {
      assert FileInv(j, s.file[j], s.writer[j], s.disk[j], s.prevRoot, s.nextStamp, h);
      if j == i {
        WriterStepKeepsFile(i, s.file[i], s.writer[i], s.disk[i], t.writer[i], t.disk[i], s.prevRoot, s.nextStamp, h);
      }
    }
    WriterStepKeepsOverlay(s.writer[i], s.disk[i], t.writer[i], t.disk[i]);
  }

  lemma WriterStepKeepsRest(s: IoState, h: History, i: nat, e: Event)
    requires e in {TakeRequest(i), LandRequest(i), FinishRequest(i)}
    requires Inv(s, h) && Enabled(s, e)
    ensures RestInv(Next(s, e), h)
  {
    WriterStepKeepsFiles(s, h, i, e);
    PageSumUpdate(s.disk, i, Next(s, e).disk[i]);
  }

  /** The writer threads leave the last root and all durable pages alone. */
  lemma WriterEventKeeps(s: IoState, h: History, i: nat, e: Event)
    requires e in {TakeRequest(i), LandRequest(i), FinishRequest(i)}
    requires Inv(s, h) && Enabled(s, e)
    ensures Inv(Next(s, e), h)
  {
    WriterStepKeepsFiles(s, h, i, e);
    WriterStepKeepsRoot(s, h, i, e);
    WriterStepKeepsRest(s, h, i, e);
  }

  lemma WriterStepKeepsRoot(s: IoState, h: History, i: nat, e: Event)
    requires e in {TakeRequest(i), LandRequest(i), FinishRequest(i)}
    requires Inv(s, h) && Enabled(s, e)
    ensures RootInv(Next(s, e), h)
  {
    var t := Next(s, e);
    if e.LandRequest? {
      var a := s.writer[i].current.value.aio;
      assert FileInv(i, s.file[i], s.writer[i], s.disk[i], s.prevRoot, s.nextStamp, h);
      assert Pending(s.writer[i])[0] == a;
      assert s.prevRoot != Some(Loc(i, a.page));
      forall j, q | 0 <= j < |t.disk| && RootAt(t.disk[j], q)
        ensures RootAt(s.disk[j], q) && t.disk[j][q] == s.disk[j][q]
      {
      }
    }
  }

  // ---------- io_write_root ----------

  lemma AllDrained(s: IoState, h: History)
    requires Inv(s, h) && s.phase == Draining(|s.writer|)
    ensures forall i | 0 <= i < |s.file| :: Pending(s.writer[i]) == [] && Overlay(s.disk[i], []) == s.disk[i]
  {
  }

  /** File `j` after the root went to `l` and the page of the previous root was released. */
  function RootedFile(j: nat, f: FileT, l: Loc, prevRoot: Option<Loc>): FileT
    requires l.file == j ==> l.page < |f.status|
    requires prevRoot.Some? && prevRoot.value.file == j ==> prevRoot.value.page < |f.status|
  {
    var g := if j == l.file then Take(f, l.page, ROOT) else f;
    if prevRoot.Some? && prevRoot.value.file == j then Release(g, prevRoot.value.page) else g
  }

  function RootedBlocks(j: nat, blocks: seq<Block>, l: Loc, root: Block): seq<Block>
    requires l.file == j ==> l.page < |blocks|
  {
    if j == l.file then blocks[l.page := root] else blocks
  }

  lemma RootedStatus(j: nat, f: FileT, w: Writer, blocks: seq<Block>, prevRoot: Option<Loc>, h: History,
                     l: Loc, root: Block)
    requires |f.status| == |blocks| && Pending(w) == [] && StatusInv(j, f, w, blocks, prevRoot, h)
    requires l.file == j ==> l.page < |blocks| && f.status[l.page] == FREE
    requires prevRoot.Some? && prevRoot.value.file == j ==> prevRoot.value.page < |f.status|
    ensures StatusInv(j, RootedFile(j, f, l, prevRoot), w, RootedBlocks(j, blocks, l, root), Some(l),
                      h.(lastRoot := Some(root), durable := h.want.Keys))
  {
    var g, after := RootedFile(j, f, l, prevRoot), RootedBlocks(j, blocks, l, root);
    assert Overlay(after, Pending(w)) == after && Overlay(blocks, Pending(w)) == blocks;
    forall p: nat | p < |blocks|
      ensures g.status[p] in {ALLOCATED, ROOT, FREE}
      ensures g.status[p] == ROOT <==> l == Loc(j, p)
      ensures g.status[p] == ALLOCATED <==> Loc(j, p) in h.want
      ensures Loc(j, p) in h.want ==> after[p] == PageBlock(h.want[Loc(j, p)])
    {
      assert f.status[p] == ROOT <==> prevRoot == Some(Loc(j, p));
      assert f.status[p] == ALLOCATED <==> Loc(j, p) in h.want;
    }
  }

  /** The free counter of a file after the root has gone to one of its pages, or has left one, or both. */
  lemma RootedCount(j: nat, f: FileT, l: Loc, prevRoot: Option<Loc>, short: bool)
    requires |f.status| <= PAGE_INDEX_LIMIT
    requires l.file == j ==> l.page < |f.status| && f.status[l.page] == FREE
    requires prevRoot.Some? && prevRoot.value.file == j ==>
               prevRoot.value.page < |f.status| && f.status[prevRoot.value.page] == ROOT
    requires f.freePages == if short then Pred(FreeCount(f.status)) else FreeCount(f.status)
    ensures var g := RootedFile(j, f, l, prevRoot);
            g.freePages == if short then Pred(FreeCount(g.status)) else FreeCount(g.status)
  {
    var g := if j == l.file then Take(f, l.page, ROOT) else f;
    FreeCountBound(f.status);
    if j == l.file {
      CountTaken(f.status, l.page, ROOT);
    }
    if prevRoot.Some? && prevRoot.value.file == j {
      CountReleased(g.status, prevRoot.value.page);
    }
  }

  /** The root page: ordered from the page after it, newest of the file. */
  lemma RootedBlocksKept(blocks: seq<Block>, c: nat, stamp: Stamp, body: int)
    requires c < |blocks| && WellPlaced(blocks) && Ready(blocks, c) && UnusedIsSuffix(blocks, c)
    requires StampsBelow(blocks, stamp) && stamp != MAX_STAMP && 0 < Value(stamp)
    ensures var after := blocks[c := RootBlock(stamp, body)];
            && WellPlaced(after) && StampsBelow(after, Increment(stamp))
            && Ready(after, (c + 1) % |after|) && UnusedIsSuffix(after, (c + 1) % |after|)
  {
    var after := blocks[c := RootBlock(stamp, body)];
    RootWriteKeepsOrder(blocks, c, stamp, body);
    IncrementIsNewer(stamp);
    assert UnusedIsSuffix(after, c) by {
      forall a, b | 0 <= a < b < |after| && after[a].UnusedBlock?
        ensures !RootAt(after, b)
      {
        assert blocks[a].UnusedBlock? && a >= c;
        assert RootAt(after, b) ==> RootAt(blocks, b);
      }
    }
    StepCursor(after, c);
    assert SortedFrom(after, c + 1) && 0 <= c + 1 <= |after|;
    forall p | RootAt(after, p)
      ensures 0 < Value(StampAt(after, p)) < Value(Increment(stamp))
    {
      assert p != c ==> RootAt(blocks, p);
    }
  }

  lemma RootedLayout(j: nat, f: FileT, blocks: seq<Block>, prevRoot: Option<Loc>, nextStamp: Stamp, l: Loc, body: int)
    requires |f.status| == |blocks| && f.cursor < |blocks| && WellPlaced(blocks) && StampsBelow(blocks, nextStamp)
    requires Ready(blocks, f.cursor) && UnusedIsSuffix(blocks, f.cursor)
    requires nextStamp != MAX_STAMP && 0 < Value(nextStamp)
    requires prevRoot.Some? && prevRoot.value.file == j ==> prevRoot.value.page < |f.status|
    requires l.file == j ==> l.page < |blocks| && Ready(blocks, l.page) && UnusedIsSuffix(blocks, l.page)
    ensures var g := RootedFile(j, f, l, prevRoot);
            var after := RootedBlocks(j, blocks, l, RootBlock(nextStamp, body));
            && |g.status| == |after| == |blocks| && g.cursor < |after|
            && WellPlaced(after) && StampsBelow(after, Increment(nextStamp))
            && Ready(after, g.cursor) && UnusedIsSuffix(after, g.cursor)
  {
    IncrementIsNewer(nextStamp);
    if j == l.file {
      RootedBlocksKept(blocks, l.page, nextStamp, body);
    }
  }

  lemma RootedFileKept(j: nat, f: FileT, w: Writer, blocks: seq<Block>, prevRoot: Option<Loc>, nextStamp: Stamp,
                       h: History, l: Loc, body: int)
    requires FileInv(j, f, w, blocks, prevRoot, nextStamp, h) && Pending(w) == []
    requires nextStamp != MAX_STAMP && 0 < Value(nextStamp)
    requires prevRoot.Some? && prevRoot.value.file == j ==> prevRoot.value.page < |f.status|
    requires l.file == j ==>
               l.page < |blocks| && f.status[l.page] == FREE && Ready(blocks, l.page) && UnusedIsSuffix(blocks, l.page)
    ensures var root := RootBlock(nextStamp, body);
            FileInv(j, RootedFile(j, f, l, prevRoot), w, RootedBlocks(j, blocks, l, root), Some(l),
                    Increment(nextStamp), h.(lastRoot := Some(root), durable := h.want.Keys))
  {
    var root := RootBlock(nextStamp, body);
    RootedStatus(j, f, w, blocks, prevRoot, h, l, root);
    if prevRoot.Some? && prevRoot.value.file == j {
      assert prevRoot == Some(Loc(j, prevRoot.value.page));
    }
    RootedCount(j, f, l, prevRoot, h.shortFile == Some(j));
    RootedLayout(j, f, blocks, prevRoot, nextStamp, l, body);
  }

  lemma WriteRootShape(s: IoState, body: int)
    requires ShapeOk(s) && Enabled(s, WriteRoot(body))
    ensures var t, l := Next(s, WriteRoot(body)), RootPlace(s);
            && |t.file| == |s.file| && t.writer == s.writer && t.prevRoot == Some(l)
            && t.nextStamp == Increment(s.nextStamp) && t.phase == Running
            && forall j | 0 <= j < |s.file| ::
                 && (l.file == j ==> l.page < |s.disk[j]|)
                 && (s.prevRoot.Some? && s.prevRoot.value.file == j ==> s.prevRoot.value.page < |s.disk[j]|)
                 && t.file[j] == RootedFile(j, s.file[j], l, s.prevRoot)
                 && t.disk[j] == RootedBlocks(j, s.disk[j], l, RootBlock(s.nextStamp, body))
  {
  }

  lemma WriteRootKeepsFiles(s: IoState, h: History, body: int)
    requires Inv(s, h) && Enabled(s, WriteRoot(body)) && s.nextStamp != MAX_STAMP
    ensures FilesInv(Next(s, WriteRoot(body)), NextHistory(s, h, WriteRoot(body)))
  {
    var t, k := Next(s, WriteRoot(body)), NextHistory(s, h, WriteRoot(body));
    var l := RootPlace(s);
    WriteRootShape(s, body);
    AllDrained(s, h);
    PlaceIsReady(s, h, l.file);
    forall j | 0 <= j < |t.file|
      ensures FileInv(j, t.file[j], t.writer[j], t.disk[j], t.prevRoot, t.nextStamp, k)
    {
      RootedFileKept(j, s.file[j], s.writer[j], s.disk[j], s.prevRoot, s.nextStamp, h, l, body);
    }
  }

  lemma StampsAreBelow(s: IoState, h: History)
    requires ShapeOk(s) && FilesInv(s, h)
    ensures forall i, q | 0 <= i < |s.disk| && RootAt(s.disk[i], q) ::
              0 < Value(StampAt(s.disk[i], q)) < Value(s.nextStamp)
  {
    forall i, q | 0 <= i < |s.disk| && RootAt(s.disk[i], q)
      ensures 0 < Value(StampAt(s.disk[i], q)) < Value(s.nextStamp)
    {
      assert FileInv(i, s.file[i], s.writer[i], s.disk[i], s.prevRoot, s.nextStamp, h);
    }
  }

  lemma WriteRootKeepsRoot(s: IoState, h: History, body: int)
    requires Inv(s, h) && Enabled(s, WriteRoot(body)) && s.nextStamp != MAX_STAMP
    ensures RootInv(Next(s, WriteRoot(body)), NextHistory(s, h, WriteRoot(body)))
  {
    hide FirstFree, FileShape;
    var t := Next(s, WriteRoot(body));
    var l := RootPlace(s);
    WriteRootShape(s, body);
    StampsAreBelow(s, h);
    forall i, q | 0 <= i < |t.disk| && RootAt(t.disk[i], q) && Loc(i, q) != l
      ensures Value(StampAt(t.disk[i], q)) < Value(s.nextStamp)
    {
      assert RootAt(s.disk[i], q) && t.disk[i][q] == s.disk[i][q];
    }
  }

  /** Releasing the page of the previous root, if there is one. */
  function ReleaseRoot(file: seq<FileT>, prevRoot: Option<Loc>): seq<FileT>
    requires prevRoot.Some? ==> prevRoot.value.file < |file| && prevRoot.value.page < |file[prevRoot.value.file].status|
  {
    if prevRoot.None? then file
    else file[prevRoot.value.file := Release(file[prevRoot.value.file], prevRoot.value.page)]
  }

  lemma TotalAfterRootFiles(file: seq<FileT>, l: Loc, prevRoot: Option<Loc>)
    requires l.file < |file| && l.page < |file[l.file].status| && file[l.file].status[l.page] == FREE
    requires prevRoot.Some? ==> prevRoot.value.file < |file| && prevRoot.value.page < |file[prevRoot.value.file].status|
    requires prevRoot.Some? ==> file[prevRoot.value.file].status[prevRoot.value.page] == ROOT
    requires FreeSum(file) < WORD_LIMIT
    ensures var taken := file[l.file := Take(file[l.file], l.page, ROOT)];
            var total := if prevRoot.None? then Pred(FreeSum(file)) else Succ(Pred(FreeSum(file)));
            FreeSum(ReleaseRoot(taken, prevRoot)) == total
  {
    var taken := file[l.file := Take(file[l.file], l.page, ROOT)];
    TotalAfterTake(file, l.file, l.page, ROOT);
    if prevRoot.Some? {
      var r := prevRoot.value;
      assert taken[r.file].status[r.page] == ROOT;
      TotalAfterRelease(taken, r.file, r.page);
      CountTaken(file[l.file].status, l.page, ROOT);
    }
  }

  lemma PrevRootIsRoot(s: IoState, h: History)
    requires Inv(s, h) && s.prevRoot.Some?
    ensures s.file[s.prevRoot.value.file].status[s.prevRoot.value.page] == ROOT
  {
    var r := s.prevRoot.value;
    assert FileInv(r.file, s.file[r.file], s.writer[r.file], s.disk[r.file], s.prevRoot, s.nextStamp, h);
    assert s.prevRoot == Some(Loc(r.file, r.page));
  }

  lemma TotalAfterRoot(s: IoState, body: int)
    requires ShapeOk(s) && Enabled(s, WriteRoot(body))
    requires s.freeTotal == FreeSum(s.file) < WORD_LIMIT
    requires s.prevRoot.Some? ==> s.file[s.prevRoot.value.file].status[s.prevRoot.value.page] == ROOT
    ensures Next(s, WriteRoot(body)).freeTotal == FreeSum(Next(s, WriteRoot(body)).file)
  {
    var l := RootPlace(s);
    var t := WriteRootStep(s, body);
    var taken := s.file[l.file := Take(s.file[l.file], l.page, ROOT)];
    TotalAfterRootFiles(s.file, l, s.prevRoot);
    assert t.file == ReleaseRoot(taken, s.prevRoot);
  }

  lemma WriteRootKeepsRest(s: IoState, h: History, body: int)
    requires ShapeOk(s) && RestInv(s, h) && Enabled(s, WriteRoot(body)) && s.nextStamp != MAX_STAMP
    requires s.prevRoot.Some? ==> s.file[s.prevRoot.value.file].status[s.prevRoot.value.page] == ROOT
    ensures RestInv(Next(s, WriteRoot(body)), NextHistory(s, h, WriteRoot(body)))
  {
    hide FirstFree, NextFree, RootFile, FreeCount, FreeSum;
    var t := Next(s, WriteRoot(body));
    WriteRootShape(s, body);
    FreeSumBound(s.file, s.disk);
    TotalAfterRoot(s, body);
    PageSumUpdate(s.disk, RootPlace(s).file, t.disk[RootPlace(s).file]);
    IncrementIsNewer(s.nextStamp);
    forall m | m in h.want
      ensures IsPage(t, m)
    {
      assert IsPage(s, m);
    }
  }

  lemma WriteRootKeeps(s: IoState, h: History, body: int)
    requires Inv(s, h) && Enabled(s, WriteRoot(body)) && s.nextStamp != MAX_STAMP
    ensures Inv(Next(s, WriteRoot(body)), NextHistory(s, h, WriteRoot(body)))
  {
    hide FilesInv, RestInv, RootInv;
    WriteRootKeepsFiles(s, h, body);
    WriteRootKeepsRoot(s, h, body);
    if s.prevRoot.Some? {
      PrevRootIsRoot(s, h);
    }
    WriteRootKeepsRest(s, h, body);
  }
}
