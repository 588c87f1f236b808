/** Where io.c puts pages and roots, written out, and that waiting for the writers comes to an end. */
module IoPlacement {

  import opened Wrappers
  import opened DiskLayout
  import opened IoSteps
  import opened IoInvariant
  import opened IoRecovery

  // ---------- pages and files ----------

  /** The cursor goes to the first FREE page at or cyclically after it, if the file has any. */
  lemma NextFreeIsFirst(f: FileT)
    requires f.cursor <= |f.status|
    ensures NextFree(f).Some? <==> FREE in f.status
    ensures NextFree(f).Some? ==>
              var p := NextFree(f).value;
              && p < |f.status| && f.status[p] == FREE
              && forall q | 0 <= q < |f.status| && (if f.cursor <= p then f.cursor <= q < p else f.cursor <= q || q < p) ::
                   f.status[q] != FREE
  {
  }

  /** The file that `io_write_page` settles on: the first from `from` on that can take a page. */
  function PageFile(file: seq<FileT>, from: nat, left: nat): (r: Option<nat>)
    requires from < |file| && left <= |file|
    requires forall i | 0 <= i < |file| :: file[i].cursor <= |file[i].status|
    ensures r.Some? ==> r.value < |file| && CanTakePage(file[r.value])
    decreases left
  {
    if left == 0 then None
    else if CanTakePage(file[from]) then Some(from)
    else PageFile(file, (from + 1) % |file|, left - 1)
  }

  /** The round robin finds a file exactly when some file has a FREE page and counts more than one: the last one
      is kept for a root. */
  lemma PageFileIff(file: seq<FileT>, from: nat)
    requires from < |file| && forall j | 0 <= j < |file| :: file[j].cursor <= |file[j].status|
    ensures PageFile(file, from, |file|).Some? <==> exists i | 0 <= i < |file| :: file[i].freePages > 1 && FREE in file[i].status
  {
    PageFileIsFirst(file, from, |file|);
  }

  /** It is the first such file from `from` on, cyclically. */
  lemma {:induction false} PageFileIsFirst(file: seq<FileT>, from: nat, left: nat)
    requires from < |file| && left <= |file| && forall j | 0 <= j < |file| :: file[j].cursor <= |file[j].status|
    ensures var r := PageFile(file, from, left);
            && (r.Some? ==>
                  && r.value < |file| && file[r.value].freePages > 1 && FREE in file[r.value].status
                  && forall j | 0 <= j < |file| && (if from <= r.value then from <= j < r.value else from <= j || j < r.value) ::
                       !(file[j].freePages > 1 && FREE in file[j].status))
            && (r.None? ==> forall j | 0 <= j < |file| && Within(|file|, from, left, j) ::
                              !(file[j].freePages > 1 && FREE in file[j].status))
    decreases left
  {
    hide NextFree;
    if left > 0 {
      NextFreeIsFirst(file[from]);
      if !CanTakePage(file[from]) {
        NextIndex(|file|, from);
        PageFileIsFirst(file, (from + 1) % |file|, left - 1);
      }
    }
  }

  /** A root goes to the first file from `from` on, cyclically, that has a FREE page at all. */
  lemma {:induction false} RootFileIsFirst(file: seq<FileT>, from: nat, left: nat)
    requires from < |file| && left <= |file|
    ensures var r := RootFile(file, from, left);
            && (r.Some? ==>
                  && r.value < |file| && FREE in file[r.value].status
                  && forall j | 0 <= j < |file| && (if from <= r.value then from <= j < r.value else from <= j || j < r.value) ::
                       FREE !in file[j].status)
            && (r.None? ==> forall j | 0 <= j < |file| && Within(|file|, from, left, j) :: FREE !in file[j].status)
    decreases left
  {
    if left > 0 && FREE !in file[from].status {
      NextIndex(|file|, from);
      RootFileIsFirst(file, (from + 1) % |file|, left - 1);
    }
  }

  /** A page write, written out: the page becomes ALLOCATED and is counted off, the cursor stands behind it, the
      request goes last to the file's writer, and the next page goes to the file after this one. */
  lemma WritePageIs(s: IoState, i: nat, data: int)
    requires ShapeOk(s) && i < |s.file| && NextFree(s.file[i]).Some?
    ensures var t, p, n := WritePageStep(s, i, data), NextFree(s.file[i]).value, |s.file[i].status|;
            && |t.file| == |s.file| && |t.writer| == |s.writer| && p < n
            && t.file[i].status == s.file[i].status[p := ALLOCATED]
            && t.file[i].cursor == (if p + 1 == n then 0 else p + 1)
            && t.file[i].freePages == (if s.file[i].freePages == 0 then WORD_LIMIT - 1 else s.file[i].freePages - 1)
            && t.freeTotal == (if s.freeTotal == 0 then WORD_LIMIT - 1 else s.freeTotal - 1)
            && t.writer[i].queued == s.writer[i].queued + [Aio(p, data)]
            && t.writer[i].current == s.writer[i].current && t.writer[i].pending == s.writer[i].pending + 1
            && t.fileCursor == (if i + 1 == |s.file| then 0 else i + 1)
            && (forall j | 0 <= j < |s.file| && j != i :: t.file[j] == s.file[j] && t.writer[j] == s.writer[j])
            && t.disk == s.disk && t.prevRoot == s.prevRoot && t.nextStamp == s.nextStamp && t.phase == s.phase
  {
    hide NextFree, FirstFree, FileShape;
    CursorIsIn(s, i);
    NextFreeIsFirst(s.file[i]);
    NextIndex(|s.file[i].status|, NextFree(s.file[i]).value);
    NextIndex(|s.file|, i);
  }

  lemma CursorIsIn(s: IoState, i: nat)
    requires ShapeOk(s) && i < |s.file|
    ensures s.file[i].cursor < |s.file[i].status| && |s.writer| == |s.file|
  {
  }

  /** A root write, written out: the root is on disk in a page that was FREE and is now ROOT, the previous root's
      page is FREE again, no other page has changed, and the counters, the cursor and the stamp go on. */
  lemma WriteRootIs(s: IoState, body: int)
    requires ShapeOk(s) && RootFile(s.file, s.fileCursor, |s.file|).Some? && 0 < s.freeTotal < WORD_LIMIT
    requires s.prevRoot.Some? ==> s.file[s.prevRoot.value.file].status[s.prevRoot.value.page] == ROOT
    ensures var t, l := WriteRootStep(s, body), RootPlace(s);
            && IsPage(s, l) && s.file[l.file].status[l.page] == FREE
            && |t.file| == |s.file| && |t.disk| == |s.disk| && t.prevRoot == Some(l)
            && (forall i | 0 <= i < |s.file| :: |t.file[i].status| == |s.file[i].status| && |t.disk[i]| == |s.disk[i]|)
            && (forall i: nat, p: nat | i < |s.file| && p < |s.file[i].status| ::
                  t.file[i].status[p] == (if Loc(i, p) == l then ROOT
                                          else if s.prevRoot == Some(Loc(i, p)) then FREE else s.file[i].status[p]))
            && (forall i: nat, p: nat | i < |s.disk| && p < |s.disk[i]| ::
                  t.disk[i][p] == if Loc(i, p) == l then RootBlock(s.nextStamp, body) else s.disk[i][p])
            && t.freeTotal == (if s.prevRoot.Some? then s.freeTotal else s.freeTotal - 1)
            && t.fileCursor == (if l.file + 1 == |s.file| then 0 else l.file + 1)
            && t.nextStamp == Increment(s.nextStamp) && t.writer == s.writer && t.phase == Running
  {
    hide FirstFree, Increment;
    NextFreeIsFirst(s.file[RootPlace(s).file]);
    NextIndex(|s.file|, RootPlace(s).file);
  }

  // ---------- the end of waiting ----------

  /** How many steps a writer thread still has to take. */
  function Work(w: Writer): nat {
    3 * |w.queued| + if w.current.None? then 0 else if w.current.value.landed then 1 else 2
  }

  function TotalWork(writer: seq<Writer>): nat {
    if writer == [] then 0 else TotalWork(writer[..|writer| - 1]) + Work(writer[|writer| - 1])
  }

  lemma {:induction false} TotalWorkChanged(writer: seq<Writer>, i: nat, w: Writer)
    requires i < |writer|
    ensures TotalWork(writer[i := w]) + Work(writer[i]) == TotalWork(writer) + Work(w)
  {
    var n := |writer| - 1;
    if i < n {
      TotalWorkChanged(writer[..n], i, w);
      assert writer[i := w][..n] == writer[..n][i := w];
    } else {
      assert writer[i := w][..n] == writer[..n];
    }
  }

  lemma {:induction false} NoWork(writer: seq<Writer>)
    requires forall i | 0 <= i < |writer| :: Pending(writer[i]) == []
    ensures TotalWork(writer) == 0
  {
    if writer != [] {
      NoWork(writer[..|writer| - 1]);
      assert Pending(writer[|writer| - 1]) == [];
    }
  }

  /** The steps that the writer threads and the waiting main thread still have to take before the root is written. */
  function DrainMeasure(s: IoState): nat
    requires s.phase.Draining? && s.phase.next <= |s.writer|
  {
    TotalWork(s.writer) + |s.writer| - s.phase.next
  }

  predicate IsDrainStep(e: Event) {
    e.DrainFile? || e.TakeRequest? || e.LandRequest? || e.FinishRequest?
  }

  /** Each of them is one step less. */
  lemma DrainStepCounts(s: IoState, h: History, e: Event)
    requires Inv(s, h) && s.phase.Draining? && Enabled(s, e) && IsDrainStep(e)
    ensures var t := Next(s, e);
            t.phase.Draining? && t.phase.next <= |t.writer| == |s.writer| && DrainMeasure(t) + 1 == DrainMeasure(s)
  {
    match e
    case DrainFile =>
    case TakeRequest(i) => TotalWorkChanged(s.writer, i, Next(s, e).writer[i]);
    case LandRequest(i) => TotalWorkChanged(s.writer, i, Next(s, e).writer[i]);
    case FinishRequest(i) => TotalWorkChanged(s.writer, i, Next(s, e).writer[i]);
  }

  /** As long as the wait is not over some step of it is possible. */
  lemma DrainIsNotStuck(s: IoState, h: History) returns (e: Event)
    requires Inv(s, h) && s.phase.Draining? && s.phase.next < |s.writer|
    ensures IsDrainStep(e) && Enabled(s, e)
  {
    var i := s.phase.next;
    var w := s.writer[i];
    assert WriterInv(w, s.disk[i]) by {
      assert FileInv(i, s.file[i], w, s.disk[i], s.prevRoot, s.nextStamp, h);
    }
    e := if w.pending == 0 then DrainFile
         else if w.current.None? then TakeRequest(i)
         else if w.current.value.landed then FinishRequest(i) else LandRequest(i);
  }

  /** `asyncio_drain_pending_writes` comes to an end: in whatever order the threads take their steps, short of a
      crash, a run of the wait takes as many steps as were counted when it began, no more, and it is never stuck
      before.  When all are taken the root may be written. */
  lemma {:induction false} DrainEnds(s: IoState, h: History, run: seq<Event>)
    requires Inv(s, h) && s.phase.Draining? && s.phase.next <= |s.writer| && CanRun(s, h, run)
    requires forall k | 0 <= k < |run| :: IsDrainStep(run[k])
    ensures var (t, k) := After(s, h, run);
            && Inv(t, k) && t.phase.Draining? && t.phase.next <= |t.writer| == |s.writer|
            && |run| + DrainMeasure(t) == DrainMeasure(s)
            && (DrainMeasure(t) == 0 <==> t.phase == Draining(|t.writer|))
            && (t.phase.next < |t.writer| ==> exists e :: IsDrainStep(e) && Enabled(t, e))
    decreases |run|
  {
    hide Inv, Enabled, Next, NextHistory;
    if run == [] {
      DrainedHasNoWork(s, h);
      if s.phase.next < |s.writer| {
        var e := DrainIsNotStuck(s, h);
      }
    } else {
      InvHasShape(s, h);
      EventKeeps(s, h, run[0]);
      DrainStepCounts(s, h, run[0]);
      DrainEnds(Next(s, run[0]), NextHistory(s, h, run[0]), run[1..]);
    }
  }

  lemma InvHasShape(s: IoState, h: History)
    requires Inv(s, h)
    ensures ShapeOk(s)
  {
  }

  lemma DrainedHasNoWork(s: IoState, h: History)
    requires Inv(s, h) && s.phase.Draining? && s.phase.next <= |s.writer|
    ensures DrainMeasure(s) == 0 <==> s.phase == Draining(|s.writer|)
  {
    if s.phase.next == |s.writer| {
      NoWork(s.writer);
    }
  }
}
