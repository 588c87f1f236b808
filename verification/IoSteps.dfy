/** The disk space manager of io.c over the writer threads of asyncio-pthread.c, as a
    state machine.  Every event is one atomic step of the main thread or of one file's
    writer thread; a crash may come between any two of them.  The disk survives a crash,
    everything else is rebuilt by `io_open_file`, `io_read_root` and the declarations that
    follow. */
module IoSteps {

  import opened Wrappers
  import opened DiskLayout

  datatype PageStatus = ALLOCATED | ROOT | FREE | UNKNOWN

  /** A disk page number: file index and page index. */
  datatype Loc = Loc(file: nat, page: nat)

  /** `file_t` of io.c. */
  datatype FileT = FileT(status: seq<PageStatus>, cursor: nat, freePages: int)

  /** A write request, and `file_t` of asyncio-pthread.c.  `current` is the request the
      writer thread has popped; `landed` says whether its `write` has returned. */
  datatype Aio = Aio(page: nat, data: int)
  datatype Current = Current(aio: Aio, landed: bool)
  datatype Writer = Writer(queued: seq<Aio>, current: Option<Current>, pending: int)

  const IDLE_WRITER := Writer([], None, 0)

  function IdleWriters(n: nat): (r: seq<Writer>)
    ensures |r| == n && forall i | 0 <= i < n :: r[i] == IDLE_WRITER
  {
    seq(n, _ => IDLE_WRITER)
  }

  /** The main thread runs, or waits in `asyncio_drain_pending_writes` for file `next`. */
  datatype Phase = Running | Draining(next: nat)

  datatype IoState = IoState(
    file: seq<FileT>,
    fileCursor: nat,
    freeTotal: int,
    prevRoot: Option<Loc>,
    nextStamp: Stamp,
    writer: seq<Writer>,
    disk: seq<seq<Block>>,
    phase: Phase)

  datatype Event =
    | WritePage(file: nat, data: int)
    | FreePage(loc: Loc)
    | BeginRoot
    | DrainFile
    | WriteRoot(body: int)
    | TakeRequest(file: nat)
    | LandRequest(file: nat)
    | FinishRequest(file: nat)
    | CrashAndRecover(live: set<Loc>)

  // ---------- searching a status array ----------

  /** The first FREE page of `lo .. hi`. */
  function FirstFree(status: seq<PageStatus>, lo: nat, hi: nat): (r: Option<nat>)
    requires lo <= hi <= |status|
    ensures r.Some? ==> lo <= r.value < hi && status[r.value] == FREE
    ensures r.Some? ==> forall p | lo <= p < r.value :: status[p] != FREE
    ensures r.None? ==> forall p | lo <= p < hi :: status[p] != FREE
    decreases hi - lo
  {
    if lo == hi then None
    else if status[lo] == FREE then Some(lo)
    else FirstFree(status, lo + 1, hi)
  }

  /** The first FREE page at or cyclically after the cursor. */
  function NextFree(f: FileT): (r: Option<nat>)
    requires f.cursor <= |f.status|
    ensures r.Some? ==> r.value < |f.status| && f.status[r.value] == FREE
    ensures r.None? ==> FREE !in f.status
  {
    var up := FirstFree(f.status, f.cursor, |f.status|);
    if up.Some? then up else FirstFree(f.status, 0, f.cursor)
  }

  /** The number of FREE pages of a file. */
  function FreeCount(status: seq<PageStatus>): nat {
    if status == [] then 0
    else FreeCount(status[..|status| - 1]) + if status[|status| - 1] == FREE then 1 else 0
  }

  function FreeSum(file: seq<FileT>): nat {
    if file == [] then 0 else FreeSum(file[..|file| - 1]) + FreeCount(file[|file| - 1].status)
  }

  function PageSum(disk: seq<seq<Block>>): nat {
    if disk == [] then 0 else PageSum(disk[..|disk| - 1]) + |disk[|disk| - 1]|
  }

  // ---------- the steps ----------

  predicate FileShape(f: FileT, w: Writer, blocks: seq<Block>) {
    && 0 < |f.status| == |blocks| && f.cursor < |blocks|
    && (forall k | 0 <= k < |w.queued| :: w.queued[k].page < |blocks|)
    && (w.current.Some? ==> w.current.value.aio.page < |blocks|)
  }

  predicate ShapeOk(s: IoState) {
    && 0 < |s.file| == |s.disk| == |s.writer|
    && s.fileCursor < |s.file|
    && (forall i | 0 <= i < |s.file| :: FileShape(s.file[i], s.writer[i], s.disk[i]))
    && (s.prevRoot.Some? ==> IsPage(s, s.prevRoot.value))
  }

  predicate IsPage(s: IoState, l: Loc) {
    l.file < |s.file| && l.page < |s.file[l.file].status|
  }

  function BlockAt(s: IoState, l: Loc): Block
    requires ShapeOk(s) && IsPage(s, l)
  {
    s.disk[l.file][l.page]
  }

  /** `io_write_page` may use a file that keeps one more free page for a root. */
  predicate CanTakePage(f: FileT)
    requires f.cursor <= |f.status|
  {
    f.freePages > 1 && NextFree(f).Some?
  }

  /** The file the next root goes to: the first from `from` on, cyclically, with a FREE page. */
  function RootFile(file: seq<FileT>, from: nat, left: nat): (r: Option<nat>)
    requires from < |file| && left <= |file|
    ensures r.Some? ==> r.value < |file| && FREE in file[r.value].status
    decreases left
  {
    if left == 0 then None
    else if FREE in file[from].status then Some(from)
    else RootFile(file, (from + 1) % |file|, left - 1)
  }

  predicate Enabled(s: IoState, e: Event)
    requires ShapeOk(s)
  {
    match e
    case WritePage(i, _) => s.phase.Running? && i < |s.file| && CanTakePage(s.file[i])
    case FreePage(l) => s.phase.Running? && IsPage(s, l) && s.file[l.file].status[l.page] in {ALLOCATED, FREE}
    case BeginRoot => s.phase.Running?
    case DrainFile => s.phase.Draining? && s.phase.next < |s.writer| && s.writer[s.phase.next].pending == 0
    case WriteRoot(_) =>
      && s.phase == Draining(|s.writer|)
      && s.freeTotal > 0
      && RootFile(s.file, s.fileCursor, |s.file|).Some?
    case TakeRequest(i) => i < |s.writer| && s.writer[i].queued != [] && s.writer[i].current.None?
    case LandRequest(i) => i < |s.writer| && s.writer[i].current.Some? && !s.writer[i].current.value.landed
    case FinishRequest(i) => i < |s.writer| && s.writer[i].current.Some? && s.writer[i].current.value.landed
    case CrashAndRecover(live) =>
      && NewestRoot(s.disk).Some?
      && NewestRoot(s.disk).value !in live
      && forall l | l in live :: IsPage(s, l)
  }

  /** A word one smaller, and one larger: both wrap. */
  function Pred(w: int): int { if w == 0 then WORD_LIMIT - 1 else w - 1 }

  function Succ(w: int): int { if w == WORD_LIMIT - 1 then 0 else w + 1 }

  /** The file after page `p` has been taken with status `st`: the cursor stands just after it. */
  function Take(f: FileT, p: nat, st: PageStatus): FileT
    requires p < |f.status|
  {
    FileT(f.status[p := st], (p + 1) % |f.status|, Pred(f.freePages))
  }

  function Release(f: FileT, p: nat): FileT
    requires p < |f.status|
  {
    if f.status[p] == FREE then f else f.(status := f.status[p := FREE], freePages := Succ(f.freePages))
  }

  function WritePageStep(s: IoState, i: nat, data: int): (t: IoState)
    requires ShapeOk(s) && i < |s.file| && NextFree(s.file[i]).Some?
    ensures ShapeOk(t)
  {
    var p := NextFree(s.file[i]).value;
    var w := s.writer[i];
    s.(file := s.file[i := Take(s.file[i], p, ALLOCATED)],
       freeTotal := Pred(s.freeTotal),
       writer := s.writer[i := w.(queued := w.queued + [Aio(p, data)], pending := w.pending + 1)],
       fileCursor := (i + 1) % |s.file|)
  }

  function FreePageStep(s: IoState, l: Loc): (t: IoState)
    requires IsPage(s, l)
    ensures ShapeOk(s) ==> ShapeOk(t)
  {
    if s.file[l.file].status[l.page] == FREE then s
    else s.(file := s.file[l.file := Release(s.file[l.file], l.page)], freeTotal := Succ(s.freeTotal))
  }

  /** Where the next root goes. */
  function RootPlace(s: IoState): Loc
    requires ShapeOk(s) && RootFile(s.file, s.fileCursor, |s.file|).Some?
  {
    var i := RootFile(s.file, s.fileCursor, |s.file|).value;
    Loc(i, NextFree(s.file[i]).value)
  }

  /** The root is written first; only then is the previous root's page released. */
  function WriteRootStep(s: IoState, body: int): (t: IoState)
    requires ShapeOk(s) && RootFile(s.file, s.fileCursor, |s.file|).Some?
    ensures ShapeOk(t)
  {
    var l := RootPlace(s);
    var taken := s.(file := s.file[l.file := Take(s.file[l.file], l.page, ROOT)],
                    freeTotal := Pred(s.freeTotal),
                    fileCursor := l.file,
                    disk := s.disk[l.file := s.disk[l.file][l.page := RootBlock(s.nextStamp, body)]]);
    var released := if s.prevRoot.None? then taken else FreePageStep(taken, s.prevRoot.value);
    released.(prevRoot := Some(l),
              fileCursor := (l.file + 1) % |s.file|,
              nextStamp := Increment(s.nextStamp),
              phase := Running)
  }

  /** The newest of all files' newest roots, searched file by file. */
  function NewestRootBelow(disk: seq<seq<Block>>, n: nat): (r: Option<Loc>)
    requires n <= |disk|
    ensures r.Some? ==> r.value.file < n && RootAt(disk[r.value.file], r.value.page)
    ensures r.None? ==> forall i | 0 <= i < n :: NoRoots(disk[i])
    ensures r.Some? ==> forall i, q | 0 <= i < n && RootAt(disk[i], q) ::
              Value(StampAt(disk[i], q)) <= Value(StampAt(disk[r.value.file], r.value.page))
  {
    if n == 0 then None
    else
      var r := NewestRootBelow(disk, n - 1);
      var p := Newest(disk[n - 1]);
      if p.None? then r
      else if r.None? then Some(Loc(n - 1, p.value))
      else
        var a, b := StampAt(disk[n - 1], p.value), StampAt(disk[r.value.file], r.value.page);
        NewerIsGreater(a, b);
        if IsNewer(a, b) then Some(Loc(n - 1, p.value)) else r
  }

  function NewestRoot(disk: seq<seq<Block>>): (r: Option<Loc>)
    ensures r.Some? ==> r.value.file < |disk| && RootAt(disk[r.value.file], r.value.page)
  {
    NewestRootBelow(disk, |disk|)
  }

  /** What recovery makes of file `i`: its root page is ROOT, the pages declared live are
      ALLOCATED, all others FREE; the cursor stands on the newest root of the file, and the
      counter misses one page in the file of the root (io.c:912-913). */
  function RecoveredFile(i: nat, blocks: seq<Block>, root: Loc, live: set<Loc>): FileT {
    var status := seq(|blocks|, (p: int) requires 0 <= p =>
      if Loc(i, p) == root then ROOT else if Loc(i, p) in live then ALLOCATED else FREE);
    var cursor := if Newest(blocks).Some? then Newest(blocks).value else 0;
    FileT(status, cursor, if i == root.file then Pred(FreeCount(status)) else FreeCount(status))
  }

  /** `io_open_file`, `io_read_root`, a declaration of every live page, and
      `io_declare_unallocated_pages_free`, on a disk that survived a crash. */
  function Recovered(disk: seq<seq<Block>>, live: set<Loc>): IoState
    requires NewestRoot(disk).Some?
  {
    var root := NewestRoot(disk).value;
    var file := seq(|disk|, i requires 0 <= i < |disk| => RecoveredFile(i, disk[i], root, live));
    IoState(file, 0, FreeSum(file), Some(root), Increment(StampAt(disk[root.file], root.page)),
            IdleWriters(|disk|), disk, Running)
  }

  function RecoverStep(s: IoState, live: set<Loc>): (t: IoState)
    requires ShapeOk(s) && NewestRoot(s.disk).Some?
    ensures ShapeOk(t)
  {
    Recovered(s.disk, live)
  }

  function Next(s: IoState, e: Event): (t: IoState)
    requires ShapeOk(s) && Enabled(s, e)
    ensures ShapeOk(t)
  {
    match e
    case WritePage(i, data) => WritePageStep(s, i, data)
    case FreePage(l) => FreePageStep(s, l)
    case BeginRoot => s.(phase := Draining(0))
    case DrainFile => s.(phase := Draining(s.phase.next + 1))
    case WriteRoot(body) => WriteRootStep(s, body)
    case TakeRequest(i) =>
      var w := s.writer[i];
      s.(writer := s.writer[i := w.(queued := w.queued[1..], current := Some(Current(w.queued[0], false)))])
    case LandRequest(i) =>
      var w := s.writer[i];
      var a := w.current.value.aio;
      s.(writer := s.writer[i := w.(current := Some(Current(a, true)))],
         disk := s.disk[i := s.disk[i][a.page := PageBlock(a.data)]])
    case FinishRequest(i) =>
      var w := s.writer[i];
      s.(writer := s.writer[i := w.(current := None, pending := w.pending - 1)])
    case CrashAndRecover(live) => RecoverStep(s, live)
  }

  // ---------- creation ----------

  /** `io_create_file`: every page is wiped with the unused cookie and FREE. */
  function CreatedFile(pages: nat): FileT {
    FileT(seq(pages, _ => FREE), 0, pages)
  }

  function WipedFile(pages: nat): seq<Block> {
    seq(pages, _ => UnusedBlock)
  }

  function Created(pages: seq<nat>): IoState {
    var file := seq(|pages|, i requires 0 <= i < |pages| => CreatedFile(pages[i]));
    IoState(file, 0, FreeSum(file), None, Stamp(0, 1),
            IdleWriters(|pages|),
            seq(|pages|, i requires 0 <= i < |pages| => WipedFile(pages[i])), Running)
  }

  /** Page numbers have 27 bits (io.c:75), and all pages can be counted in one word. */
  const PAGE_INDEX_LIMIT: int := 0x800_0000

  predicate GoodSizes(pages: seq<nat>) {
    && |pages| > 0
    && (forall i | 0 <= i < |pages| :: 0 < pages[i] <= PAGE_INDEX_LIMIT)
    && PageSum(Created(pages).disk) < WORD_LIMIT
  }

  // ---------- what was asked for: the history of a run ----------

  /** The last root block written; the data asked to be in each allocated page; the pages
      that were allocated when the last root was written and have not been freed since; and
      the file whose free counter recovery left one short. */
  datatype History = History(
    lastRoot: Option<Block>,
    want: map<Loc, int>,
    durable: set<Loc>,
    shortFile: Option<nat>)

  const EMPTY_HISTORY := History(None, map[], {}, None)

  function NextHistory(s: IoState, h: History, e: Event): History
    requires ShapeOk(s) && Enabled(s, e)
  {
    match e
    case WritePage(i, data) => h.(want := h.want[Loc(i, NextFree(s.file[i]).value) := data])
    case FreePage(l) => h.(want := h.want - {l}, durable := h.durable - {l})
    case WriteRoot(body) => h.(lastRoot := Some(RootBlock(s.nextStamp, body)), durable := h.want.Keys)
    case CrashAndRecover(live) =>
      History(h.lastRoot, map l | l in live && l in h.want :: h.want[l], live, Some(NewestRoot(s.disk).value.file))
    case _ => h
  }

  /** The embedding system frees only pages, never the root's page, and after a crash
      declares only pages that the last root can reach: pages allocated when it was
      written and not freed since. */
  predicate ClientMay(h: History, e: Event) {
    e.CrashAndRecover? ==> e.live <= h.durable
  }
}
