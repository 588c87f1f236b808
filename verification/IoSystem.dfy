/** The disk space manager of io.c as it runs: statuses, cursors and counters updated in
    place, free pages found by walking cursors, roots found by searching the disk. */
module IoSystem {

  import opened Wrappers
  import opened DiskLayout
  import opened RootSearch
  import opened IoSteps
  import opened IoInvariant
  import opened IoRecovery
  import opened IoPlacement

  /** `number_of_free_disk_pages != 0`, the check at the top of `io_write_page`, does not rule out the case
      that its comment calls impossible: a new database of two files with one page each. */
  lemma FreePagesMayNotSuffice()
    ensures GoodSizes([1, 1])
    ensures var s := Created([1, 1]);
            && s.freeTotal == 2 && PageFile(s.file, 0, 2).None?
            && !exists i :: 0 <= i < |s.file| && s.file[i].freePages > 1 && FREE in s.file[i].status
  {
    var s := Created([1, 1]);
    var f := FileT([FREE], 0, 1);
    assert seq(1, _ => FREE) == [FREE];
    assert CreatedFile(1) == f;
    assert s.file == [f, f];
    assert [f, f][..1] == [f] && [f][..0] == [];
    assert FreeCount([FREE]) == 1 by {
      assert [FREE][..0] == [];
    }
    assert FreeSum([f]) == 1 && FreeSum([f, f]) == 2;
    assert PageFile([f, f], 0, 2).None?;
    var blocks := WipedFile(1);
    assert s.disk == [blocks, blocks] && |blocks| == 1;
    assert [blocks, blocks][..1] == [blocks] && [blocks][..0] == [];
    assert PageSum([blocks]) == 1 && PageSum([blocks, blocks]) == 2;
  }

  class DiskSpace {
    var file: seq<FileT>
    var fileCursor: nat
    var freeTotal: int
    var prevRoot: Option<Loc>
    var nextStamp: Stamp
    var writer: seq<Writer>
    var disk: seq<seq<Block>>
    var phase: Phase

    function State(): IoState
      reads this
    {
      IoState(file, fileCursor, freeTotal, prevRoot, nextStamp, writer, disk, phase)
    }

    /** `io_create_file`: wipe every page of every file. */
    constructor Create(pages: seq<nat>)
      requires GoodSizes(pages)
      ensures State() == Created(pages) && Inv(State(), EMPTY_HISTORY)
    {
      file := seq(|pages|, i requires 0 <= i < |pages| => CreatedFile(pages[i]));
      disk := seq(|pages|, i requires 0 <= i < |pages| => WipedFile(pages[i]));
      writer := IdleWriters(|pages|);
      fileCursor, prevRoot, nextStamp, phase := 0, None, Stamp(0, 1), Running;
      freeTotal := 0;
      new;
      for j := 0 to |pages|
        invariant file == Created(pages).file && disk == Created(pages).disk && writer == Created(pages).writer
        invariant fileCursor == 0 && prevRoot == None && nextStamp == Stamp(0, 1) && phase == Running
        invariant freeTotal == FreeSum(file[..j])
      {
        AllFree(pages[j]);
        assert file[..j + 1][..j] == file[..j];
        freeTotal := freeTotal + |file[j].status|;
      }
      assert file[..|pages|] == file;
      CreatedInv(pages);
    }

    /** The inner loops of `io_write_page` and `io_write_root`: move the cursor of file `i`
        to its next FREE page, or once around. */
    method SeekFree(i: nat) returns (found: bool)
      requires i < |file| && file[i].cursor < |file[i].status|
      modifies this`file
      ensures found == NextFree(old(file)[i]).Some? == (FREE in old(file)[i].status)
      ensures found ==> file == old(file)[i := old(file)[i].(cursor := NextFree(old(file)[i]).value)]
      ensures !found ==> file == old(file)
    {
      ghost var start, n := file[i].cursor, |file[i].status|;
      ghost var before := file;
      var left := |file[i].status|;
      while left > 0
        invariant 0 <= left <= n && |before[i].status| == n && before[i].cursor == start < n
        invariant |file| == |before| && file == before[i := before[i].(cursor := file[i].cursor)]
        invariant file[i].cursor == if start + (n - left) < n then start + (n - left) else start - left
        invariant forall p | start <= p < n && p < start + (n - left) :: before[i].status[p] != FREE
        invariant forall p | 0 <= p < start - left :: before[i].status[p] != FREE
      {
        var f := file[i];
        if f.status[f.cursor] == FREE {
          FreeFoundAt(before[i], f.cursor);
          return true;
        }
        NextIndex(n, f.cursor);
        file := file[i := f.(cursor := (f.cursor + 1) % |f.status|)];
        left := left - 1;
      }
      assert before[i].(cursor := start) == before[i];
      assert before[i := before[i]] == before;
      return false;
    }

    /** Take the page under the cursor of file `i`, and move the cursor past it. */
    method TakePage(i: nat, st: PageStatus) returns (p: nat)
      requires i < |file| && file[i].cursor < |file[i].status|
      modifies this`file, this`freeTotal
      ensures p == old(file)[i].cursor
      ensures file == old(file)[i := Take(old(file)[i], p, st)]
      ensures freeTotal == Pred(old(freeTotal))
    {
      var f := file[i];
      p := f.cursor;
      file := file[i := f.(status := f.status[p := st], freePages := Pred(f.freePages))];
      freeTotal := Pred(freeTotal);
      file := file[i := file[i].(cursor := (p + 1) % |f.status|)];
    }

    /** `asyncio_write_page`: put the request last in the queue of the file's writer thread. */
    method AsyncioWritePage(i: nat, aio: Aio)
      requires i < |writer|
      modifies this`writer
      ensures writer == old(writer)[i := Writer(old(writer)[i].queued + [aio], old(writer)[i].current, old(writer)[i].pending + 1)]
    {
      var w := writer[i];
      writer := writer[i := w.(queued := w.queued + [aio], pending := w.pending + 1)];
    }

    /** The outer loop of `io_write_page`: a file that keeps one more page free than it gives. */
    method SeekDataFile() returns (found: bool)
      requires ShapeOk(State())
      modifies this`file, this`fileCursor
      ensures found <==> exists i | 0 <= i < |old(file)| :: old(file)[i].freePages > 1 && FREE in old(file)[i].status
      ensures found <==> PageFile(old(file), old(fileCursor), |old(file)|).Some?
      ensures found ==> Sought(old(file), file, fileCursor) && fileCursor == PageFile(old(file), old(fileCursor), |old(file)|).value
      ensures !found ==> file == old(file) && fileCursor < |file|
    {
      PageFileIff(file, fileCursor);
      var left := |file|;
      while left > 0
        invariant 0 <= left <= |file| && fileCursor < |file| && file == old(file)
        invariant PageFile(file, fileCursor, left) == PageFile(file, old(fileCursor), |file|)
      {
        if file[fileCursor].freePages > 1 {
          found := SeekFree(fileCursor);
          if found {
            return;
          }
        }
        fileCursor := (fileCursor + 1) % |file|;
        left := left - 1;
      }
      return false;
    }

    /** The outer loop of `io_write_root`: any file with a FREE page. */
    method SeekRootFile() returns (found: bool)
      requires ShapeOk(State())
      modifies this`file, this`fileCursor
      ensures found <==> RootFile(old(file), old(fileCursor), |old(file)|).Some?
      ensures found ==> Sought(old(file), file, fileCursor) && fileCursor == RootFile(old(file), old(fileCursor), |old(file)|).value
      ensures !found ==> file == old(file) && fileCursor < |file|
    {
      hide FirstFree, NextFree;
      var left := |file|;
      while left > 0
        invariant 0 <= left <= |file| && fileCursor < |file| && file == old(file)
        invariant RootFile(file, fileCursor, left) == RootFile(file, old(fileCursor), |file|)
      {
        found := SeekFree(fileCursor);
        if found {
          return;
        }
        fileCursor := (fileCursor + 1) % |file|;
        left := left - 1;
      }
      return false;
    }

    /** `io_write_page` with the round-robin choice of file. */
    method WritePage(data: int) returns (placed: Option<Loc>)
      requires ShapeOk(State())
      modifies this
      ensures placed.Some? <==>
                && old(freeTotal) != 0
                && exists i | 0 <= i < |old(file)| :: old(file)[i].freePages > 1 && FREE in old(file)[i].status
      ensures placed.Some? ==> PageFile(old(file), old(fileCursor), |old(file)|).Some?
      ensures placed.Some? ==>
                var i := PageFile(old(file), old(fileCursor), |old(file)|).value;
                && placed == Some(Loc(i, NextFree(old(file)[i]).value))
                && State() == WritePageStep(old(State()), i, data)
      ensures placed.None? ==> State() == old(State()).(fileCursor := fileCursor)
    {
      if freeTotal == 0 {
        return None;
      }
      var found := SeekDataFile();
      if !found {
        return None;
      }
      var i := fileCursor;
      var p := TakePage(i, ALLOCATED);
      assert file == old(file)[i := Take(old(file)[i], p, ALLOCATED)];
      AsyncioWritePage(i, Aio(p, data));
      fileCursor := (fileCursor + 1) % |file|;
      placed := Some(Loc(i, p));
    }

    /** `io_free_disk_page`. */
    method FreeDiskPage(l: Loc)
      requires IsPage(State(), l)
      modifies this`file, this`freeTotal
      ensures State() == FreePageStep(old(State()), l)
      ensures old(file)[l.file].status[l.page] == FREE ==> State() == old(State())
      ensures |file| == |old(file)| && file[l.file].status == old(file)[l.file].status[l.page := FREE]
      ensures forall i | 0 <= i < |file| && i != l.file :: file[i] == old(file)[i]
    {
      var f := file[l.file];
      if f.status[l.page] != FREE {
        file := file[l.file := f.(status := f.status[l.page := FREE], freePages := Succ(f.freePages))];
        freeTotal := Succ(freeTotal);
      }
    }

    /** `io_write_root` once the drain has returned. */
    method WriteRoot(body: int) returns (written: bool)
      requires ShapeOk(State()) && phase == Draining(|writer|)
      modifies this
      ensures written <==> Enabled(old(State()), Event.WriteRoot(body))
      ensures written ==> State() == WriteRootStep(old(State()), body)
    {
      hide FirstFree, NextFree, RootFile;
      if freeTotal <= 0 {
        return false;
      }
      var found := SeekRootFile();
      if !found {
        return false;
      }
      var i := fileCursor;
      var p := TakePage(i, ROOT);
      assert file == old(file)[i := Take(old(file)[i], p, ROOT)];
      disk := disk[i := disk[i][p := RootBlock(nextStamp, body)]];
      assert RootPlace(old(State())) == Loc(i, p);
      assert State() == old(State()).(file := file, freeTotal := freeTotal, fileCursor := i, disk := disk);
      if prevRoot.Some? {
        FreeDiskPage(prevRoot.value);
      }
      prevRoot := Some(Loc(i, p));
      fileCursor := (i + 1) % |file|;
      nextStamp := Increment(nextStamp);
      phase := Running;
      written := true;
    }

    /** `io_init` and `io_open_file` in a new process, on a disk that is already there. */
    constructor Open(surviving: seq<seq<Block>>)
      requires |surviving| > 0 && forall i | 0 <= i < |surviving| :: |surviving[i]| > 0
      ensures disk == surviving && |file| == |disk| && (forall i | 0 <= i < |file| :: file[i] == OpenedFile(|disk[i]|))
      ensures fileCursor == 0 && freeTotal == 0 && prevRoot == None && phase == Running
      ensures writer == IdleWriters(|surviving|)
    {
      disk := surviving;
      file := seq(|surviving|, i requires 0 <= i < |surviving| => OpenedFile(|surviving[i]|));
      writer := IdleWriters(|surviving|);
      fileCursor, freeTotal, prevRoot, nextStamp, phase := 0, 0, None, Stamp(0, 1), Running;
    }

    /** The loop of `io_read_root`: the newest root over all files, each cursor on its file's newest. */
    method SearchFiles() returns (root: Option<Loc>, rootStamp: Stamp)
      requires |file| == |disk| > 0 && (forall i | 0 <= i < |file| :: file[i] == OpenedFile(|disk[i]|) && |disk[i]| > 0)
      requires forall i | 0 <= i < |disk| :: WellPlaced(disk[i])
      requires forall i, q | 0 <= i < |disk| && RootAt(disk[i], q) :: 0 < Value(StampAt(disk[i], q))
      modifies this`file
      ensures root == NewestRoot(disk)
      ensures root.Some? ==> rootStamp == StampAt(disk[root.value.file], root.value.page)
      ensures |file| == |disk|
      ensures forall i | 0 <= i < |file| :: file[i] == OpenedFile(|disk[i]|).(cursor := NewestOrZero(disk[i]))
    {
      hide WellPlaced, NewestBelow, IsNewest;
      root, rootStamp := None, Stamp(0, 0);
      for i := 0 to |file|
        invariant |file| == |disk|
        invariant root == NewestRootBelow(disk, i)
        invariant rootStamp == if root.Some? then StampAt(disk[root.value.file], root.value.page) else Stamp(0, 0)
        invariant forall j | 0 <= j < i :: file[j] == OpenedFile(|disk[j]|).(cursor := NewestOrZero(disk[j]))
        invariant forall j | i <= j < |file| :: file[j] == OpenedFile(|disk[j]|)
      {
        var page := SearchFile(disk[i]);
        if page.Some? {
          file := file[i := file[i].(cursor := page.value)];
          var stamp := disk[i][page.value].stamp;
          NewerIsGreater(stamp, rootStamp);
          assert 0 < Value(StampAt(disk[i], page.value));
          if IsNewer(stamp, rootStamp) {
            root, rootStamp := Some(Loc(i, page.value)), stamp;
          }
        }
      }
    }

    /** `io_read_root`: remember the newest root and make its page ROOT.  The root file's own
        free counter is decremented; the total is not. */
    method ReadRoot() returns (found: bool)
      requires |file| == |disk| > 0 && (forall i | 0 <= i < |file| :: file[i] == OpenedFile(|disk[i]|) && |disk[i]| > 0)
      requires prevRoot == None
      requires forall i | 0 <= i < |disk| :: WellPlaced(disk[i])
      requires forall i, q | 0 <= i < |disk| && RootAt(disk[i], q) :: 0 < Value(StampAt(disk[i], q))
      modifies this`file, this`prevRoot, this`nextStamp
      ensures found <==> NewestRoot(disk).Some?
      ensures found ==>
                && prevRoot == NewestRoot(disk)
                && nextStamp == Increment(StampAt(disk[prevRoot.value.file], prevRoot.value.page))
                && |file| == |disk|
                && forall i | 0 <= i < |file| :: file[i] == RootReadFile(i, disk[i], prevRoot.value)
    {
      var root, rootStamp := SearchFiles();
      if root.None? {
        return false;
      }
      prevRoot := root;
      var f := file[root.value.file];
      file := file[root.value.file := f.(status := f.status[root.value.page := ROOT], freePages := Pred(f.freePages))];
      nextStamp := Increment(rootStamp);
      return true;
    }

    /** `io_declare_disk_page_allocated`. */
    method DeclareAllocated(l: Loc)
      requires l.file < |file| && l.page < |file[l.file].status| && file[l.file].status[l.page] != FREE
      modifies this`file
      ensures file == old(file)[l.file := old(file)[l.file].(status := old(file)[l.file].status[l.page := ALLOCATED])]
    {
      var f := file[l.file];
      file := file[l.file := f.(status := f.status[l.page := ALLOCATED])];
    }

    /** The inner loop of `io_declare_unallocated_pages_free`, for file `i`. */
    method DeclareFileFree(i: nat, ghost short: bool)
      requires i < |file| == |disk| && FilesFitDisk() && freeTotal == FreeSum(file) && PageSum(disk) < WORD_LIMIT
      requires file[i].freePages == Counted(file[i].status, short)
      modifies this`file, this`freeTotal
      ensures file == old(file)[i := DeclaredFile(old(file)[i], short)]
      ensures freeTotal == FreeSum(file)
    {
      ghost var before := file;
      for j := 0 to |file[i].status|
        invariant |file| == |before| && FilesFitDisk() && freeTotal == FreeSum(file)
        invariant file == before[i := file[i]] && file[i].cursor == before[i].cursor
        invariant PartlyDeclared(before[i].status, file[i].status, j)
        invariant file[i].freePages == Counted(file[i].status, short)
      {
        var f := file[i];
        if f.status[j] == UNKNOWN {
          var g := f.(status := f.status[j := FREE], freePages := Succ(f.freePages));
          CountDeclared(file, disk, i, j, short);
          file := file[i := g];
          freeTotal := Succ(freeTotal);
        }
      }
      assert file[i].status == Declared(before[i].status);
    }

    /** `io_declare_unallocated_pages_free`: every page of unknown status becomes FREE, and is counted. */
    method DeclareUnallocatedFree(ghost short: nat)
      requires |file| == |disk| && FilesFitDisk() && freeTotal == FreeSum(file) && PageSum(disk) < WORD_LIMIT
      requires forall i | 0 <= i < |file| :: file[i].freePages == Counted(file[i].status, i == short)
      modifies this`file, this`freeTotal
      ensures |file| == |old(file)| && freeTotal == FreeSum(file)
      ensures forall i | 0 <= i < |file| :: file[i] == DeclaredFile(old(file)[i], i == short)
    {
      ghost var before := file;
      for i := 0 to |file|
        invariant |file| == |before| && FilesFitDisk() && freeTotal == FreeSum(file)
        invariant forall j | 0 <= j < i :: file[j] == DeclaredFile(before[j], j == short)
        invariant forall j | i <= j < |file| :: file[j] == before[j]
      {
        DeclareFileFree(i, i == short);
      }
    }

    predicate FilesFitDisk()
      reads this
    {
      |file| == |disk| && forall i | 0 <= i < |file| :: |file[i].status| == |disk[i]|
    }
  }

  // ---------- recovery, in one piece ----------

  function OpenedFile(pages: nat): FileT {
    FileT(seq(pages, _ => UNKNOWN), 0, 0)
  }

  function NewestOrZero(blocks: seq<Block>): nat {
    if Newest(blocks).Some? then Newest(blocks).value else 0
  }

  function RootReadFile(i: nat, blocks: seq<Block>, root: Loc): FileT
    requires root.file == i ==> root.page < |blocks|
  {
    var f := OpenedFile(|blocks|).(cursor := NewestOrZero(blocks));
    if i == root.file then f.(status := f.status[root.page := ROOT], freePages := Pred(f.freePages)) else f
  }

  function Declared(status: seq<PageStatus>): (r: seq<PageStatus>)
    ensures |r| == |status|
    ensures forall p | 0 <= p < |status| :: r[p] == if status[p] == UNKNOWN then FREE else status[p]
  {
    seq(|status|, p requires 0 <= p < |status| => if status[p] == UNKNOWN then FREE else status[p])
  }

  function Counted(status: seq<PageStatus>, short: bool): int {
    if short then Pred(FreeCount(status)) else FreeCount(status)
  }

  lemma {:induction false} CountIsZero(status: seq<PageStatus>)
    requires FREE !in status
    ensures FreeCount(status) == 0
  {
    if status != [] {
      CountIsZero(status[..|status| - 1]);
    }
  }

  lemma {:induction false} NoneFree(file: seq<FileT>)
    requires forall i | 0 <= i < |file| :: FREE !in file[i].status
    ensures FreeSum(file) == 0
  {
    if file != [] {
      NoneFree(file[..|file| - 1]);
      CountIsZero(file[|file| - 1].status);
    }
  }

  /** The first `j` pages have been declared, the rest not yet. */
  ghost predicate PartlyDeclared(before: seq<PageStatus>, status: seq<PageStatus>, j: nat) {
    && |status| == |before|
    && forall p | 0 <= p < |before| ::
         status[p] == if p < j && before[p] == UNKNOWN then FREE else before[p]
  }

  /** One more page counted: no counter wraps but the short one, from its lowest value. */
  lemma CountDeclared(file: seq<FileT>, disk: seq<seq<Block>>, i: nat, j: nat, short: bool)
    requires |file| == |disk| && (forall k | 0 <= k < |file| :: |file[k].status| == |disk[k]|)
    requires PageSum(disk) < WORD_LIMIT && i < |file| && j < |file[i].status| && file[i].status[j] == UNKNOWN
    requires file[i].freePages == Counted(file[i].status, short)
    ensures var g := file[i].(status := file[i].status[j := FREE], freePages := Succ(file[i].freePages));
            && g.freePages == Counted(g.status, short)
            && FreeSum(file[i := g]) == Succ(FreeSum(file))
  {
    var g := file[i].(status := file[i].status[j := FREE], freePages := Succ(file[i].freePages));
    CountReleased(file[i].status, j);
    FreeSumUpdate(file, i, g);
    FreeSumBound(file[i := g], disk);
  }

  function DeclaredFile(f: FileT, short: bool): FileT {
    FileT(Declared(f.status), f.cursor, Counted(Declared(f.status), short))
  }

  /** The recovery sequence of shades.c on the disk that a crash of state `s` leaves behind:
      it finds the last root and rebuilds the state from which the run goes on. */
  method Recover(ghost s: IoState, ghost h: History, surviving: seq<seq<Block>>, live: seq<Loc>)
    returns (space: DiskSpace, found: bool)
    requires Inv(s, h) && surviving == s.disk
    requires forall l | l in live :: l in h.durable
    ensures found <==> h.lastRoot.Some?
    ensures found ==>
              && Enabled(s, CrashAndRecover(set l | l in live))
              && space.State() == Next(s, CrashAndRecover(set l | l in live))
  {
    SurvivingDisk(s, h);
    LiveIsNotRoot(s, h, live);
    space, found := RecoverDisk(surviving, live);
    if found {
      RecoveryIsEnabled(s, h, live);
    }
  }

  lemma RecoveryIsEnabled(s: IoState, h: History, live: seq<Loc>)
    requires Inv(s, h) && s.prevRoot.Some? && forall l | l in live :: l in h.durable
    ensures Enabled(s, CrashAndRecover(set l | l in live))
  {
    SearchFindsLastRoot(s, h);
    LiveIsNotRoot(s, h, live);
    forall l | l in live
      ensures IsPage(s, l)
    {
      DurableIsOnDisk(s, h, l);
    }
  }

  method RecoverDisk(surviving: seq<seq<Block>>, live: seq<Loc>) returns (space: DiskSpace, found: bool)
    requires |surviving| > 0 && PageSum(surviving) < WORD_LIMIT
    requires forall i | 0 <= i < |surviving| :: 0 < |surviving[i]| && WellPlaced(surviving[i])
    requires forall i, q | 0 <= i < |surviving| && RootAt(surviving[i], q) :: 0 < Value(StampAt(surviving[i], q))
    requires NewestRoot(surviving).Some? ==> NewestRoot(surviving).value !in live
    requires forall l | l in live :: l.file < |surviving| && l.page < |surviving[l.file]|
    ensures found <==> NewestRoot(surviving).Some?
    ensures found ==> space.State() == Recovered(surviving, set l | l in live)
  {
    space := new DiskSpace.Open(surviving);
    found := space.ReadRoot();
    if found {
      FinishRecovery(space, surviving, live);
    }
  }

  /** Once the root is found: declare the live pages, free the rest. */
  method FinishRecovery(space: DiskSpace, ghost surviving: seq<seq<Block>>, live: seq<Loc>)
    requires PageSum(surviving) < WORD_LIMIT && NewestRoot(surviving).Some? && NewestRoot(surviving).value !in live
    requires forall l | l in live :: l.file < |surviving| && l.page < |surviving[l.file]|
    requires space.prevRoot == NewestRoot(surviving) && |space.file| == |surviving| && space.disk == surviving
    requires forall i | 0 <= i < |surviving| :: space.file[i] == RootReadFile(i, surviving[i], space.prevRoot.value)
    requires space.fileCursor == 0 && space.freeTotal == 0 && space.phase == Running
    requires space.nextStamp == Recovered(surviving, set l | l in live).nextStamp
    requires space.writer == IdleWriters(|surviving|)
    modifies space
    ensures space.State() == Recovered(surviving, set l | l in live)
  {
    ghost var root := space.prevRoot.value;
    DeclareLive(space, surviving, live);
    ghost var declared := space.file;
    NothingCounted(declared, surviving, root, live);
    space.DeclareUnallocatedFree(root.file);
    RecoveredFiles(declared, space.file, surviving, root, live);
  }

  /** `read_generation` and the rest of recovery declare every page that the root reaches. */
  method DeclareLive(space: DiskSpace, ghost surviving: seq<seq<Block>>, live: seq<Loc>)
    requires space.disk == surviving && |space.file| == |surviving|
    requires space.prevRoot.Some? && space.prevRoot.value.file < |surviving|
    requires space.prevRoot.value.page < |surviving[space.prevRoot.value.file]|
    requires forall i | 0 <= i < |surviving| :: space.file[i] == RootReadFile(i, surviving[i], space.prevRoot.value)
    requires space.prevRoot.value !in live
    requires forall l | l in live :: l.file < |surviving| && l.page < |surviving[l.file]|
    modifies space`file
    ensures |space.file| == |surviving|
    ensures forall i | 0 <= i < |surviving| ::
              DeclaredUpTo(i, space.file[i], surviving[i], space.prevRoot.value, live)
  {
    for k := 0 to |live|
      invariant |space.file| == |surviving|
      invariant forall i | 0 <= i < |surviving| ::
                  DeclaredUpTo(i, space.file[i], surviving[i], space.prevRoot.value, live[..k])
    {
      var l := live[k];
      assert l in live;
      ghost var before := space.file;
      space.DeclareAllocated(l);
      assert live[..k + 1] == live[..k] + [l];
      forall i | 0 <= i < |surviving|
        ensures DeclaredUpTo(i, space.file[i], surviving[i], space.prevRoot.value, live[..k + 1])
      {
        assert DeclaredUpTo(i, before[i], surviving[i], space.prevRoot.value, live[..k]);
      }
    }
    assert live[..|live|] == live;
  }

  lemma NothingCounted(file: seq<FileT>, disk: seq<seq<Block>>, root: Loc, live: seq<Loc>)
    requires |file| == |disk| && forall i | 0 <= i < |disk| :: DeclaredUpTo(i, file[i], disk[i], root, live)
    ensures FreeSum(file) == 0
    ensures forall i | 0 <= i < |file| ::
              |file[i].status| == |disk[i]| && file[i].freePages == Counted(file[i].status, i == root.file)
  {
    forall i | 0 <= i < |file|
      ensures FREE !in file[i].status && FreeCount(file[i].status) == 0
    {
      assert DeclaredUpTo(i, file[i], disk[i], root, live);
      CountIsZero(file[i].status);
    }
    NoneFree(file);
  }

  lemma RecoveredFiles(declared: seq<FileT>, file: seq<FileT>, disk: seq<seq<Block>>, root: Loc, live: seq<Loc>)
    requires |declared| == |file| == |disk| && NewestRoot(disk) == Some(root)
    requires forall i | 0 <= i < |disk| :: DeclaredUpTo(i, declared[i], disk[i], root, live)
    requires forall i | 0 <= i < |disk| :: file[i] == DeclaredFile(declared[i], i == root.file)
    ensures file == Recovered(disk, set l | l in live).file
  {
    forall i | 0 <= i < |disk|
      ensures file[i] == RecoveredFile(i, disk[i], root, set l | l in live)
    {
      DeclaredIsRecovered(i, declared[i], disk[i], root, live);
    }
  }

  lemma SurvivingDisk(s: IoState, h: History)
    requires Inv(s, h)
    ensures |s.disk| > 0 && PageSum(s.disk) < WORD_LIMIT
    ensures forall i | 0 <= i < |s.disk| :: 0 < |s.disk[i]| <= PAGE_INDEX_LIMIT && WellPlaced(s.disk[i])
    ensures forall i, q | 0 <= i < |s.disk| && RootAt(s.disk[i], q) :: 0 < Value(StampAt(s.disk[i], q))
  {
    forall i | 0 <= i < |s.disk|
      ensures FileInv(i, s.file[i], s.writer[i], s.disk[i], s.prevRoot, s.nextStamp, h)
    {
    }
  }

  lemma LiveIsNotRoot(s: IoState, h: History, live: seq<Loc>)
    requires Inv(s, h) && forall l | l in live :: l in h.durable
    ensures NewestRoot(s.disk) == s.prevRoot && (h.lastRoot.Some? <==> s.prevRoot.Some?)
    ensures s.prevRoot.Some? ==> s.prevRoot.value !in live
    ensures forall l | l in live :: l.file < |s.disk| && l.page < |s.disk[l.file]|
  {
    SearchFindsLastRoot(s, h);
    forall l | l in live
      ensures s.prevRoot != Some(l) && IsPage(s, l)
    {
      DurableIsOnDisk(s, h, l);
    }
  }

  /** The file while the pages of `live` are being declared. */
  ghost predicate DeclaredUpTo(i: nat, f: FileT, blocks: seq<Block>, root: Loc, live: seq<Loc>) {
    && |f.status| == |blocks| && f.cursor == NewestOrZero(blocks)
    && f.freePages == (if i == root.file then WORD_LIMIT - 1 else 0)
    && forall p: nat | p < |blocks| ::
         f.status[p] == if Loc(i, p) == root then ROOT else if Loc(i, p) in live then ALLOCATED else UNKNOWN
  }

  lemma DeclaredIsRecovered(i: nat, f: FileT, blocks: seq<Block>, root: Loc, live: seq<Loc>)
    requires DeclaredUpTo(i, f, blocks, root, live)
    ensures Declared(f.status) == RecoveredFile(i, blocks, root, set l | l in live).status
    ensures f.cursor == RecoveredFile(i, blocks, root, set l | l in live).cursor
  {
    var r := RecoveredFile(i, blocks, root, set l | l in live);
    forall p: nat | p < |blocks|
      ensures Declared(f.status)[p] == r.status[p]
    {
      assert Loc(i, p) in live <==> Loc(i, p) in (set l | l in live);
    }
  }

  /** Only the cursor of file `i` has moved: to its next FREE page. */
  predicate Sought(before: seq<FileT>, after: seq<FileT>, i: nat)
    requires forall j | 0 <= j < |before| :: before[j].cursor <= |before[j].status|
  {
    && i < |before| && NextFree(before[i]).Some?
    && after == before[i := before[i].(cursor := NextFree(before[i]).value)]
  }

  /** A FREE page with no FREE page from the cursor up to it is the next one. */
  lemma FreeFoundAt(f: FileT, p: nat)
    requires f.cursor < |f.status| && p < |f.status| && f.status[p] == FREE
    requires forall q | f.cursor <= q < |f.status| && (p < f.cursor || q < p) :: f.status[q] != FREE
    requires p < f.cursor ==> forall q | 0 <= q < p :: f.status[q] != FREE
    ensures NextFree(f) == Some(p)
  {
  }
}
