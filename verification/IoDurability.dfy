/** What a commit promises, said on the events of a run alone: a page asked for before a
    root write holds its data from then on, through every crash, until it is freed. */
module IoDurability {

  import opened Wrappers
  import opened DiskLayout
  import opened IoSteps
  import opened IoInvariant
  import opened IoRuns
  import opened IoRecovery
  import opened IoPlacement

  /** No event of the run frees page `l`, and every recovery declares it. */
  predicate KeepsPage(run: seq<Event>, l: Loc) {
    forall k | 0 <= k < |run| ::
      run[k] != FreePage(l) && (run[k].CrashAndRecover? ==> l in run[k].live)
  }

  predicate NoRootWrite(run: seq<Event>) {
    forall k | 0 <= k < |run| :: !run[k].WriteRoot?
  }

  /** The page that a `WritePage` into file `i` takes after the run `before`. */
  ghost function PageTaken(pages: seq<nat>, before: seq<Event>, i: nat): Option<Loc>
    requires CanRun(Created(pages), EMPTY_HISTORY, before)
  {
    var s := After(Created(pages), EMPTY_HISTORY, before).0;
    if ShapeOk(s) && i < |s.file| && NextFree(s.file[i]).Some? then Some(Loc(i, NextFree(s.file[i]).value)) else None
  }

  // ---------- what may happen ----------

  /** The runs leave nothing out.  Short of waiting for the writers, any wanted page may be freed, any file with a
      FREE page and a counter above 1 may get a page, and a root write may begin; a crash may come at any moment
      once a root has been written, and all pages of the last commit, or any part of them, declared after it. */
  lemma RunsLeaveNothingOut(s: IoState, h: History)
    requires Inv(s, h)
    ensures s.phase.Running? ==> Enabled(s, BeginRoot)
    ensures s.phase.Running? ==> forall l | l in h.want :: Enabled(s, FreePage(l))
    ensures s.phase.Running? ==> forall i: nat, data: int | i < |s.file| && s.file[i].freePages > 1 && FREE in s.file[i].status ::
                                   Enabled(s, WritePage(i, data))
    ensures h.lastRoot.Some? ==> forall live | live <= h.durable ::
                                   Enabled(s, CrashAndRecover(live)) && ClientMay(h, CrashAndRecover(live))
  {
    forall l | s.phase.Running? && l in h.want
      ensures Enabled(s, FreePage(l))
    {
      WantedIsAllocated(s, h, l);
    }
    forall i: nat, data: int | s.phase.Running? && i < |s.file| && s.file[i].freePages > 1 && FREE in s.file[i].status
      ensures Enabled(s, WritePage(i, data))
    {
      CursorIsIn(s, i);
      NextFreeIsFirst(s.file[i]);
    }
    if h.lastRoot.Some? {
      SearchFindsLastRoot(s, h);
      PrevRootIsRoot(s, h);
      forall live | live <= h.durable
        ensures Enabled(s, CrashAndRecover(live)) && ClientMay(h, CrashAndRecover(live))
      {
        forall l | l in live
          ensures IsPage(s, l) && NewestRoot(s.disk).value != l
        {
          WantedIsAllocated(s, h, l);
        }
      }
    }
  }

  lemma WantedIsAllocated(s: IoState, h: History, l: Loc)
    requires Inv(s, h) && (l in h.want || l in h.durable)
    ensures IsPage(s, l) && l in h.want && s.file[l.file].status[l.page] == ALLOCATED
  {
    assert IsPage(s, l);
    assert FileInv(l.file, s.file[l.file], s.writer[l.file], s.disk[l.file], s.prevRoot, s.nextStamp, h);
    assert Loc(l.file, l.page) == l;
  }

  // ---------- runs one behind the other ----------

  lemma {:induction false} RunInTwo(s: IoState, h: History, first: seq<Event>, second: seq<Event>)
    requires CanRun(s, h, first + second)
    ensures CanRun(s, h, first)
    ensures var (t, k) := After(s, h, first);
            CanRun(t, k, second) && After(s, h, first + second) == After(t, k, second)
    decreases |first|
  {
    if first == [] {
      assert first + second == second;
    } else {
      assert (first + second)[1..] == first[1..] + second;
      RunInTwo(Next(s, first[0]), NextHistory(s, h, first[0]), first[1..], second);
    }
  }

  lemma {:induction false} RootWritesInTwo(first: seq<Event>, second: seq<Event>)
    ensures RootWrites(first + second) == RootWrites(first) + RootWrites(second)
    decreases |first|
  {
    if first == [] {
      assert first + second == second;
    } else {
      assert (first + second)[1..] == first[1..] + second;
      RootWritesInTwo(first[1..], second);
    }
  }

  lemma {:induction false} StampCounts(s: IoState, h: History, run: seq<Event>)
    requires Inv(s, h) && CanRun(s, h, run)
    requires Value(s.nextStamp) + RootWrites(run) <= Value(MAX_STAMP)
    ensures Value(After(s, h, run).0.nextStamp) == Value(s.nextStamp) + RootWrites(run)
    decreases |run|
  {
    if run != [] {
      EventKeeps(s, h, run[0]);
      StampCounts(Next(s, run[0]), NextHistory(s, h, run[0]), run[1..]);
    }
  }

  // ---------- what the history keeps ----------

  lemma FreeIsNotWanted(s: IoState, h: History, i: nat)
    requires Inv(s, h) && i < |s.file| && NextFree(s.file[i]).Some?
    ensures Loc(i, NextFree(s.file[i]).value) !in h.want
  {
    assert FileInv(i, s.file[i], s.writer[i], s.disk[i], s.prevRoot, s.nextStamp, h);
  }

  /** A wanted page keeps its data as long as nobody frees it: no other write takes it. */
  lemma WantedStays(s: IoState, h: History, e: Event, l: Loc)
    requires Inv(s, h) && Enabled(s, e) && l in h.want && KeepsPage([e], l)
    ensures var k := NextHistory(s, h, e);
            l in k.want && k.want[l] == h.want[l] && (l in h.durable ==> l in k.durable)
  {
    hide Inv, Next, NextFree, NewestRoot, ShapeOk;
    assert [e][0] == e;
    if e.WritePage? {
      FreeIsNotWanted(s, h, e.file);
    }
  }

  lemma {:induction false} WantedStaysInRun(s: IoState, h: History, run: seq<Event>, l: Loc)
    requires Inv(s, h) && CanRun(s, h, run) && l in h.want && KeepsPage(run, l)
    requires Value(s.nextStamp) + RootWrites(run) <= Value(MAX_STAMP)
    ensures var k := After(s, h, run).1;
            l in k.want && k.want[l] == h.want[l] && (l in h.durable ==> l in k.durable)
    decreases |run|
  {
    hide Inv, Next, NextHistory, Enabled, ClientMay;
    if run != [] {
      EventKeeps(s, h, run[0]);
      WantedStays(s, h, run[0], l);
      WantedStaysInRun(Next(s, run[0]), NextHistory(s, h, run[0]), run[1..], l);
    }
  }

  lemma {:induction false} LastRootStays(s: IoState, h: History, run: seq<Event>)
    requires CanRun(s, h, run) && NoRootWrite(run)
    ensures After(s, h, run).1.lastRoot == h.lastRoot
    decreases |run|
  {
    if run != [] {
      LastRootStays(Next(s, run[0]), NextHistory(s, h, run[0]), run[1..]);
    }
  }

  // ---------- a commit ----------

  /** A page write into file `i`, anything, a root write, anything. */
  function Commit(i: nat, data: int, between: seq<Event>, body: int, rest: seq<Event>): seq<Event> {
    [WritePage(i, data)] + (between + ([WriteRoot(body)] + rest))
  }

  /** From a state that the invariant holds of, the commit is durable in the history. */
  lemma CommitFrom(s: IoState, h: History, i: nat, data: int, between: seq<Event>, body: int, rest: seq<Event>)
    requires Inv(s, h) && CanRun(s, h, Commit(i, data, between, body, rest))
    requires Value(s.nextStamp) + RootWrites(Commit(i, data, between, body, rest)) <= Value(MAX_STAMP)
    ensures i < |s.file| && NextFree(s.file[i]).Some?
    ensures var l := Loc(i, NextFree(s.file[i]).value);
            var k := After(s, h, Commit(i, data, between, body, rest)).1;
            && (KeepsPage(between, l) && KeepsPage(rest, l) ==> l in k.durable && l in k.want && k.want[l] == data)
            && (NoRootWrite(rest) ==>
                  k.lastRoot.Some? && k.lastRoot.value.RootBlock? && k.lastRoot.value.body == body)
  {
    var write := WritePage(i, data);
    var tail := between + ([WriteRoot(body)] + rest);
    assert Commit(i, data, between, body, rest)[1..] == tail;
    var s1, h1 := Next(s, write), NextHistory(s, h, write);
    EventKeeps(s, h, write);
    var l := Loc(i, NextFree(s.file[i]).value);
    RunInTwo(s1, h1, between, [WriteRoot(body)] + rest);
    RootWritesInTwo(between, [WriteRoot(body)] + rest);
    var (s2, h2) := After(s1, h1, between);
    RunKeeps(s1, h1, between);
    StampCounts(s1, h1, between);
    assert ([WriteRoot(body)] + rest)[0] == WriteRoot(body) && ([WriteRoot(body)] + rest)[1..] == rest;
    var s3, h3 := Next(s2, WriteRoot(body)), NextHistory(s2, h2, WriteRoot(body));
    EventKeeps(s2, h2, WriteRoot(body));
    if KeepsPage(between, l) && KeepsPage(rest, l) {
      WantedStaysInRun(s1, h1, between, l);
      WantedStaysInRun(s3, h3, rest, l);
    }
    if NoRootWrite(rest) {
      LastRootStays(s3, h3, rest);
    }
  }

  lemma {:induction false} SomeRootStays(s: IoState, h: History, run: seq<Event>)
    requires CanRun(s, h, run) && h.lastRoot.Some?
    ensures After(s, h, run).1.lastRoot.Some?
    decreases |run|
  {
    if run != [] {
      SomeRootStays(Next(s, run[0]), NextHistory(s, h, run[0]), run[1..]);
    }
  }

  lemma RootStaysFound(s: IoState, h: History, i: nat, data: int, between: seq<Event>, body: int, rest: seq<Event>)
    requires CanRun(s, h, Commit(i, data, between, body, rest))
    ensures After(s, h, Commit(i, data, between, body, rest)).1.lastRoot.Some?
  {
    var first := [WritePage(i, data)] + between;
    assert Commit(i, data, between, body, rest) == first + ([WriteRoot(body)] + rest);
    RunInTwo(s, h, first, [WriteRoot(body)] + rest);
    var (t, k) := After(s, h, first);
    assert ([WriteRoot(body)] + rest)[0] == WriteRoot(body) && ([WriteRoot(body)] + rest)[1..] == rest;
    SomeRootStays(Next(t, WriteRoot(body)), NextHistory(t, k, WriteRoot(body)), rest);
  }

  /** A commit survives.  Whatever happened before, whatever the writer threads do and
      however often the system crashes: a page asked for before a root write is on disk
      with its data after every run that does not free it and declares it after each
      crash; and until the next root write the root found is the one written. */
  lemma CommitSurvives(pages: seq<nat>, before: seq<Event>, i: nat, data: int,
                       between: seq<Event>, body: int, rest: seq<Event>)
    requires GoodSizes(pages)
    requires CanRun(Created(pages), EMPTY_HISTORY, before + Commit(i, data, between, body, rest))
    requires RootWrites(before + Commit(i, data, between, body, rest)) < Value(MAX_STAMP)
    ensures CanRun(Created(pages), EMPTY_HISTORY, before) && PageTaken(pages, before, i).Some?
    ensures var l := PageTaken(pages, before, i).value;
            var s := After(Created(pages), EMPTY_HISTORY, before + Commit(i, data, between, body, rest)).0;
            && ShapeOk(s)
            && (KeepsPage(between, l) && KeepsPage(rest, l) ==> IsPage(s, l) && BlockAt(s, l) == PageBlock(data))
            && NewestRoot(s.disk).Some?
            && IsPage(s, NewestRoot(s.disk).value)
            && (NoRootWrite(rest) ==>
                  var root := BlockAt(s, NewestRoot(s.disk).value); root.RootBlock? && root.body == body)
  {
    hide Inv, Next, NextHistory, Enabled, ClientMay, CanRun, After, RootWrites, GoodSizes, NextFree, NewestRoot;
    var commit := Commit(i, data, between, body, rest);
    var s0 := Created(pages);
    RunInTwo(s0, EMPTY_HISTORY, before, commit);
    RootWritesInTwo(before, commit);
    CreatedInv(pages);
    RunKeeps(s0, EMPTY_HISTORY, before);
    StampCounts(s0, EMPTY_HISTORY, before);
    var (s1, h1) := After(s0, EMPTY_HISTORY, before);
    CommitFrom(s1, h1, i, data, between, body, rest);
    CrashSafety(pages, before + commit);
    RootStaysFound(s1, h1, i, data, between, body, rest);
  }
}
