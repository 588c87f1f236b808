/** The thread scheduler of interp.c: run queues by priority, blocked threads, the suspended thread of a
    commit, and recovery from the last commit.  The queues are those of queue.c and the blocked threads a
    trie of triev2.c; both are taken here for the sequences and maps they were proved to be. */
module Scheduler {

  import opened Wrappers

  const NUMBER_OF_CONTEXT_PRIORITIES: nat := 4

  /** `CELL_context`: also what the interpreter keeps of a thread in its registers. */
  datatype Context = Context(cont: int, accu: int, id: nat, priority: nat)

  /** What the root block has of threads. */
  datatype Roots = Roots(contexts: seq<seq<Context>>, blocked: map<nat, Context>, highest: nat, suspended: Option<Context>)

  /** The root block being built, the registers, and the root block of the last commit. */
  datatype State = State(roots: Roots, running: Option<Context>, saved: Roots)

  datatype Event =
    | Compute(cont: int, accu: int)
    | Spawn(cont: int, accu: int, priority: nat)
    | Yield
    | Die
    | Block
    | WakeUp(id: nat)
    | Pick
    | FlushRunning
    | FlushIdle
    | Crash

  /** What the instructions demand: a running thread, and priorities that exist; a wake-up is for a
      blocked thread, and a thread that runs is never blocked under the same number. */
  predicate Enabled(s: State, e: Event) {
    match e
    case Compute(_, _) => s.running.Some?
    case Spawn(_, _, p) => s.running.Some? && p < NUMBER_OF_CONTEXT_PRIORITIES
    case Yield => s.running.Some?
    case Die => s.running.Some?
    case Block => s.running.Some?
    case WakeUp(id) => s.running.None? && id in s.roots.blocked
    case Pick => s.running.None?
    case FlushRunning => s.running.Some?
    case FlushIdle => s.running.None?
    case Crash => true
  }

  /** The highest priority below `n` with a thread in its queue. */
  function TopBelow(contexts: seq<seq<Context>>, n: nat): (r: Option<nat>)
    requires n <= |contexts|
    ensures r.Some? ==> r.value < n && contexts[r.value] != []
    ensures forall p | 0 <= p < n && (r.None? || r.value < p) :: contexts[p] == []
  {
    if n == 0 then None else if contexts[n - 1] != [] then Some(n - 1) else TopBelow(contexts, n - 1)
  }

  function Enqueued(r: Roots, c: Context): Roots
    requires c.priority < |r.contexts|
  {
    r.(contexts := r.contexts[c.priority := r.contexts[c.priority] + [c]])
  }

  function Next(s: State, e: Event): State
    requires Shape(s) && Enabled(s, e)
  {
    var r := s.roots;
    match e
    case Compute(cont, accu) => s.(running := Some(s.running.value.(cont := cont, accu := accu)))
    case Spawn(cont, accu, p) =>
      s.(roots := Enqueued(r.(highest := r.highest + 1), Context(cont, accu, r.highest + 1, p)))
    case Yield => s.(roots := Enqueued(r, s.running.value), running := None)
    case Die => s.(running := None)
    case Block => s.(roots := r.(blocked := r.blocked[s.running.value.id := s.running.value]), running := None)
    case WakeUp(id) => s.(roots := Enqueued(r.(blocked := r.blocked - {id}), r.blocked[id]))
    case Pick =>
      var top := TopBelow(r.contexts, |r.contexts|);
      if top.None? then s
      else
        var q := r.contexts[top.value];
        s.(roots := r.(contexts := r.contexts[top.value := q[1..]]), running := Some(q[0]))
    case FlushRunning => s.(saved := r.(suspended := s.running))
    case FlushIdle => s.(saved := r)
    case Crash => State(s.saved.(suspended := None), s.saved.suspended, s.saved)
  }

  predicate RootsShape(r: Roots) {
    && |r.contexts| == NUMBER_OF_CONTEXT_PRIORITIES
    && (forall id | id in r.blocked :: r.blocked[id].priority < NUMBER_OF_CONTEXT_PRIORITIES)
    && (r.suspended.Some? ==> r.suspended.value.priority < NUMBER_OF_CONTEXT_PRIORITIES)
  }

  predicate Shape(s: State) {
    && RootsShape(s.roots) && RootsShape(s.saved) && s.roots.suspended.None?
    && (s.running.Some? ==> s.running.value.priority < NUMBER_OF_CONTEXT_PRIORITIES)
  }

  // ---------- where threads are ----------

  function CountQueue(q: seq<Context>, id: nat): nat {
    if q == [] then 0 else CountQueue(q[..|q| - 1], id) + if q[|q| - 1].id == id then 1 else 0
  }

  function CountQueues(qs: seq<seq<Context>>, id: nat): nat {
    if qs == [] then 0 else CountQueues(qs[..|qs| - 1], id) + CountQueue(qs[|qs| - 1], id)
  }

  /** In how many places the thread is: in run queues, among the blocked, in the registers. */
  function Places(r: Roots, running: Option<Context>, id: nat): nat {
    CountQueues(r.contexts, id) + (if id in r.blocked then 1 else 0)
    + if running.Some? && running.value.id == id then 1 else 0
  }

  lemma CountAppend(q: seq<Context>, c: Context, id: nat)
    ensures CountQueue(q + [c], id) == CountQueue(q, id) + if c.id == id then 1 else 0
  {
    assert (q + [c])[..|q|] == q;
  }

  lemma {:induction false} CountFirst(q: seq<Context>, id: nat)
    requires q != []
    ensures CountQueue(q, id) == CountQueue(q[1..], id) + if q[0].id == id then 1 else 0
  {
    if |q| > 1 {
      CountFirst(q[..|q| - 1], id);
      assert q[1..][..|q| - 2] == q[..|q| - 1][1..];
    }
  }

  lemma {:induction false} CountReplaced(qs: seq<seq<Context>>, p: nat, q: seq<Context>, id: nat)
    requires p < |qs|
    ensures CountQueues(qs[p := q], id) + CountQueue(qs[p], id) == CountQueues(qs, id) + CountQueue(q, id)
  {
    var n := |qs| - 1;
    if p < n {
      CountReplaced(qs[..n], p, q, id);
      assert qs[p := q][..n] == qs[..n][p := q];
    } else {
      assert qs[p := q][..n] == qs[..n];
    }
  }

  // ---------- the invariant ----------

  /** Every thread that is live, with its last continuation and accumulator. */
  type Threads = map<nat, Context>

  ghost predicate Known(c: Context, live: Threads) {
    c.id in live && live[c.id] == c
  }

  ghost predicate QueueGood(q: seq<Context>, p: nat, live: Threads) {
    forall i | 0 <= i < |q| :: q[i].priority == p && Known(q[i], live)
  }

  ghost predicate InPlace(r: Roots, running: Option<Context>, live: Threads, id: nat) {
    Places(r, running, id) == if id in live then 1 else 0
  }

  /** Each live thread is in exactly one place, a queued one in the queue of its own priority, with
      just the continuation and accumulator it last had; no other thread is anywhere. */
  ghost predicate Good(r: Roots, running: Option<Context>, live: Threads) {
    && |r.contexts| == NUMBER_OF_CONTEXT_PRIORITIES
    && (forall p | 0 <= p < |r.contexts| :: QueueGood(r.contexts[p], p, live))
    && (forall id | id in r.blocked :: r.blocked[id].id == id && Known(r.blocked[id], live)
                                       && r.blocked[id].priority < NUMBER_OF_CONTEXT_PRIORITIES)
    && (running.Some? ==> Known(running.value, live) && running.value.priority < NUMBER_OF_CONTEXT_PRIORITIES)
    && (forall id: nat :: InPlace(r, running, live, id))
    && (forall id | id in live :: id <= r.highest)
  }

  datatype History = History(live: Threads, savedLive: Threads)

  ghost function NextHistory(s: State, h: History, e: Event): History
    requires Shape(s) && Enabled(s, e)
  {
    match e
    case Compute(cont, accu) =>
      var c := s.running.value;
      h.(live := h.live[c.id := c.(cont := cont, accu := accu)])
    case Spawn(cont, accu, p) =>
      var id := s.roots.highest + 1;
      h.(live := h.live[id := Context(cont, accu, id, p)])
    case Die => h.(live := h.live - {s.running.value.id})
    case FlushRunning => h.(savedLive := h.live)
    case FlushIdle => h.(savedLive := h.live)
    case Crash => h.(live := h.savedLive)
    case _ => h
  }

  ghost predicate Inv(s: State, h: History) {
    Shape(s) && Good(s.roots, s.running, h.live) && Good(s.saved, s.saved.suspended, h.savedLive)
  }

  /** `interp` on a new database: thread 0 runs, and nothing has been committed. */
  function Started(cont: int, accu: int, priority: nat): State {
    var none := Roots(seq(NUMBER_OF_CONTEXT_PRIORITIES, _ => []), map[], 0, None);
    State(none, Some(Context(cont, accu, 0, priority)), none)
  }

  lemma {:induction false} NoneQueued(qs: seq<seq<Context>>, id: nat)
    requires forall p | 0 <= p < |qs| :: qs[p] == []
    ensures CountQueues(qs, id) == 0
  {
    if qs != [] {
      NoneQueued(qs[..|qs| - 1], id);
    }
  }

  lemma StartedInv(cont: int, accu: int, priority: nat)
    requires priority < NUMBER_OF_CONTEXT_PRIORITIES
    ensures Inv(Started(cont, accu, priority), History(map[0 := Context(cont, accu, 0, priority)], map[]))
  {
    var s := Started(cont, accu, priority);
    forall id: nat
      ensures InPlace(s.roots, s.running, map[0 := Context(cont, accu, 0, priority)], id)
      ensures InPlace(s.saved, None, map[], id)
    {
      NoneQueued(s.roots.contexts, id);
    }
  }

  // ---------- every step keeps the invariant ----------

  /** A context goes last into the queue of its priority. */
  lemma EnqueuedPlaces(r: Roots, c: Context, running: Option<Context>, id: nat)
    requires c.priority < |r.contexts|
    ensures Places(Enqueued(r, c), running, id) == Places(r, running, id) + if c.id == id then 1 else 0
  {
    var q := r.contexts[c.priority];
    CountAppend(q, c, id);
    CountReplaced(r.contexts, c.priority, q + [c], id);
  }

  lemma EnqueuedGood(r: Roots, c: Context, live: Threads)
    requires |r.contexts| == NUMBER_OF_CONTEXT_PRIORITIES && c.priority < NUMBER_OF_CONTEXT_PRIORITIES
    requires (forall p | 0 <= p < |r.contexts| :: QueueGood(r.contexts[p], p, live)) && Known(c, live)
    ensures var t := Enqueued(r, c); forall p | 0 <= p < |t.contexts| :: QueueGood(t.contexts[p], p, live)
  {
  }

  lemma YieldKeeps(r: Roots, c: Context, live: Threads)
    requires Good(r, Some(c), live)
    ensures Good(Enqueued(r, c), None, live)
  {
    EnqueuedGood(r, c, live);
    forall id: nat ensures InPlace(Enqueued(r, c), None, live, id) {
      EnqueuedPlaces(r, c, None, id);
      assert InPlace(r, Some(c), live, id);
    }
  }

  lemma WakeUpKeeps(r: Roots, id: nat, live: Threads)
    requires Good(r, None, live) && id in r.blocked
    ensures Good(Enqueued(r.(blocked := r.blocked - {id}), r.blocked[id]), None, live)
  {
    var c, less := r.blocked[id], r.(blocked := r.blocked - {id});
    EnqueuedGood(less, c, live);
    forall j: nat ensures InPlace(Enqueued(less, c), None, live, j) {
      EnqueuedPlaces(less, c, None, j);
      assert InPlace(r, None, live, j);
    }
  }

  lemma BlockKeeps(r: Roots, c: Context, live: Threads)
    requires Good(r, Some(c), live)
    ensures Good(r.(blocked := r.blocked[c.id := c]), None, live)
  {
    var t := r.(blocked := r.blocked[c.id := c]);
    assert InPlace(r, Some(c), live, c.id);
    forall id: nat ensures InPlace(t, None, live, id) {
      assert InPlace(r, Some(c), live, id);
    }
  }

  lemma PickKeeps(r: Roots, p: nat, live: Threads)
    requires Good(r, None, live) && p < |r.contexts| && r.contexts[p] != []
    ensures Good(r.(contexts := r.contexts[p := r.contexts[p][1..]]), Some(r.contexts[p][0]), live)
  {
    var q := r.contexts[p];
    var t := r.(contexts := r.contexts[p := q[1..]]);
    assert QueueGood(q, p, live);
    forall k | 0 <= k < |t.contexts| ensures QueueGood(t.contexts[k], k, live) {
      assert QueueGood(r.contexts[k], k, live);
    }
    forall id: nat ensures InPlace(t, Some(q[0]), live, id) {
      CountFirst(q, id);
      CountReplaced(r.contexts, p, q[1..], id);
      assert InPlace(r, None, live, id);
    }
  }

  lemma {:induction false} CountOne(q: seq<Context>, i: nat, id: nat)
    requires i < |q| && q[i].id == id
    ensures CountQueue(q, id) > 0
  {
    if i < |q| - 1 {
      CountOne(q[..|q| - 1], i, id);
    }
  }

  lemma {:induction false} CountSome(qs: seq<seq<Context>>, p: nat, i: nat, id: nat)
    requires p < |qs| && i < |qs[p]| && qs[p][i].id == id
    ensures CountQueues(qs, id) > 0
  {
    CountOne(qs[p], i, id);
    if p < |qs| - 1 {
      CountSome(qs[..|qs| - 1], p, i, id);
    }
  }

  /** The thread in the registers is nowhere else. */
  lemma RunningIsElsewhereNot(r: Roots, c: Context, live: Threads, p: nat, i: nat)
    requires Good(r, Some(c), live) && p < |r.contexts| && i < |r.contexts[p]|
    ensures r.contexts[p][i].id != c.id
  {
    assert InPlace(r, Some(c), live, c.id);
    if r.contexts[p][i].id == c.id {
      CountSome(r.contexts, p, i, c.id);
    }
  }

  /** The thread in the registers may go on, or end: what the others hold stays known. */
  lemma OthersStayKnown(r: Roots, c: Context, live: Threads, after: Threads)
    requires Good(r, Some(c), live)
    requires forall id | id in live && id != c.id :: id in after && after[id] == live[id]
    ensures forall p | 0 <= p < |r.contexts| :: QueueGood(r.contexts[p], p, after)
    ensures c.id !in r.blocked && forall id | id in r.blocked :: Known(r.blocked[id], after)
  {
    assert InPlace(r, Some(c), live, c.id);
    forall p | 0 <= p < |r.contexts| ensures QueueGood(r.contexts[p], p, after) {
      assert QueueGood(r.contexts[p], p, live);
      forall i | 0 <= i < |r.contexts[p]| ensures r.contexts[p][i].priority == p && Known(r.contexts[p][i], after) {
        RunningIsElsewhereNot(r, c, live, p, i);
      }
    }
  }

  lemma DieKeeps(r: Roots, c: Context, live: Threads)
    requires Good(r, Some(c), live)
    ensures Good(r, None, live - {c.id})
  {
    OthersStayKnown(r, c, live, live - {c.id});
    forall id: nat ensures InPlace(r, None, live - {c.id}, id) {
      assert InPlace(r, Some(c), live, id);
    }
  }

  lemma ComputeKeeps(r: Roots, c: Context, d: Context, live: Threads)
    requires Good(r, Some(c), live) && d.id == c.id && d.priority == c.priority
    ensures Good(r, Some(d), live[d.id := d])
  {
    var after := live[d.id := d];
    OthersStayKnown(r, c, live, after);
    forall id: nat ensures InPlace(r, Some(d), after, id) {
      assert InPlace(r, Some(c), live, id);
    }
  }

  lemma SpawnKeeps(r: Roots, running: Option<Context>, c: Context, live: Threads)
    requires Good(r, running, live) && c.id == r.highest + 1 && c.priority < NUMBER_OF_CONTEXT_PRIORITIES
    ensures Good(Enqueued(r.(highest := c.id), c), running, live[c.id := c])
  {
    var more, after := r.(highest := c.id), live[c.id := c];
    assert c.id !in live;
    forall p | 0 <= p < |r.contexts| ensures QueueGood(r.contexts[p], p, after) {
      assert QueueGood(r.contexts[p], p, live);
    }
    EnqueuedGood(more, c, after);
    forall id: nat ensures InPlace(Enqueued(more, c), running, after, id) {
      EnqueuedPlaces(more, c, running, id);
      assert InPlace(r, running, live, id);
    }
  }

  lemma SuspendedIsNoPlace(r: Roots, o: Option<Context>, running: Option<Context>, live: Threads)
    requires Good(r, running, live)
    ensures Good(r.(suspended := o), running, live)
  {
    forall id: nat ensures InPlace(r.(suspended := o), running, live, id) {
      assert InPlace(r, running, live, id);
    }
  }

  lemma EventKeeps(s: State, h: History, e: Event)
    requires Inv(s, h) && Enabled(s, e)
    ensures Inv(Next(s, e), NextHistory(s, h, e))
  {
    hide Good;
    GoodShape(s.roots, s.running, h.live);
    GoodShape(s.saved, s.saved.suspended, h.savedLive);
    match e
    case Compute(cont, accu) =>
      ComputeKeeps(s.roots, s.running.value, s.running.value.(cont := cont, accu := accu), h.live);
    case Spawn(cont, accu, p) =>
      SpawnKeeps(s.roots, s.running, Context(cont, accu, s.roots.highest + 1, p), h.live);
    case Yield => YieldKeeps(s.roots, s.running.value, h.live);
    case Die => DieKeeps(s.roots, s.running.value, h.live);
    case Block => BlockKeeps(s.roots, s.running.value, h.live);
    case WakeUp(id) => WakeUpKeeps(s.roots, id, h.live);
    case Pick =>
      var top := TopBelow(s.roots.contexts, |s.roots.contexts|);
      if top.Some? {
        PickKeeps(s.roots, top.value, h.live);
      }
    case FlushRunning => SuspendedIsNoPlace(s.roots, s.running, s.running, h.live);
    case FlushIdle =>
    case Crash => SuspendedIsNoPlace(s.saved, None, s.saved.suspended, h.savedLive);
    var t, k := Next(s, e), NextHistory(s, h, e);
    GoodShape(t.roots, t.running, k.live);
    GoodShape(t.saved, t.saved.suspended, k.savedLive);
  }

  lemma GoodShape(r: Roots, running: Option<Context>, live: Threads)
    requires Good(r, running, live)
    ensures |r.contexts| == NUMBER_OF_CONTEXT_PRIORITIES
    ensures forall id | id in r.blocked :: r.blocked[id].priority < NUMBER_OF_CONTEXT_PRIORITIES
    ensures running.Some? ==> running.value.priority < NUMBER_OF_CONTEXT_PRIORITIES
    ensures forall p, i | 0 <= p < |r.contexts| && 0 <= i < |r.contexts[p]| :: r.contexts[p][i].priority == p
  {
    forall p, i | 0 <= p < |r.contexts| && 0 <= i < |r.contexts[p]| ensures r.contexts[p][i].priority == p {
      assert QueueGood(r.contexts[p], p, live);
    }
  }

  // ---------- whole runs ----------

  predicate CanRun(s: State, es: seq<Event>)
    decreases |es|
  {
    es == [] || (Shape(s) && Enabled(s, es[0]) && CanRun(Next(s, es[0]), es[1..]))
  }

  function RunState(s: State, es: seq<Event>): State
    requires CanRun(s, es)
    decreases |es|
  {
    if es == [] then s else RunState(Next(s, es[0]), es[1..])
  }

  ghost function RunHistory(s: State, h: History, es: seq<Event>): History
    requires CanRun(s, es)
    decreases |es|
  {
    if es == [] then h else RunHistory(Next(s, es[0]), NextHistory(s, h, es[0]), es[1..])
  }

  lemma {:induction false} RunKeeps(s: State, h: History, es: seq<Event>)
    requires Inv(s, h) && CanRun(s, es)
    ensures Inv(RunState(s, es), RunHistory(s, h, es))
    decreases |es|
  {
    if es != [] {
      EventKeeps(s, h, es[0]);
      RunKeeps(Next(s, es[0]), NextHistory(s, h, es[0]), es[1..]);
    }
  }

  /** In every run of a new interpreter, through commits and crashes, each live thread is in exactly
      one place, as it is known, and no other thread is in any; a thread that waits for the processor is in
      the queue of its own priority. */
  lemma NoThreadIsLost(cont: int, accu: int, priority: nat, es: seq<Event>, id: nat)
    requires priority < NUMBER_OF_CONTEXT_PRIORITIES && CanRun(Started(cont, accu, priority), es)
    ensures var s := Started(cont, accu, priority);
            var h := History(map[0 := Context(cont, accu, 0, priority)], map[]);
            var t := RunState(s, es);
            && Places(t.roots, t.running, id) == (if id in RunHistory(s, h, es).live then 1 else 0)
            && |t.roots.contexts| == NUMBER_OF_CONTEXT_PRIORITIES
            && (forall p, i | 0 <= p < |t.roots.contexts| && 0 <= i < |t.roots.contexts[p]| ::
                  var c := t.roots.contexts[p][i]; c.priority == p && Known(c, RunHistory(s, h, es).live))
  {
    var s := Started(cont, accu, priority);
    var h := History(map[0 := Context(cont, accu, 0, priority)], map[]);
    StartedInv(cont, accu, priority);
    RunKeeps(s, h, es);
    var t := RunState(s, es);
    var live := RunHistory(s, h, es).live;
    GoodShape(t.roots, t.running, live);
    assert InPlace(t.roots, t.running, live, id);
    forall p, i | 0 <= p < |t.roots.contexts| && 0 <= i < |t.roots.contexts[p]| ensures Known(t.roots.contexts[p][i], live) {
      assert QueueGood(t.roots.contexts[p], p, live);
    }
  }

  /** A thread that waits in a queue is not overtaken there: up to a crash its place only gets nearer
      to the front, by one with each thread that is picked from its queue. */
  lemma NotOvertaken(s: State, e: Event, p: nat, i: nat)
    requires Shape(s) && Enabled(s, e) && e != Crash && p < |s.roots.contexts| && i < |s.roots.contexts[p]|
    ensures var t := Next(s, e);
            var c, q := s.roots.contexts[p][i], t.roots.contexts[p];
            if e == Pick && TopBelow(s.roots.contexts, |s.roots.contexts|) == Some(p)
            then if i == 0 then t.running == Some(c) else i - 1 < |q| && q[i - 1] == c
            else i < |q| && q[i] == c
  {
  }

  /** After a crash just the threads of the last commit are there, and the one that was running when it
      was made runs again. */
  lemma CrashRestoresCommit(s: State, h: History, id: nat)
    requires Inv(s, h)
    ensures var t := Next(s, Crash);
            && Places(t.roots, t.running, id) == (if id in h.savedLive then 1 else 0)
            && t.running == s.saved.suspended
            && (t.running.Some? ==> Known(t.running.value, h.savedLive))
  {
    EventKeeps(s, h, Crash);
    var t := Next(s, Crash);
    assert InPlace(t.roots, t.running, h.savedLive, id);
  }

  // ---------- what each step does ----------

  /** Nothing but the queue of priority `p` has changed, and `c` is last in it. */
  ghost predicate OnlyAppended(before: seq<seq<Context>>, after: seq<seq<Context>>, p: nat, c: Context) {
    && p < |before| == |after| && after[p] == before[p] + [c]
    && forall j | 0 <= j < |before| && j != p :: after[j] == before[j]
  }

  /** A thread that yields waits behind all others of its priority, and nothing runs. */
  lemma YieldGoesLast(s: State)
    requires Shape(s) && Enabled(s, Yield)
    ensures var t, c := Next(s, Yield), s.running.value;
            && t.running == None && OnlyAppended(s.roots.contexts, t.roots.contexts, c.priority, c)
            && t.roots.blocked == s.roots.blocked && t.roots.highest == s.roots.highest && t.saved == s.saved
  {
  }

  /** A thread that blocks is kept under its number, and nothing runs. */
  lemma BlockParks(s: State)
    requires Shape(s) && Enabled(s, Block)
    ensures var t, c := Next(s, Block), s.running.value;
            && t.running == None && t.roots.contexts == s.roots.contexts
            && c.id in t.roots.blocked && t.roots.blocked[c.id] == c
            && (forall id | id != c.id :: id in t.roots.blocked <==> id in s.roots.blocked)
            && (forall id | id in s.roots.blocked && id != c.id :: t.roots.blocked[id] == s.roots.blocked[id])
            && t.roots.highest == s.roots.highest && t.saved == s.saved
  {
  }

  /** A thread that is woken up goes as it was behind all others of its priority, and is blocked no more. */
  lemma WakeUpGoesLast(s: State, id: nat)
    requires Shape(s) && Enabled(s, WakeUp(id))
    ensures var t, c := Next(s, WakeUp(id)), s.roots.blocked[id];
            && t.running == s.running && OnlyAppended(s.roots.contexts, t.roots.contexts, c.priority, c)
            && id !in t.roots.blocked
            && (forall i | i != id :: i in t.roots.blocked <==> i in s.roots.blocked)
            && (forall i | i in t.roots.blocked :: t.roots.blocked[i] == s.roots.blocked[i])
            && t.roots.highest == s.roots.highest && t.saved == s.saved
  {
  }

  /** A spawned thread goes last, with the next number; the one that spawns it runs on. */
  lemma SpawnGoesLast(s: State, cont: int, accu: int, p: nat)
    requires Shape(s) && Enabled(s, Spawn(cont, accu, p))
    ensures var t := Next(s, Spawn(cont, accu, p));
            && t.running == s.running && t.roots.highest == s.roots.highest + 1
            && OnlyAppended(s.roots.contexts, t.roots.contexts, p, Context(cont, accu, s.roots.highest + 1, p))
            && t.roots.blocked == s.roots.blocked && t.saved == s.saved
  {
  }

  /** A commit keeps all queues and the thread that runs; a crash right behind it, at any later step too,
      comes back to just this state. */
  lemma FlushIsWhatCrashFinds(s: State, e: Event)
    requires Shape(s) && Enabled(s, FlushRunning)
    ensures var t := Next(s, FlushRunning); t.roots == s.roots && t.running == s.running && Next(t, Crash) == t
    ensures var t := Next(s, FlushRunning);
            Enabled(t, e) && !e.FlushRunning? && !e.FlushIdle? ==> Next(Next(t, e), Crash) == t
  {
  }

  /** Between two picks each waiting thread keeps its place, and each pick from its queue brings it one nearer. */
  function PicksFrom(s: State, es: seq<Event>, p: nat): nat
    requires CanRun(s, es)
    decreases |es|
  {
    if es == [] then 0
    else
      (if es[0] == Pick && TopBelow(s.roots.contexts, |s.roots.contexts|) == Some(p) then 1 else 0)
      + PicksFrom(Next(s, es[0]), es[1..], p)
  }

  /** Somewhere in the run the thread is picked. */
  predicate IsPicked(s: State, es: seq<Event>, c: Context)
    requires CanRun(s, es)
    decreases |es|
  {
    es != [] && ((es[0] == Pick && Next(s, es[0]).running == Some(c)) || IsPicked(Next(s, es[0]), es[1..], c))
  }

  /** In every run without a crash the thread at place `i` of a queue is picked with the pick `i + 1` from that
      queue, if there are as many; until then it waits, as many places nearer as there were picks. */
  lemma {:induction false} TurnComes(s: State, es: seq<Event>, p: nat, i: nat)
    requires CanRun(s, es) && Crash !in es && p < |s.roots.contexts| && i < |s.roots.contexts[p]|
    ensures var c, n, t := s.roots.contexts[p][i], PicksFrom(s, es, p), RunState(s, es);
            if i < n then IsPicked(s, es, c)
            else p < |t.roots.contexts| && i - n < |t.roots.contexts[p]| && t.roots.contexts[p][i - n] == c
    decreases |es|
  {
    hide Next;
    if es != [] {
      NotOvertaken(s, es[0], p, i);
      StillFour(s, es[0]);
      var top := TopBelow(s.roots.contexts, |s.roots.contexts|);
      if es[0] == Pick && top == Some(p) {
        if i > 0 {
          TurnComes(Next(s, es[0]), es[1..], p, i - 1);
        }
      } else {
        TurnComes(Next(s, es[0]), es[1..], p, i);
      }
    }
  }

  function Spawns(es: seq<Event>): nat {
    if es == [] then 0 else (if es[0].Spawn? then 1 else 0) + Spawns(es[1..])
  }

  /** Threads are numbered in the order of their spawns, and no number is given twice before a crash. */
  lemma {:induction false} SpawnsAreNumbered(s: State, es: seq<Event>)
    requires CanRun(s, es) && Crash !in es
    ensures RunState(s, es).roots.highest == s.roots.highest + Spawns(es)
    decreases |es|
  {
    if es != [] {
      assert es[0] != Crash;
      SpawnsAreNumbered(Next(s, es[0]), es[1..]);
    }
  }

  /** The first thread is number 0, so the k-th one spawned is number k. */
  lemma FirstIsZero(cont: int, accu: int, priority: nat, es: seq<Event>)
    requires CanRun(Started(cont, accu, priority), es) && Crash !in es
    ensures Started(cont, accu, priority).running == Some(Context(cont, accu, 0, priority))
    ensures RunState(Started(cont, accu, priority), es).roots.highest == Spawns(es)
  {
    SpawnsAreNumbered(Started(cont, accu, priority), es);
  }

  lemma StillFour(s: State, e: Event)
    requires Shape(s) && Enabled(s, e)
    ensures |Next(s, e).roots.contexts| == |s.roots.contexts|
  {
  }

  // ---------- the interpreter ----------

  function WokenUp(s: State, ids: seq<nat>): State
    requires Shape(s) && s.running.None? && forall i | 0 <= i < |ids| :: ids[i] in s.roots.blocked
    requires forall i, j | 0 <= i < j < |ids| :: ids[i] != ids[j]
    ensures Shape(WokenUp(s, ids)) && WokenUp(s, ids).running.None?
    ensures WokenUp(s, ids).roots.blocked == s.roots.blocked - set id | id in ids
    decreases |ids|
  {
    if ids == [] then s else Next(WokenUp(s, ids[..|ids| - 1]), WakeUp(ids[|ids| - 1]))
  }

  lemma WokenNone(s: State)
    requires Shape(s) && s.running.None?
    ensures WokenUp(s, []) == s
  {
  }

  lemma WokenOne(s: State, ids: seq<nat>)
    requires Shape(s) && s.running.None? && ids != [] && forall i | 0 <= i < |ids| :: ids[i] in s.roots.blocked
    requires forall i, j | 0 <= i < j < |ids| :: ids[i] != ids[j]
    ensures var k := |ids| - 1;
            var before := WokenUp(s, ids[..k]);
            ids[k] in before.roots.blocked && WokenUp(s, ids) == Next(before, WakeUp(ids[k]))
  {
    hide TopBelow, Next;
    assert ids[|ids| - 1] !in ids[..|ids| - 1];
  }

  /** Those of the threads `ids` that have priority `p`, in their order. */
  function OfPriority(blocked: map<nat, Context>, ids: seq<nat>, p: nat): seq<Context>
    requires forall i | 0 <= i < |ids| :: ids[i] in blocked
  {
    if ids == [] then []
    else
      var c := blocked[ids[|ids| - 1]];
      OfPriority(blocked, ids[..|ids| - 1], p) + if c.priority == p then [c] else []
  }

  /** Woken up together, threads go behind those of their priority in the order of their numbers given. */
  lemma {:induction false} WokenGoLast(s: State, ids: seq<nat>)
    requires Shape(s) && s.running.None? && forall i | 0 <= i < |ids| :: ids[i] in s.roots.blocked
    requires forall i, j | 0 <= i < j < |ids| :: ids[i] != ids[j]
    ensures var t := WokenUp(s, ids);
            && |t.roots.contexts| == |s.roots.contexts|
            && (forall p | 0 <= p < |s.roots.contexts| ::
                  t.roots.contexts[p] == s.roots.contexts[p] + OfPriority(s.roots.blocked, ids, p))
            && (forall id | id in t.roots.blocked :: t.roots.blocked[id] == s.roots.blocked[id])
    decreases |ids|
  {
    hide Next, WokenUp;
    if ids == [] {
      WokenNone(s);
    } else {
      var k := |ids| - 1;
      WokenGoLast(s, ids[..k]);
      WokenOne(s, ids);
      WakeUpGoesLast(WokenUp(s, ids[..k]), ids[k]);
    }
  }

  class Interpreter {
    var contexts: seq<seq<Context>>
    var blocked: map<nat, Context>
    var highest: nat
    var suspended: Option<Context>
    /** The registers `cont`, `accu`, `thread_id` and `priority`, as long as a thread runs. */
    var running: Option<Context>
    /** The root block on disk. */
    var saved: Roots

    function Now(): State
      reads this
    {
      State(Roots(contexts, blocked, highest, suspended), running, saved)
    }

    /** `interp` without a continuation: from the root block that was found, at `recover_cont`. */
    constructor Recover(found: Roots)
      ensures Now() == State(found.(suspended := None), found.suspended, found)
    {
      contexts, blocked, highest, suspended := found.contexts, found.blocked, found.highest, None;
      running, saved := found.suspended, found;
    }

    method InsertLast(c: Context)
      requires c.priority < |contexts|
      modifies this`contexts
      ensures contexts == old(contexts)[c.priority := old(contexts)[c.priority] + [c]]
    {
      contexts := contexts[c.priority := contexts[c.priority] + [c]];
    }

    /** The `spawn` instruction. */
    method SpawnThread(cont: int, accu: int, priority: nat)
      requires Shape(Now()) && running.Some? && priority < NUMBER_OF_CONTEXT_PRIORITIES
      modifies this`contexts, this`highest
      ensures Now() == Next(old(Now()), Spawn(cont, accu, priority))
      ensures highest == old(highest) + 1
      ensures OnlyAppended(old(contexts), contexts, priority, Context(cont, accu, old(highest) + 1, priority))
    {
      highest := highest + 1;
      InsertLast(Context(cont, accu, highest, priority));
    }

    /** `yield_cont`. */
    method YieldCont()
      requires Shape(Now()) && running.Some?
      modifies this`contexts, this`running
      ensures Now() == Next(old(Now()), Yield)
      ensures running == None && OnlyAppended(old(contexts), contexts, old(running).value.priority, old(running).value)
    {
      InsertLast(running.value);
      running := None;
    }

    /** `block_cont`. */
    method BlockCont()
      requires Shape(Now()) && running.Some?
      modifies this`blocked, this`running
      ensures Now() == Next(old(Now()), Block)
      ensures running == None && old(running).value.id in blocked && blocked[old(running).value.id] == old(running).value
      ensures forall id | id in old(blocked) && id != old(running).value.id :: id in blocked && blocked[id] == old(blocked)[id]
    {
      blocked := blocked[running.value.id := running.value];
      running := None;
    }

    /** `flush_and_run_cont`: the registers go to the root block, the batch is committed, and the
        registers come back. */
    method FlushAndRunCont()
      requires Shape(Now()) && running.Some?
      modifies this`suspended, this`running, this`saved
      ensures Now() == Next(old(Now()), FlushRunning)
      ensures running == old(running) && saved == Roots(contexts, blocked, highest, running)
    {
      suspended := running;
      saved := Roots(contexts, blocked, highest, suspended);
      running := suspended;
      suspended := None;
    }

    /** The wake-ups at `die_cont`. */
    method WakeThreads(ids: seq<nat>)
      requires Shape(Now()) && running.None? && forall i | 0 <= i < |ids| :: ids[i] in blocked
      requires forall i, j | 0 <= i < j < |ids| :: ids[i] != ids[j]
      modifies this`contexts, this`blocked
      ensures Now() == WokenUp(old(Now()), ids)
      ensures running == None && |contexts| == |old(contexts)| && blocked.Keys == old(blocked).Keys - set id | id in ids
      ensures forall p | 0 <= p < |contexts| :: contexts[p] == old(contexts)[p] + OfPriority(old(blocked), ids, p)
    {
      hide TopBelow, WokenUp;
      var k := 0;
      WokenNone(Now());
      assert ids[..0] == [];
      while k < |ids|
        invariant k <= |ids| && Shape(Now()) && running == old(running)
        invariant Now() == WokenUp(old(Now()), ids[..k])
      {
        assert ids[..k + 1][..k] == ids[..k] && ids[k] !in ids[..k];
        WokenOne(old(Now()), ids[..k + 1]);
        var context := blocked[ids[k]];
        InsertLast(context);
        blocked := blocked - {ids[k]};
        k := k + 1;
      }
      assert ids[..k] == ids;
      WokenGoLast(old(Now()), ids);
    }

    /** The loop that picks a thread: the oldest of the highest priority that has one. */
    method PickThread() returns (found: bool)
      requires Shape(Now()) && running.None?
      modifies this`contexts, this`running
      ensures Now() == Next(old(Now()), Pick)
      ensures found <==> exists p | 0 <= p < |old(contexts)| :: old(contexts)[p] != []
      ensures found ==>
                && running.Some? && exists p | 0 <= p < |old(contexts)| && old(contexts)[p] != [] ::
                     && running == Some(old(contexts)[p][0]) && contexts == old(contexts)[p := old(contexts)[p][1..]]
                     && forall j | p < j < |old(contexts)| :: old(contexts)[j] == []
    {
      var priority: nat := NUMBER_OF_CONTEXT_PRIORITIES;
      while priority != 0
        invariant priority <= |contexts| && contexts == old(contexts) && running.None?
        invariant TopBelow(contexts, priority) == TopBelow(contexts, |contexts|)
        invariant forall j | priority <= j < |contexts| :: contexts[j] == []
      {
        priority := priority - 1;
        var queue := contexts[priority];
        if queue != [] {
          running := Some(queue[0]);
          contexts := contexts[priority := queue[1..]];
          return true;
        }
      }
      return false;
    }
  }
}
