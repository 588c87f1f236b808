/** Calls as words of raw code, and what resolving them means: the code runs as before, exactly when no generic
    call without arguments can be reached. */
module CallCode {

  import opened Wrappers
  import opened Assembler
  import opened CallResolution

  // ---------- calls as words ----------

  /** The tables as they are in memory: names stand for pointers, and pointers for prototype continuations. */
  datatype Tables = Tables(globals: map<int, int>, bcodes: map<int, int>, protos: map<int, Proto>)

  predicate TablesOk(t: Tables) {
    forall id | id in t.globals :: t.globals[id] in t.protos
  }

  function NamesOf(t: Tables): Names
    requires TablesOk(t)
  {
    Names(map id | id in t.globals :: t.protos[t.globals[id]], t.bcodes)
  }

  /** What was bound is still bound to the same, and no prototype has moved. */
  ghost predicate Later(early: Tables, late: Tables) {
    && TablesOk(early) && TablesOk(late)
    && (forall id | id in early.globals :: id in late.globals && late.globals[id] == early.globals[id])
    && (forall id | id in early.bcodes :: id in late.bcodes && late.bcodes[id] == early.bcodes[id])
    && (forall a | a in early.protos :: a in late.protos && late.protos[a] == early.protos[a])
  }

  lemma LaterNames(early: Tables, late: Tables)
    requires Later(early, late)
    ensures Unchanged(NamesOf(early), NamesOf(late))
  {
  }

  /** The number of words of a call: opcode, whom to call, the number of arguments, where to return to. */
  function CallSize(op: nat): nat
    requires IsCall(op)
  {
    if IsTail(Decode(op).0) then 3 else 4
  }

  predicate CallShape(op: nat, args: seq<int>) {
    IsCall(op) && |args| + 1 == CallSize(op) && args[1] >= 0
  }

  function InsnOf(t: Tables, op: nat, args: seq<int>): CallInsn
    requires CallShape(op, args)
  {
    var f := Decode(op).0;
    CallInsn(op,
             if ToIsPtr(f) && args[0] in t.protos then ToProto(t.protos[args[0]]) else ToName(args[0]),
             args[1],
             if IsTail(f) then NoReturn else if NextIsPtr(f) then ReturnBcode(args[2]) else ReturnName(args[2]))
  }

  // ---------- a machine that runs calls ----------

  /** The registers, or nothing after an assertion has failed. */
  type Registers = Option<State>

  function Called(t: Tables, op: nat, args: seq<int>, r: Registers): Option<Frame>
    requires TablesOk(t)
  {
    if r.None? || !CallShape(op, args) then None else Exec(NamesOf(t), InsnOf(t, op, args), r.value)
  }

  function AfterCall(r: Registers, called: Option<Frame>): Registers {
    if r.None? || called.None? then None else Some(State(r.value.accu, [], called.value))
  }

  /** The size of a frame is in bits 12 to 23 of its header. */
  function FrameWords(called: Option<Frame>): nat {
    if called.None? then 0 else called.value.header / 0x1000 % 0x1000
  }

  function Pushed(r: Registers): Registers {
    if r.None? then None else Some(r.value.(stack := r.value.stack + [r.value.accu]))
  }

  /** The mnemonic of a call, without regard to a push. */
  predicate CallsMnemonic(k: nat) { IsCall(2 * k + 1) }

  ghost predicate RunsCalls(m: Machine<Registers>, t: Tables) {
    && TablesOk(t)
    && (forall k: nat | CallsMnemonic(k) :: !m.branches(k) && m.size(k) == CallSize(2 * k + 1))
    && (forall k: nat, args: seq<int>, r: Registers | CallsMnemonic(k) ::
          m.exec(k, args, r) == Leave(AfterCall(r, Called(t, 2 * k + 1, args, r))))
    && (forall k: nat, args: seq<int>, r: Registers | CallsMnemonic(k) ::
          m.spends(k, args, r) == FrameWords(Called(t, 2 * k + 1, args, r)))
    && (forall r: Registers :: m.push(r) == Pushed(r))
  }

  /** A pushing call is the call after a push. */
  lemma PushingCall(t: Tables, op: nat, args: seq<int>, r: Registers)
    requires TablesOk(t) && IsCall(op) && op % 2 == 0
    ensures CallsMnemonic(op / 2) && Called(t, op, args, r) == Called(t, op + 1, args, Pushed(r))
    ensures AfterCall(Pushed(r), Called(t, op, args, r)) == AfterCall(r, Called(t, op, args, r))
  {
    hide Exec;
    hide Decode, IsCall;
    NextOpcode(op);
    if r.Some? && CallShape(op, args) {
      PushingExec(NamesOf(t), InsnOf(t, op, args), r.value);
      assert InsnOf(t, op + 1, args) == InsnOf(t, op, args).(op := op + 1);
    }
  }

  lemma PushingExec(names: Names, x: CallInsn, s: State)
    requires IsCall(x.op) && x.op % 2 == 0
    ensures IsCall(x.op + 1) && Exec(names, x, s) == Exec(names, x.(op := x.op + 1), s.(stack := s.stack + [s.accu]))
  {
    hide Decode, IsCall, Args, Target, ReturnTo;
    NextOpcode(x.op);
  }

  /** Even opcodes push; the next one is the same call without the push. */
  lemma NextOpcode(op: nat)
    requires IsCall(op) && op % 2 == 0
    ensures op / 2 * 2 + 1 == op + 1 && IsCall(op + 1)
    ensures Decode(op).2 && Decode(op + 1) == (Decode(op).0, Decode(op).1, false)
  {
    var k := op / 2;
    assert op == 2 * k;
    assert (op - 1000) / 10 == (k - 500) / 5 == (op + 1 - 1000) / 10;
  }

  lemma CallIsDone(m: Machine<Registers>, t: Tables, op: nat, args: seq<int>, r: Registers)
    requires RunsCalls(m, t) && IsCall(op)
    ensures Do(m, op, args, r) == (Leave(AfterCall(r, Called(t, op, args, r))), FrameWords(Called(t, op, args, r)))
  {
    hide Called, AfterCall, FrameWords;
    var k := op / 2;
    if op % 2 == 0 {
      PushingCall(t, op, args, r);
      assert 2 * k + 1 == op + 1;
    } else {
      assert 2 * k + 1 == op && CallsMnemonic(k);
    }
  }

  // ---------- resolving the words ----------

  /** A call as the assembler emits it. */
  predicate IsGeneric(x: Insn) {
    x.Plain? && CallShape(x.op, x.args) && var (f, special, _) := Decode(x.op); special == 0 && (f.Call? || f.TailCall?)
  }

  /** The words of a call after one turn of the loop of `asm_resolve_ptrs`. */
  function ResolvedWords(t: Tables, x: Insn): Insn
    requires TablesOk(t)
  {
    if !IsGeneric(x) then x
    else
      var (f, _, pushes) := Decode(x.op);
      var toBound := x.args[0] in t.globals;
      var to := if toBound then t.globals[x.args[0]] else x.args[0];
      var arity: nat := x.args[1];
      if f.TailCall? then
        Plain(Specialized(Opcode(if toBound then TailCallTo else TailCall, 0, pushes), arity), [to, arity])
      else
        var nextBound := x.args[2] in t.bcodes;
        var next := if nextBound then t.bcodes[x.args[2]] else x.args[2];
        var g := if toBound && nextBound then CallToNext else if toBound then CallTo else if nextBound then CallNext else Call;
        Plain(Specialized(Opcode(g, 0, pushes), arity), [to, arity, next])
  }

  /** The words of a resolved call, written out: names that are bound have become pointers, and the opcode has gone
      ten on for a bound name of whom to call, twenty for one of where to return to, and on to the instruction for
      just so many arguments. */
  lemma ResolvedIs(t: Tables, x: Insn)
    requires TablesOk(t) && IsGeneric(x)
    ensures |x.args| == 2 || |x.args| == 3
    ensures var y := ResolvedWords(t, x);
            && y.Plain? && |y.args| == |x.args|
            && y.args[0] == (if x.args[0] in t.globals then t.globals[x.args[0]] else x.args[0]) && y.args[1] == x.args[1]
            && (|x.args| == 3 ==> y.args[2] == if x.args[2] in t.bcodes then t.bcodes[x.args[2]] else x.args[2])
            && y.op == x.op + (if x.args[0] in t.globals then 10 else 0)
                       + (if |x.args| == 3 && x.args[2] in t.bcodes then 20 else 0)
                       + (if x.args[1] <= 1 then 2 else if x.args[1] <= 4 then 2 * x.args[1] else 0)
  {
    OpcodeDecode(x.op);
    hide IsCall, Decode;
  }

  /** The words stand for the resolved instruction. */
  lemma ResolvedInsn(early: Tables, late: Tables, x: Insn)
    requires Later(early, late) && IsGeneric(x)
    ensures Generic(InsnOf(late, x.op, x.args)) && CallSize(x.op) == |x.args| + 1
    ensures var y := ResolvedWords(early, x);
            && y.Plain? && |y.args| == |x.args| && CallShape(y.op, y.args)
            && InsnOf(late, y.op, y.args) == Resolve(NamesOf(early), InsnOf(late, x.op, x.args))
  {
    var (f, _, pushes) := Decode(x.op);
    var c := InsnOf(late, x.op, x.args);
    hide Resolve, Specialized, Opcode, IsCall;
    ResolvedParts(NamesOf(early), c);
    var g := ResolvedFamily(NamesOf(early), f, c);
    SpecializedOpcode(g, c.arity, pushes);
    DecodeOpcode(g, Special(c.arity), pushes);
    hide Decode;
  }

  /** A call with arguments does the same before and after it is resolved, and allocates as much. */
  lemma ResolvedCallIsDone(m: Machine<Registers>, early: Tables, late: Tables, x: Insn, r: Registers)
    requires RunsCalls(m, late) && Later(early, late) && x.Plain? && (IsGeneric(x) ==> x.args[1] > 0)
    ensures var y := ResolvedWords(early, x); y.Plain? && Do(m, y.op, y.args, r) == Do(m, x.op, x.args, r)
  {
    hide Do, Exec, Resolve, InsnOf, Generic;
    if IsGeneric(x) {
      var y := ResolvedWords(early, x);
      ResolvedInsn(early, late, x);
      CallIsDone(m, late, x.op, x.args, r);
      CallIsDone(m, late, y.op, y.args, r);
      LaterNames(early, late);
      if r.Some? {
        ArityOf(late, x);
        ResolveKeepsMeaning(NamesOf(early), NamesOf(late), InsnOf(late, x.op, x.args), r.value);
      }
    }
  }

  lemma ArityOf(t: Tables, x: Insn)
    requires IsGeneric(x)
    ensures InsnOf(t, x.op, x.args).arity == x.args[1] && InsnOf(t, x.op, x.args).op == x.op
  {
  }

  // ---------- a whole sequence ----------

  /** The list with the calls before place `n` resolved. */
  function ResolvedUpTo(t: Tables, p: seq<Insn>, n: nat): (q: seq<Insn>)
    requires TablesOk(t)
    ensures |q| == |p| && forall i | 0 <= i < |p| :: q[i] == if i < n then ResolvedWords(t, p[i]) else p[i]
  {
    seq(|p|, i requires 0 <= i < |p| => if i < n then ResolvedWords(t, p[i]) else p[i])
  }

  /** From place `i` on no generic call without arguments can be reached, however branches decide; a call
      leaves the sequence. */
  predicate Harmless(p: seq<Insn>, i: nat)
    requires i <= |p|
    decreases |p| - i
  {
    i == |p| ||
    match p[i]
    case Label(_) => Harmless(p, i + 1)
    case Nop => Harmless(p, i + 1)
    case Plain(op, args) => if IsCall(op) then IsGeneric(p[i]) ==> args[1] > 0 else Harmless(p, i + 1)
    case Branch(_, target) => var to := Find(p, i + 1, target); Harmless(p, i + 1) && (to < |p| ==> Harmless(p, to))
    case BranchArg(_, _, target) => var to := Find(p, i + 1, target); Harmless(p, i + 1) && (to < |p| ==> Harmless(p, to))
  }

  lemma {:induction false} ResolvedFind(t: Tables, p: seq<Insn>, n: nat, i: nat, name: string)
    requires TablesOk(t) && i <= |p|
    ensures Find(ResolvedUpTo(t, p, n), i, name) == Find(p, i, name)
    decreases |p| - i
  {
    if i < |p| {
      assert ResolvedUpTo(t, p, n)[i] == if i < n then ResolvedWords(t, p[i]) else p[i];
      ResolvedFind(t, p, n, i + 1, name);
    }
  }

  /** The resolved list runs as the list does, from wherever in it. */
  lemma {:induction false} ResolvedRun(m: Machine<Registers>, early: Tables, late: Tables, p: seq<Insn>, i: nat, r: Registers)
    requires RunsCalls(m, late) && TablesOk(early) && Later(early, late) && i <= |p| && Harmless(p, i)
    ensures Run(m, ResolvedUpTo(early, p, |p|), i, r) == Run(m, p, i, r)
    decreases |p| - i
  {
    hide ResolvedUpTo, ResolvedWords, IsGeneric, RunsCalls, Later, Do;
    var q := ResolvedUpTo(early, p, |p|);
    if i == |p| {
      return;
    }
    assert q[i] == ResolvedWords(early, p[i]);
    OthersKept(early, p[i]);
    match p[i]
    case Label(_) => ResolvedRun(m, early, late, p, i + 1, r);
    case Nop => ResolvedRun(m, early, late, p, i + 1, r);
    case Plain(op, args) =>
      GenericIsCall(p[i]);
      ResolvedCallIsDone(m, early, late, p[i], r);
      var o := Do(m, op, args, r).0;
      if IsCall(op) {
        CallIsDone(m, late, op, args, r);
      }
      if o.Next? {
        ResolvedRun(m, early, late, p, i + 1, o.state);
      }
    case Branch(op, target) => ResolvedBranched(m, early, late, p, i, Do(m, op, [], r), target);
    case BranchArg(op, arg, target) => ResolvedBranched(m, early, late, p, i, Do(m, op, [arg], r), target);
  }

  lemma OthersKept(t: Tables, x: Insn)
    requires TablesOk(t)
    ensures if x.Plain? then ResolvedWords(t, x).Plain? && |ResolvedWords(t, x).args| == |x.args| else ResolvedWords(t, x) == x
  {
    if IsGeneric(x) {
      ResolvedInsn(t, t, x);
    }
  }

  lemma {:induction false} ResolvedBranched(m: Machine<Registers>, early: Tables, late: Tables, p: seq<Insn>, i: nat,
                                            done: (Outcome<Registers>, nat), target: string)
    requires RunsCalls(m, late) && TablesOk(early) && Later(early, late) && i < |p|
    requires var to := Find(p, i + 1, target); Harmless(p, i + 1) && (to < |p| ==> Harmless(p, to))
    ensures Branched(m, ResolvedUpTo(early, p, |p|), i, done, target) == Branched(m, p, i, done, target)
    decreases |p| - i, 0
  {
    hide ResolvedUpTo, ResolvedWords, IsGeneric, RunsCalls, Later, Run;
    var q := ResolvedUpTo(early, p, |p|);
    assert |q| == |p|;
    if done.0.Next? {
      ResolvedRun(m, early, late, p, i + 1, done.0.state);
    } else if done.0.Jump? {
      ResolvedFind(early, p, |p|, i + 1, target);
      var to := Find(p, i + 1, target);
      if to < |p| {
        ResolvedRun(m, early, late, p, to, done.0.state);
      }
    }
  }

  lemma ResolvedFits(m: Machine<Registers>, t: Tables, late: Tables, p: seq<Insn>, n: nat)
    requires RunsCalls(m, late) && TablesOk(t) && Fits(m, p) && Resolved(p)
    ensures Fits(m, ResolvedUpTo(t, p, n)) && Resolved(ResolvedUpTo(t, p, n))
  {
    hide RunsCalls, ResolvedWords, IsGeneric, Words;
    var q := ResolvedUpTo(t, p, n);
    forall i | 0 <= i < |q| ensures HasLabel(q, i) {
      OthersKept(t, p[i]);
      assert HasLabel(p, i);
      if q[i].Branch? || q[i].BranchArg? {
        ResolvedFind(t, p, n, i + 1, p[i].target);
      }
    }
    forall i | 0 <= i < |q| && TakesPush(q[i])
      ensures Words(q[i]) == m.size(q[i].op / 2) && (m.branches(q[i].op / 2) <==> !q[i].Plain?)
    {
      OthersKept(t, p[i]);
      if i < n {
        ResolvedSize(m, t, late, p[i]);
      }
    }
  }

  /** A resolved call is as long as the call. */
  lemma ResolvedSize(m: Machine<Registers>, t: Tables, late: Tables, x: Insn)
    requires RunsCalls(m, late) && TablesOk(t)
    ensures var y := ResolvedWords(t, x);
            && Words(y) == Words(x) && (TakesPush(y) <==> TakesPush(x))
            && (TakesPush(x) ==> m.size(y.op / 2) == m.size(x.op / 2) && (m.branches(y.op / 2) <==> m.branches(x.op / 2)))
  {
    hide ResolvedWords, Decode, IsCall, InsnOf, Resolve, Generic, NamesOf;
    OthersKept(t, x);
    if IsGeneric(x) {
      ResolvedInsn(t, t, x);
      MnemonicOf(ResolvedWords(t, x).op);
      MnemonicOf(x.op);
    } else {
      NotGeneric(t, x);
    }
  }

  lemma NotGeneric(t: Tables, x: Insn)
    requires TablesOk(t) && !IsGeneric(x)
    ensures ResolvedWords(t, x) == x
  {
  }

  lemma MnemonicOf(op: nat)
    requires IsCall(op)
    ensures CallsMnemonic(op / 2) && CallSize(2 * (op / 2) + 1) == CallSize(op)
  {
  }

  /** Resolved raw code runs as the raw code did, whatever else has been bound in the meantime, if no generic
      call without arguments can be reached. */
  lemma ResolvedCodeMeansTheSame(m: Machine<Registers>, early: Tables, late: Tables, p: seq<Insn>, r: Registers)
    requires RunsCalls(m, late) && TablesOk(early) && Later(early, late) && Harmless(p, 0) && Fits(m, p) && Resolved(p)
    ensures RunRaw(m, Raw(ResolvedUpTo(early, p, |p|)), 0, r) == RunRaw(m, Raw(p), 0, r)
  {
    hide RunRaw, Run, Raw, ResolvedUpTo, Fits, RunsCalls, Later;
    ResolvedFits(m, early, late, p, |p|);
    ResolvedRun(m, early, late, p, 0, r);
    LayoutKeepsMeaning(m, p, 0, r);
    LayoutKeepsMeaning(m, ResolvedUpTo(early, p, |p|), 0, r);
  }

  // ---------- and exactly then ----------

  /** What a branch does when the accumulator decides: its lowest bit says whether to jump, the rest is kept. */
  function Decided(r: Registers): Outcome<Registers> {
    if r.None? then Next(r)
    else
      var t := Some(State(r.value.accu / 2, r.value.stack, r.value.frame));
      if r.value.accu % 2 == 1 then Jump(t) else Next(t)
  }

  /** A machine whose branches the accumulator decides, and which does nothing else but push and call. */
  function Deciding(m: Machine<Registers>, t: Tables): Machine<Registers>
    requires TablesOk(t)
  {
    Machine(m.size, m.branches,
            (k, args, r) => if CallsMnemonic(k) then Leave(AfterCall(r, Called(t, 2 * k + 1, args, r)))
                            else if k == PUSH then Next(Pushed(r))
                            else if m.branches(k) then Decided(r) else Next(r),
            (k, args, r) => if CallsMnemonic(k) then FrameWords(Called(t, 2 * k + 1, args, r)) else 0,
            k => 0x1000, r => Pushed(r))
  }

  lemma DecidingParts(m: Machine<Registers>, t: Tables)
    requires TablesOk(t)
    ensures var n := Deciding(m, t);
            && n.size == m.size && n.branches == m.branches
            && (forall r :: n.push(r) == Pushed(r)) && (forall k: nat :: n.declared(k) == 0x1000)
            && (forall k: nat, args: seq<int>, r: Registers ::
                  n.exec(k, args, r) == if CallsMnemonic(k) then Leave(AfterCall(r, Called(t, 2 * k + 1, args, r)))
                                        else if k == PUSH then Next(Pushed(r))
                                        else if m.branches(k) then Decided(r) else Next(r))
            && (forall k: nat, args: seq<int>, r: Registers ::
                  n.spends(k, args, r) == if CallsMnemonic(k) then FrameWords(Called(t, 2 * k + 1, args, r)) else 0)
  {
    hide Called, AfterCall, Pushed, Decided, FrameWords, CallsMnemonic;
  }

  lemma FrameIsSmall(called: Option<Frame>)
    ensures FrameWords(called) <= 0x1000
  {
  }

  lemma DecidingIsMachine(m: Machine<Registers>, early: Tables, late: Tables, p: seq<Insn>)
    requires IsMachine(m) && RunsCalls(m, early) && TablesOk(late) && Fits(m, p)
    ensures IsMachine(Deciding(m, late)) && RunsCalls(Deciding(m, late), late) && Fits(Deciding(m, late), p)
  {
    hide Called, AfterCall, Pushed, Decided, FrameWords, Deciding, Fits, Words;
    DecidingParts(m, late);
    var n := Deciding(m, late);
    assert !CallsMnemonic(PUSH);
    forall k: nat, args: seq<int>, r: Registers ensures n.spends(k, args, r) <= n.declared(k) {
      FrameIsSmall(Called(late, 2 * k + 1, args, r));
    }
    SameFits(m, n, p);
  }

  lemma SameFits(m: Machine<Registers>, n: Machine<Registers>, p: seq<Insn>)
    requires Fits(m, p) && n.size == m.size && n.branches == m.branches
    ensures Fits(n, p)
  {
  }

  lemma BranchIsNoCall(m: Machine<Registers>, t: Tables, p: seq<Insn>, i: nat)
    requires IsMachine(m) && RunsCalls(m, t) && Fits(m, p) && i < |p| && TakesPush(p[i])
    ensures !p[i].Plain? ==> !IsCall(p[i].op) && m.branches(p[i].op / 2) && p[i].op / 2 != PUSH
    ensures p[i].Plain? ==> !m.branches(p[i].op / 2)
  {
    if IsCall(p[i].op) {
      MnemonicOf(p[i].op);
    }
  }

  lemma GenericIsCall(x: Insn)
    ensures IsGeneric(x) ==> x.Plain? && IsCall(x.op)
  {
  }

  /** The accumulator that leads from place `i` to a generic call without arguments. */
  function Steer(p: seq<Insn>, i: nat): nat
    requires i <= |p| && !Harmless(p, i)
    decreases |p| - i
  {
    match p[i]
    case Label(_) => Steer(p, i + 1)
    case Nop => Steer(p, i + 1)
    case Plain(op, _) => if IsCall(op) then 0 else Steer(p, i + 1)
    case Branch(_, target) =>
      if !Harmless(p, i + 1) then 2 * Steer(p, i + 1) else 2 * Steer(p, Find(p, i + 1, target)) + 1
    case BranchArg(_, _, target) =>
      if !Harmless(p, i + 1) then 2 * Steer(p, i + 1) else 2 * Steer(p, Find(p, i + 1, target)) + 1
  }

  /** The place of that call. */
  function Reached(p: seq<Insn>, i: nat): (j: nat)
    requires i <= |p| && !Harmless(p, i)
    ensures i <= j < |p| && IsGeneric(p[j]) && p[j].args[1] == 0
    decreases |p| - i
  {
    match p[i]
    case Label(_) => Reached(p, i + 1)
    case Nop => Reached(p, i + 1)
    case Plain(op, _) => if IsCall(op) then i else Reached(p, i + 1)
    case Branch(_, target) => if !Harmless(p, i + 1) then Reached(p, i + 1) else Reached(p, Find(p, i + 1, target))
    case BranchArg(_, _, target) => if !Harmless(p, i + 1) then Reached(p, i + 1) else Reached(p, Find(p, i + 1, target))
  }

  /** The tables with the names of a call bound. */
  function AlsoBound(t: Tables, x: Insn): (late: Tables)
    requires TablesOk(t) && IsGeneric(x)
    ensures Later(t, late) && x.args[0] in late.globals && (|x.args| > 2 ==> x.args[2] in late.bcodes)
  {
    var protos := if 0 in t.protos then t.protos else t.protos[0 := Proto(0, 0)];
    Tables(if x.args[0] in t.globals then t.globals else t.globals[x.args[0] := 0],
           if |x.args| > 2 && x.args[2] !in t.bcodes then t.bcodes[x.args[2] := 0] else t.bcodes,
           protos)
  }

  /** The unresolved call ends in a failed assertion, and the resolved one in a frame. */
  lemma CallTells(m: Machine<Registers>, early: Tables, late: Tables, x: Insn, s: State)
    requires RunsCalls(m, late) && Later(early, late) && IsGeneric(x) && x.args[1] == 0
    requires x.args[0] in late.globals && (|x.args| > 2 ==> x.args[2] in late.bcodes)
    ensures var y := ResolvedWords(early, x);
            && y.Plain?
            && Do(m, x.op, x.args, Some(s)).0 == Leave(None)
            && var o := Do(m, y.op, y.args, Some(s)).0; o.Leave? && o.state.Some?
  {
    hide Do, Exec, Resolve, Generic, Decode, IsCall, RunsCalls;
    var y := ResolvedWords(early, x);
    ResolvedInsn(early, late, x);
    CallIsDone(m, late, x.op, x.args, Some(s));
    CallIsDone(m, late, y.op, y.args, Some(s));
    LaterNames(early, late);
    ArityOf(late, x);
    WithoutArguments(NamesOf(early), NamesOf(late), InsnOf(late, x.op, x.args), s);
  }

  predicate LeftWith(e: End<Registers>, working: bool) {
    e.Left? && e.state.Some? == working
  }

  lemma {:induction false} DecidingTells(m: Machine<Registers>, early: Tables, late: Tables, p: seq<Insn>, i: nat, s: State)
    requires TablesOk(early) && TablesOk(late) && Later(early, late) && i <= |p| && !Harmless(p, i) && s.accu == Steer(p, i)
    requires IsMachine(m) && RunsCalls(m, early) && RunsCalls(Deciding(m, late), late) && Fits(m, p)
    requires late == AlsoBound(early, p[Reached(p, i)])
    ensures var n := Deciding(m, late);
            && LeftWith(Run(n, p, i, Some(s)), false)
            && LeftWith(Run(n, ResolvedUpTo(early, p, |p|), i, Some(s)), true)
    decreases |p| - i
  {
    hide ResolvedUpTo, ResolvedWords, IsGeneric, RunsCalls, Later, AlsoBound, Called, IsMachine, Fits, Deciding, Do;
    var n, q := Deciding(m, late), ResolvedUpTo(early, p, |p|);
    assert q[i] == ResolvedWords(early, p[i]);
    OthersKept(early, p[i]);
    if TakesPush(p[i]) {
      BranchIsNoCall(m, early, p, i);
    }
    match p[i]
    case Label(_) => DecidingTells(m, early, late, p, i + 1, s);
    case Nop => DecidingTells(m, early, late, p, i + 1, s);
    case Plain(op, args) =>
      if IsCall(op) {
        CallTells(n, early, late, p[i], s);
      } else {
        NotACall(early, p[i]);
        PlainGoesOn(m, late, op, args, s);
        var t := Do(n, op, args, Some(s)).0.state;
        DecidingTells(m, early, late, p, i + 1, t.value);
      }
    case Branch(op, target) =>
      BranchDecided(m, late, op, [], s);
      ResolvedFind(early, p, |p|, i + 1, target);
      var t := Do(n, op, [], Some(s)).0.state;
      DecidingTells(m, early, late, p, if !Harmless(p, i + 1) then i + 1 else Find(p, i + 1, target), t.value);
    case BranchArg(op, arg, target) =>
      BranchDecided(m, late, op, [arg], s);
      ResolvedFind(early, p, |p|, i + 1, target);
      var t := Do(n, op, [arg], Some(s)).0.state;
      DecidingTells(m, early, late, p, if !Harmless(p, i + 1) then i + 1 else Find(p, i + 1, target), t.value);
  }

  /** The resolved code does the same as the code on every machine, after whatever has been bound since, exactly
      when no generic call without arguments can be reached. */
  lemma ResolvingIsRightIff(m: Machine<Registers>, early: Tables, p: seq<Insn>)
    requires IsMachine(m) && RunsCalls(m, early) && Fits(m, p) && Resolved(p)
    ensures Harmless(p, 0) <==>
            forall n: Machine<Registers>, late: Tables, r: Registers ::
              IsMachine(n) && RunsCalls(n, late) && Later(early, late) && Fits(n, p) ==>
                RunRaw(n, Raw(ResolvedUpTo(early, p, |p|)), 0, r) == RunRaw(n, Raw(p), 0, r)
  {
    hide RunRaw, Run, Raw, ResolvedUpTo, Fits, RunsCalls, Later, IsMachine, Harmless, AlsoBound, Deciding, Resolved;
    CallsAreOk(m, early, early);
    if Harmless(p, 0) {
      forall n: Machine<Registers>, late: Tables, r: Registers
        | IsMachine(n) && RunsCalls(n, late) && Later(early, late) && Fits(n, p)
        ensures RunRaw(n, Raw(ResolvedUpTo(early, p, |p|)), 0, r) == RunRaw(n, Raw(p), 0, r)
      {
        CallsAreOk(n, early, late);
        ResolvedCodeMeansTheSame(n, early, late, p, r);
      }
    } else {
      DecidingRawTells(m, early, p);
    }
  }

  lemma CallsAreOk(m: Machine<Registers>, early: Tables, late: Tables)
    requires RunsCalls(m, late)
    ensures TablesOk(late) && (Later(early, late) ==> TablesOk(early))
  {
  }

  lemma DecidingRawTells(m: Machine<Registers>, early: Tables, p: seq<Insn>)
    requires IsMachine(m) && RunsCalls(m, early) && TablesOk(early) && Fits(m, p) && Resolved(p) && !Harmless(p, 0)
    ensures var late := AlsoBound(early, p[Reached(p, 0)]);
            var n, r: Registers := Deciding(m, late), Some(State(Steer(p, 0), [], Frame(0, 0, None, [])));
            && IsMachine(n) && RunsCalls(n, late) && Later(early, late) && Fits(n, p)
            && RunRaw(n, Raw(ResolvedUpTo(early, p, |p|)), 0, r) != RunRaw(n, Raw(p), 0, r)
  {
    hide RunRaw, Run, Raw, ResolvedUpTo, Fits, RunsCalls, Later, IsMachine, Harmless, AlsoBound, Deciding, Resolved;
    var late := AlsoBound(early, p[Reached(p, 0)]);
    CallsAreOk(m, early, early);
    LaterIsOk(early, late);
    DecidingIsMachine(m, early, late, p);
    var n, s := Deciding(m, late), State(Steer(p, 0), [], Frame(0, 0, None, []));
    DecidingTells(m, early, late, p, 0, s);
    ResolvedFits(n, early, late, p, |p|);
    LayoutKeepsMeaning(n, p, 0, Some(s));
    LayoutKeepsMeaning(n, ResolvedUpTo(early, p, |p|), 0, Some(s));
  }

  lemma LaterIsOk(early: Tables, late: Tables)
    requires Later(early, late)
    ensures TablesOk(late)
  {
  }

  lemma NotACall(t: Tables, x: Insn)
    requires TablesOk(t) && x.Plain? && !IsCall(x.op)
    ensures ResolvedWords(t, x) == x
  {
  }

  lemma PlainGoesOn(m: Machine<Registers>, t: Tables, op: nat, args: seq<int>, s: State)
    requires TablesOk(t) && !IsCall(op) && !m.branches(op / 2)
    ensures var (o, spent) := Do(Deciding(m, t), op, args, Some(s));
            o.Next? && spent == 0 && o.state.Some? && o.state.value.accu == s.accu
  {
  }

  lemma BranchDecided(m: Machine<Registers>, t: Tables, op: nat, args: seq<int>, s: State)
    requires TablesOk(t) && !IsCall(op) && m.branches(op / 2) && op / 2 != PUSH && s.accu >= 0
    ensures var (o, spent) := Do(Deciding(m, t), op, args, Some(s));
            && spent == 0 && (if s.accu % 2 == 1 then o.Jump? else o.Next?)
            && o.state.Some? && o.state.value.accu == s.accu / 2
  {
    var k := op / 2;
    assert !CallsMnemonic(k);
    var r: Registers := if op % 2 == 0 then Pushed(Some(s)) else Some(s);
    assert r.Some? && r.value.accu == s.accu;
    assert Deciding(m, t).exec(k, args, r) == Decided(r);
  }
}
