/** The end of an assembly (asm.c) and the sum taken when byte code is loaded (interp.c): push-melding,
    layout and forward labels keep the meaning of a byte-code sequence and bound what it allocates. */
module Assembler {

  // ---------- instructions and machines ----------

  /** The assembler's list.  The first of `words` is the opcode: 2k + 1 for mnemonic k, and 2k for the
      variant of it that pushes the accumulator first. */
  datatype Insn =
    | Label(name: string)
    | Branch(op: nat, target: string)
    | BranchArg(op: nat, arg: int, target: string)
    | Plain(op: nat, args: seq<int>)
    | Nop

  /** What an instruction does: go on, go to its label, or leave the sequence. */
  datatype Outcome<S> = Next(state: S) | Jump(state: S) | Leave(state: S)

  /** The interpreter's side: how long each instruction is and whether its last word is a label, what it
      does given its other words, how much it allocates, and how much is declared for it. */
  datatype Machine<!S> = Machine(
    size: nat -> nat, branches: nat -> bool, exec: (nat, seq<int>, S) -> Outcome<S>,
    spends: (nat, seq<int>, S) -> nat, declared: nat -> nat, push: S -> S)

  /** The mnemonic `push`. */
  const PUSH: nat := 0
  const PUSH_OP: nat := 2 * PUSH + 1

  ghost predicate IsMachine<S(!new)>(m: Machine<S>) {
    && m.size(PUSH) == 1 && !m.branches(PUSH)
    && (forall s: S :: m.exec(PUSH, [], s) == Next(m.push(s)) && m.spends(PUSH, [], s) == 0)
    && (forall k: nat, args: seq<int>, s: S :: m.spends(k, args, s) <= m.declared(k))
    && (forall k: nat :: m.size(k) >= if m.branches(k) then 2 else 1)
  }

  /** The effect and the cost of one instruction word, pushing first if the opcode is even. */
  function Do<S>(m: Machine<S>, op: nat, args: seq<int>, s: S): (Outcome<S>, nat) {
    var t := if op % 2 == 0 then m.push(s) else s;
    (m.exec(op / 2, args, t), m.spends(op / 2, args, t))
  }

  /** How a sequence ends, and what it has allocated. */
  datatype End<S> = Left(state: S, spent: nat) | FellOff(state: S, spent: nat) | Stuck

  function Spending<S>(e: End<S>, more: nat): End<S> {
    match e
    case Left(s, n) => Left(s, n + more)
    case FellOff(s, n) => FellOff(s, n + more)
    case Stuck => Stuck
  }

  // ---------- the meaning of the list ----------

  /** The first label of that name from place `i` on. */
  function Find(p: seq<Insn>, i: nat, name: string): (t: nat)
    requires i <= |p|
    ensures i <= t <= |p| && (t < |p| ==> p[t] == Label(name))
    decreases |p| - i
  {
    if i == |p| then i else if p[i] == Label(name) then i else Find(p, i + 1, name)
  }

  /** It is the first: what lies between is no such label. */
  lemma {:induction false} FindIsFirst(p: seq<Insn>, i: nat, name: string)
    requires i <= |p|
    ensures forall j | i <= j < Find(p, i, name) :: p[j] != Label(name)
    decreases |p| - i
  {
    if i < |p| && p[i] != Label(name) {
      FindIsFirst(p, i + 1, name);
    }
  }

  function Run<S>(m: Machine<S>, p: seq<Insn>, i: nat, s: S): End<S>
    requires i <= |p|
    decreases |p| - i
  {
    if i == |p| then FellOff(s, 0)
    else match p[i]
      case Label(_) => Run(m, p, i + 1, s)
      case Nop => Run(m, p, i + 1, s)
      case Plain(op, args) => PlainDone(m, p, i, Do(m, op, args, s))
      case Branch(op, target) => Branched(m, p, i, Do(m, op, [], s), target)
      case BranchArg(op, arg, target) => Branched(m, p, i, Do(m, op, [arg], s), target)
  }

  function PlainDone<S>(m: Machine<S>, p: seq<Insn>, i: nat, done: (Outcome<S>, nat)): End<S>
    requires i < |p|
    decreases |p| - i, 0
  {
    match done.0
    case Next(t) => Spending(Run(m, p, i + 1, t), done.1)
    case Jump(_) => Stuck
    case Leave(t) => Left(t, done.1)
  }

  function Branched<S>(m: Machine<S>, p: seq<Insn>, i: nat, done: (Outcome<S>, nat), target: string): End<S>
    requires i < |p|
    decreases |p| - i, 0
  {
    match done.0
    case Next(t) => Spending(Run(m, p, i + 1, t), done.1)
    case Jump(t) =>
      var to := Find(p, i + 1, target);
      if to == |p| then Stuck else Spending(Run(m, p, to, t), done.1)
    case Leave(t) => Left(t, done.1)
  }

  /** A branch that is taken goes on at the nearest label of its name further on, whatever other labels lie
      between, and gets stuck where there is none; one that is not taken goes on behind itself. */
  lemma BranchGoesToLabel<S>(m: Machine<S>, p: seq<Insn>, i: nat, s: S)
    requires i < |p| && (p[i].Branch? || p[i].BranchArg?)
    ensures var t := if p[i].op % 2 == 0 then m.push(s) else s;
            var args := if p[i].Branch? then [] else [p[i].arg];
            var end, words := m.exec(p[i].op / 2, args, t), m.spends(p[i].op / 2, args, t);
            && (end.Next? ==> Run(m, p, i, s) == Spending(Run(m, p, i + 1, end.state), words))
            && (end.Jump? ==>
                  if forall j | i < j < |p| :: p[j] != Label(p[i].target) then Run(m, p, i, s) == Stuck
                  else exists j | i < j < |p| && p[j] == Label(p[i].target) ::
                         (forall k | i < k < j :: p[k] != Label(p[i].target))
                         && Run(m, p, i, s) == Spending(Run(m, p, j, end.state), words))
  {
    FindIsFirst(p, i + 1, p[i].target);
    var j := Find(p, i + 1, p[i].target);
    assert j < |p| ==> p[j] == Label(p[i].target);
  }

  // ---------- push-melding ----------

  predicate IsPush(x: Insn) { x.Plain? && x.op == PUSH_OP }

  predicate TakesPush(x: Insn) { x.Plain? || x.Branch? || x.BranchArg? }

  /** The push before place `i` is melded into the instruction there. */
  predicate Melded(p: seq<Insn>, i: nat)
    requires i <= |p|
  {
    0 < i < |p| && IsPush(p[i - 1]) && !Melded(p, i - 1) && TakesPush(p[i])
  }

  /** `u.insn.word[0]--`.  For a plain instruction that is the opcode; in a branch the same place holds the
      pointer to the label, or the argument. */
  function Decremented(x: Insn, shorten: string -> string): Insn {
    match x
    case Plain(op, args) => Plain(if op > 0 then op - 1 else 0, args)
    case Branch(op, target) => Branch(op, shorten(target))
    case BranchArg(op, arg, target) => BranchArg(op, arg - 1, target)
    case _ => x
  }

  function MeldedAt(p: seq<Insn>, i: nat, shorten: string -> string): Insn
    requires i < |p|
  {
    if Melded(p, i + 1) then Nop
    else if Melded(p, i) then Decremented(p[i], shorten) else p[i]
  }

  function Meld(p: seq<Insn>, shorten: string -> string): (q: seq<Insn>)
    ensures |q| == |p| && forall i | 0 <= i < |p| :: q[i] == MeldedAt(p, i, shorten)
  {
    seq(|p|, i requires 0 <= i < |p| => MeldedAt(p, i, shorten))
  }

  /** Opcodes as the assembler makes them: of plain variants, so odd. */
  predicate Fresh(p: seq<Insn>) {
    forall i | 0 <= i < |p| && TakesPush(p[i]) :: p[i].op % 2 == 1 && (IsPush(p[i]) ==> p[i].args == [])
  }

  /** The peephole loop, rewriting the list as it goes. */
  method MeldLoop(p0: seq<Insn>, shorten: string -> string) returns (p: seq<Insn>)
    requires Fresh(p0)
    ensures p == Meld(p0, shorten)
  {
    p := p0;
    var i := 0;
    while i < |p|
      invariant i <= |p| == |p0|
      invariant forall j | 0 <= j < i :: p[j] == MeldedAt(p0, j, shorten)
      invariant i < |p| ==> p[i] == if Melded(p0, i) then Decremented(p0[i], shorten) else p0[i]
      invariant forall j | i < j < |p| :: p[j] == p0[j]
    {
      if IsPush(p[i]) && i + 1 < |p| && TakesPush(p[i + 1]) {
        p := p[i := Nop][i + 1 := Decremented(p[i + 1], shorten)];
      }
      i := i + 1;
    }
  }

  /** A push is melded into what follows it; of a row of pushes every second one is, from the left. */
  lemma {:induction false} PairsFromLeft(p: seq<Insn>, a: nat, k: nat)
    requires a <= k < |p| && (a == 0 || !IsPush(p[a - 1])) && (forall j | a <= j < k :: IsPush(p[j])) && TakesPush(p[k])
    ensures Melded(p, k) <==> (k - a) % 2 == 1
    decreases k
  {
    if k > a {
      PairsFromLeft(p, a, k - 1);
      assert (k - a) % 2 == 1 - (k - 1 - a) % 2;
    }
  }

  /** The melded list, written out: such a push is gone, the plain instruction behind it is the pushing variant,
      and nothing else is changed. */
  lemma MeldIs(p: seq<Insn>, shorten: string -> string, i: nat)
    requires Fresh(p) && i < |p|
    ensures var q := Meld(p, shorten);
            && |q| == |p|
            && (Melded(p, i) ==> i > 0 && IsPush(p[i - 1]) && q[i - 1] == Nop)
            && (Melded(p, i) && p[i].Plain? && !Melded(p, i + 1) ==> q[i] == Plain(p[i].op - 1, p[i].args) && q[i].op == 2 * (p[i].op / 2))
            && (Melded(p, i) && p[i].Branch? ==> q[i] == Branch(p[i].op, shorten(p[i].target)))
            && (Melded(p, i) && p[i].BranchArg? ==> q[i] == BranchArg(p[i].op, p[i].arg - 1, p[i].target))
            && (!Melded(p, i) && !Melded(p, i + 1) ==> q[i] == p[i])
  {
    assert p[i].Plain? ==> TakesPush(p[i]);
  }

  /** No push is melded into a branch. */
  predicate BranchesSpared(p: seq<Insn>) {
    forall i | 0 <= i < |p| && Melded(p, i) :: p[i].Plain?
  }

  lemma {:induction false} MeldedFind(p: seq<Insn>, shorten: string -> string, i: nat, name: string)
    requires i <= |p|
    ensures Find(Meld(p, shorten), i, name) == Find(p, i, name)
    decreases |p| - i
  {
    if i < |p| {
      assert Meld(p, shorten)[i] == MeldedAt(p, i, shorten);
      MeldedFind(p, shorten, i + 1, name);
    }
  }

  /** From any place that is not melded into, and labels never are, the melded list means the same. */
  lemma {:induction false} MeldKeepsMeaning<S(!new)>(m: Machine<S>, p: seq<Insn>, shorten: string -> string, i: nat, s: S)
    requires IsMachine(m) && Fresh(p) && BranchesSpared(p) && i <= |p| && !Melded(p, i)
    ensures Run(m, Meld(p, shorten), i, s) == Run(m, p, i, s)
    decreases |p| - i
  {
    hide Meld;
    var q := Meld(p, shorten);
    assert |q| == |p|;
    if i == |p| {
      return;
    }
    assert q[i] == MeldedAt(p, i, shorten);
    if Melded(p, i + 1) {
      assert q[i + 1] == MeldedAt(p, i + 1, shorten);
      PushThenPlain(m, p, q, shorten, i, s);
      var (o, n) := Do(m, p[i + 1].op, p[i + 1].args, m.push(s));
      if o.Next? {
        MeldKeepsMeaning(m, p, shorten, i + 2, o.state);
      }
      return;
    }
    match p[i]
    case Label(_) => MeldKeepsMeaning(m, p, shorten, i + 1, s);
    case Nop => MeldKeepsMeaning(m, p, shorten, i + 1, s);
    case Plain(op, args) =>
      var (o, n) := Do(m, op, args, s);
      if o.Next? {
        MeldKeepsMeaning(m, p, shorten, i + 1, o.state);
      }
    case Branch(op, target) =>
      BranchedAlike(m, p, shorten, i, Do(m, op, [], s), target);
    case BranchArg(op, arg, target) =>
      BranchedAlike(m, p, shorten, i, Do(m, op, [arg], s), target);
  }

  lemma {:induction false} BranchedAlike<S(!new)>(
    m: Machine<S>, p: seq<Insn>, shorten: string -> string, i: nat, done: (Outcome<S>, nat), target: string)
    requires IsMachine(m) && Fresh(p) && BranchesSpared(p) && i < |p| && !Melded(p, i + 1)
    ensures Branched(m, Meld(p, shorten), i, done, target) == Branched(m, p, i, done, target)
    decreases |p| - i, 0
  {
    hide Meld;
    var q := Meld(p, shorten);
    assert |q| == |p|;
    if done.0.Next? {
      MeldKeepsMeaning(m, p, shorten, i + 1, done.0.state);
    } else if done.0.Jump? {
      MeldedFind(p, shorten, i + 1, target);
      var to := Find(p, i + 1, target);
      if to < |p| {
        MeldKeepsMeaning(m, p, shorten, to, done.0.state);
      }
    }
  }

  /** A push and a plain instruction, apart and melded. */
  lemma PushThenPlain<S(!new)>(m: Machine<S>, p: seq<Insn>, q: seq<Insn>, shorten: string -> string, i: nat, s: S)
    requires IsMachine(m) && Fresh(p) && |q| == |p| && i + 1 < |p| && IsPush(p[i]) && p[i + 1].Plain?
    requires q[i] == Nop && q[i + 1] == Decremented(p[i + 1], shorten)
    ensures var done := Do(m, p[i + 1].op, p[i + 1].args, m.push(s));
            Run(m, p, i, s) == PlainDone(m, p, i + 1, done) && Run(m, q, i, s) == PlainDone(m, q, i + 1, done)
  {
    assert Do(m, p[i].op, p[i].args, s) == (Next(m.push(s)), 0);
    assert Do(m, q[i + 1].op, q[i + 1].args, s) == Do(m, p[i + 1].op, p[i + 1].args, m.push(s));
    assert Run(m, p, i, s) == Spending(Run(m, p, i + 1, m.push(s)), 0);
    assert Run(m, q, i, s) == Run(m, q, i + 1, s);
  }

  /** A push melded into a branch is lost, and with it the label: where the list jumps, the melded one
      has no label to jump to. */
  lemma MeldIntoBranchFails<S(!new)>(m: Machine<S>, op: nat, name: string, shorten: string -> string, s: S, t: S, u: S)
    requires IsMachine(m) && op % 2 == 1 && shorten(name) != name
    requires m.exec(op / 2, [], m.push(s)) == Jump(t) && m.exec(op / 2, [], s) == Jump(u)
    ensures var p := [Plain(PUSH_OP, []), Branch(op, name), Label(name)];
            && Fresh(p) && Run(m, p, 0, s) == FellOff(t, m.spends(op / 2, [], m.push(s)))
            && Run(m, Meld(p, shorten), 0, s) == Stuck
  {
    var p := [Plain(PUSH_OP, []), Branch(op, name), Label(name)];
    var q := Meld(p, shorten);
    assert !IsPush(p[1]) && !Melded(p, 0) && Melded(p, 1) && !Melded(p, 2);
    assert q == [Nop, Branch(op, shorten(name)), Label(name)];
    assert Do(m, PUSH_OP, [], s) == (Next(m.push(s)), 0);
    assert Find(p, 2, name) == 2 && Find(q, 2, shorten(name)) == 3;
    assert Run(m, p, 3, t) == FellOff(t, 0) && Run(m, p, 2, t) == FellOff(t, 0);
    assert Run(m, p, 1, m.push(s)) == Branched(m, p, 1, Do(m, op, [], m.push(s)), name);
    assert Run(m, q, 1, s) == Branched(m, q, 1, Do(m, op, [], s), shorten(name)) == Stuck;
  }

  // ---------- exactly when melding is right ----------

  /** How often the accumulator is pushed by the instructions from place `i` on. */
  function Pushes(p: seq<Insn>, i: nat): nat
    requires i <= |p|
    decreases |p| - i
  {
    if i == |p| then 0
    else Pushes(p, i + 1)
         + (if TakesPush(p[i]) && p[i].op % 2 == 0 then 1 else 0) + (if TakesPush(p[i]) && p[i].op / 2 == PUSH then 1 else 0)
  }

  /** How many pushes are melded into branches from place `i` on. */
  function Lost(p: seq<Insn>, i: nat): nat
    requires i <= |p|
    decreases |p| - i
  {
    if i == |p| then 0 else Lost(p, i + 1) + if Melded(p, i) && !p[i].Plain? then 1 else 0
  }

  /** A machine that only counts pushes and never jumps, with the sizes and branches of another. */
  function Counting(m: Machine<int>): Machine<int> {
    Machine(m.size, m.branches, (k, args, s) => Next(if k == PUSH then s + 1 else s), (k, args, s) => 0, k => 0, s => s + 1)
  }

  lemma {:induction false} CountingRun(m: Machine<int>, p: seq<Insn>, i: nat, s: int)
    requires i <= |p|
    ensures Run(Counting(m), p, i, s) == FellOff(s + Pushes(p, i), 0)
    decreases |p| - i
  {
    if i < |p| {
      var t := if TakesPush(p[i]) && p[i].op % 2 == 0 then s + 1 else s;
      CountingRun(m, p, i + 1, if TakesPush(p[i]) && p[i].op / 2 == PUSH then t + 1 else t);
    }
  }

  /** Melding loses exactly the pushes that it melds into branches. */
  lemma {:induction false} MeldedPushes(p: seq<Insn>, shorten: string -> string, i: nat)
    requires Fresh(p) && i <= |p|
    ensures Pushes(Meld(p, shorten), i) + Lost(p, i) == Pushes(p, i) + if Melded(p, i) then 1 else 0
    decreases |p| - i
  {
    if i < |p| {
      assert Meld(p, shorten)[i] == MeldedAt(p, i, shorten);
      MeldedPushes(p, shorten, i + 1);
    }
  }

  lemma {:induction false} SomethingIsLost(p: seq<Insn>, i: nat, j: nat)
    requires i <= j < |p| && Melded(p, j) && !p[j].Plain?
    ensures Lost(p, i) > 0
    decreases j - i
  {
    if i < j {
      SomethingIsLost(p, i + 1, j);
    }
  }

  /** When a push has been melded into a branch there is a machine that can tell. */
  lemma CountingCanTell(m: Machine<int>, p: seq<Insn>, shorten: string -> string, s: int)
    requires IsMachine(m) && Fits(m, p) && Fresh(p) && !BranchesSpared(p)
    ensures IsMachine(Counting(m)) && Fits(Counting(m), p)
    ensures Run(Counting(m), Meld(p, shorten), 0, s) != Run(Counting(m), p, 0, s)
  {
    var j :| 0 <= j < |p| && Melded(p, j) && !p[j].Plain?;
    SomethingIsLost(p, 0, j);
    MeldedPushes(p, shorten, 0);
    CountingRun(m, p, 0, s);
    CountingRun(m, Meld(p, shorten), 0, s);
  }

  /** Melding keeps the meaning of a list on every machine that the list is for, in every state, exactly
      when no push is melded into a branch. */
  lemma MeldIsRightIff(m: Machine<int>, p: seq<Insn>, shorten: string -> string)
    requires IsMachine(m) && Fits(m, p) && Fresh(p)
    ensures BranchesSpared(p) <==>
            forall n: Machine<int>, s: int :: IsMachine(n) && Fits(n, p) ==> Run(n, Meld(p, shorten), 0, s) == Run(n, p, 0, s)
  {
    hide Run, Meld, IsMachine, Fits, Fresh, BranchesSpared;
    if BranchesSpared(p) {
      forall n: Machine<int>, s: int | IsMachine(n) && Fits(n, p)
        ensures Run(n, Meld(p, shorten), 0, s) == Run(n, p, 0, s)
      {
        MeldKeepsMeaning(n, p, shorten, 0, s);
      }
    } else {
      CountingCanTell(m, p, shorten, 0);
    }
  }

  // ---------- layout ----------

  function Words(x: Insn): nat {
    match x
    case Label(_) => 0
    case Nop => 0
    case Branch(_, _) => 2
    case BranchArg(_, _, _) => 3
    case Plain(_, args) => 1 + |args|
  }

  /** `word_position`. */
  function Position(p: seq<Insn>, i: nat): nat
    requires i <= |p|
  {
    if i == 0 then 0 else Position(p, i - 1) + Words(p[i - 1])
  }

  lemma {:induction false} PositionGrows(p: seq<Insn>, i: nat, j: nat)
    requires i <= j <= |p|
    ensures Position(p, i) <= Position(p, j)
    decreases j
  {
    if i < j {
      PositionGrows(p, i, j - 1);
    }
  }

  predicate HasLabel(p: seq<Insn>, i: nat)
    requires i < |p|
  {
    p[i].Branch? || p[i].BranchArg? ==> Find(p, i + 1, p[i].target) < |p|
  }

  /** Every branch has its label further on. */
  predicate Resolved(p: seq<Insn>) {
    forall i | 0 <= i < |p| :: HasLabel(p, i)
  }

  /** A branch has its label further on exactly when the label stands somewhere behind the branch. */
  lemma HasLabelIff(p: seq<Insn>, i: nat)
    requires i < |p|
    ensures HasLabel(p, i) <==> (p[i].Branch? || p[i].BranchArg? ==> exists j :: i < j < |p| && p[j] == Label(p[i].target))
  {
    if p[i].Branch? || p[i].BranchArg? {
      FindIsFirst(p, i + 1, p[i].target);
    }
  }

  /** The words of one instruction, its label resolved to a position. */
  function Code(p: seq<Insn>, i: nat): (c: seq<int>)
    requires i < |p|
    ensures |c| == Words(p[i])
  {
    match p[i]
    case Label(_) => []
    case Nop => []
    case Branch(op, target) => [op, Position(p, Find(p, i + 1, target))]
    case BranchArg(op, arg, target) => [op, arg, Position(p, Find(p, i + 1, target))]
    case Plain(op, args) => [op] + args
  }

  function RawUpTo(p: seq<Insn>, i: nat): (code: seq<int>)
    requires i <= |p|
    ensures |code| == Position(p, i)
  {
    if i == 0 then [] else RawUpTo(p, i - 1) + Code(p, i - 1)
  }

  /** The raw byte code. */
  function Raw(p: seq<Insn>): seq<int> {
    RawUpTo(p, |p|)
  }

  lemma {:induction false} RawPrefix(p: seq<Insn>, i: nat, n: nat)
    requires i <= n <= |p|
    ensures RawUpTo(p, i) <= RawUpTo(p, n)
    decreases n
  {
    hide Position, Words, Code;
    if i < n {
      RawPrefix(p, i, n - 1);
    }
  }

  /** The words of instruction `i` stand at its position. */
  lemma RawAt(p: seq<Insn>, i: nat)
    requires i < |p|
    ensures Position(p, i) + Words(p[i]) == Position(p, i + 1) <= |Raw(p)|
    ensures Raw(p)[Position(p, i)..Position(p, i + 1)] == Code(p, i)
  {
    RawPrefix(p, i + 1, |p|);
    assert RawUpTo(p, i + 1) == RawUpTo(p, i) + Code(p, i);
    assert Raw(p)[..Position(p, i + 1)] == RawUpTo(p, i + 1);
  }

  /** The passes of `asm_finish_bcode` over the melded list: positions, then the words. */
  method LayOut(p: seq<Insn>) returns (ok: bool, raw: seq<int>)
    ensures ok <==> Resolved(p)
    ensures ok <==> forall i | 0 <= i < |p| && (p[i].Branch? || p[i].BranchArg?) ::
                      exists j :: i < j < |p| && p[j] == Label(p[i].target)
    ensures ok ==> raw == Raw(p)
  {
    hide Position, Words, Code, Find;
    forall i | 0 <= i < |p|
      ensures HasLabel(p, i) <==> (p[i].Branch? || p[i].BranchArg? ==> exists j :: i < j < |p| && p[j] == Label(p[i].target))
    {
      HasLabelIff(p, i);
    }
    var position := Positions(p);
    raw := [];
    var i := 0;
    while i < |p|
      invariant i <= |p| && raw == RawUpTo(p, i) && forall j | 0 <= j < i :: HasLabel(p, j)
    {
      var words;
      ok, words := Emit(p, i, position);
      if !ok {
        return;
      }
      raw := raw + words;
      i := i + 1;
    }
    return true, raw;
  }

  /** The words of one instruction, with the search for its label. */
  method Emit(p: seq<Insn>, i: nat, position: seq<nat>) returns (ok: bool, words: seq<int>)
    requires i < |p| == |position| && forall j | 0 <= j < |p| :: position[j] == Position(p, j)
    ensures ok <==> HasLabel(p, i)
    ensures ok <==> (p[i].Branch? || p[i].BranchArg? ==> exists j :: i < j < |p| && p[j] == Label(p[i].target))
    ensures ok ==> words == Code(p, i)
    ensures ok && p[i].Plain? ==> words == [p[i].op] + p[i].args
    ensures ok && (p[i].Branch? || p[i].BranchArg?) ==>
              exists j :: i < j < |p| && p[j] == Label(p[i].target) && (forall k | i < k < j :: p[k] != Label(p[i].target))
                          && words == (if p[i].Branch? then [p[i].op, position[j]] else [p[i].op, p[i].arg, position[j]])
  {
    HasLabelIff(p, i);
    words := [];
    match p[i] {
      case Label(_) =>
      case Nop =>
      case Branch(op, target) =>
        var q := FindLoop(p, i + 1, target);
        FindIsFirst(p, i + 1, target);
        if q == |p| {
          return false, words;
        }
        words := [op, position[q]];
      case BranchArg(op, arg, target) =>
        var q := FindLoop(p, i + 1, target);
        FindIsFirst(p, i + 1, target);
        if q == |p| {
          return false, words;
        }
        words := [op, arg, position[q]];
      case Plain(op, args) =>
        words := [op] + args;
    }
    ok := true;
  }

  method Positions(p: seq<Insn>) returns (position: seq<nat>)
    ensures |position| == |p| && forall j | 0 <= j < |p| :: position[j] == Position(p, j)
  {
    position := [];
    var i, n := 0, 0;
    while i < |p|
      invariant i <= |p| && |position| == i && n == Position(p, i)
      invariant forall j | 0 <= j < i :: position[j] == Position(p, j)
    {
      position := position + [n];
      n := n + Words(p[i]);
      i := i + 1;
    }
  }

  method FindLoop(p: seq<Insn>, from: nat, name: string) returns (q: nat)
    requires from <= |p|
    ensures q == Find(p, from, name)
  {
    q := from;
    while q < |p|
      invariant q <= |p| && Find(p, q, name) == Find(p, from, name)
    {
      if p[q] == Label(name) {
        return;
      }
      q := q + 1;
    }
  }

  // ---------- the meaning of raw code ----------

  /** A run of raw code from `pc`.  It is stuck where no instruction fits, and where a branch is not
      forward, so `pc` only grows. */
  function RunRaw<S>(m: Machine<S>, code: seq<int>, pc: nat, s: S): End<S>
    requires pc <= |code|
    decreases |code| - pc, 1
  {
    if pc == |code| then FellOff(s, 0)
    else if code[pc] < 0 then Stuck
    else
      var op: nat := code[pc];
      var next := pc + m.size(op / 2);
      if next <= pc || next > |code| then Stuck
      else if !m.branches(op / 2) then GoOn(m, code, pc, next, |code| + 1, Do(m, op, code[pc + 1..next], s))
      else if next == pc + 1 || code[next - 1] <= pc then Stuck
      else GoOn(m, code, pc, next, code[next - 1], Do(m, op, code[pc + 1..next - 1], s))
  }

  /** On to the next instruction, to place `to`, or out. */
  function GoOn<S>(m: Machine<S>, code: seq<int>, pc: nat, next: nat, to: nat, done: (Outcome<S>, nat)): End<S>
    requires pc < next <= |code| && pc < to
    decreases |code| - pc, 0
  {
    match done.0
    case Next(t) => Spending(RunRaw(m, code, next, t), done.1)
    case Jump(t) => if to > |code| then Stuck else Spending(RunRaw(m, code, to, t), done.1)
    case Leave(t) => Left(t, done.1)
  }

  /** The instructions have the lengths and kinds that the machine expects. */
  predicate Fits<S>(m: Machine<S>, p: seq<Insn>) {
    forall i | 0 <= i < |p| && TakesPush(p[i]) ::
      Words(p[i]) == m.size(p[i].op / 2) && (m.branches(p[i].op / 2) <==> !p[i].Plain?)
  }

  lemma PlainStep<S>(m: Machine<S>, code: seq<int>, pc: nat, next: nat, op: nat, args: seq<int>, s: S)
    requires pc + 1 <= next <= |code| && code[pc..next] == [op] + args
    requires m.size(op / 2) == next - pc && !m.branches(op / 2)
    ensures RunRaw(m, code, pc, s) == GoOn(m, code, pc, next, |code| + 1, Do(m, op, args, s))
  {
    hide GoOn, Do;
    assert code[pc] == code[pc..next][0];
    assert code[pc + 1..next] == code[pc..next][1..] == args;
  }

  lemma SliceWithin(code: seq<int>, a: nat, b: nat)
    requires a + 2 <= b <= |code|
    ensures code[a..b][1..b - a - 1] == code[a + 1..b - 1]
  {
    var l, r := code[a..b][1..b - a - 1], code[a + 1..b - 1];
    forall k | 0 <= k < |l| ensures l[k] == r[k] {
      assert code[a..b][1 + k] == code[a + 1 + k];
    }
  }

  lemma BranchStep<S>(m: Machine<S>, code: seq<int>, pc: nat, next: nat, op: nat, args: seq<int>, to: nat, s: S)
    requires pc + 2 <= next <= |code| && code[pc..next] == [op] + args + [to] && pc < to
    requires m.size(op / 2) == next - pc && m.branches(op / 2)
    ensures RunRaw(m, code, pc, s) == GoOn(m, code, pc, next, to, Do(m, op, args, s))
  {
    hide GoOn, Do;
    assert code[pc] == code[pc..next][0] && code[next - 1] == code[pc..next][next - pc - 1];
    var slice := code[pc..next];
    assert slice[1..|slice| - 1] == args;
    SliceWithin(code, pc, next);
  }

  /** Laid out, the list means the same: the raw code runs as the list does, from wherever in it. */
  lemma {:induction false} LayoutKeepsMeaning<S(!new)>(m: Machine<S>, p: seq<Insn>, i: nat, s: S)
    requires Fits(m, p) && Resolved(p) && i <= |p| && Position(p, i) <= |Raw(p)|
    ensures RunRaw(m, Raw(p), Position(p, i), s) == Run(m, p, i, s)
    decreases |p| - i
  {
    hide RunRaw, Position, RawUpTo, Raw, Do;
    if i == |p| {
      RunAtEnd(m, p, s);
      return;
    }
    var code := Raw(p);
    var pc, next := Position(p, i), Position(p, i + 1);
    RawAt(p, i);
    match p[i]
    case Label(_) => LayoutKeepsMeaning(m, p, i + 1, s);
    case Nop => LayoutKeepsMeaning(m, p, i + 1, s);
    case Plain(op, args) =>
      PlainStep(m, code, pc, next, op, args, s);
      var o := Do(m, op, args, s).0;
      if o.Next? {
        LayoutKeepsMeaning(m, p, i + 1, o.state);
      }
    case Branch(op, target) => LayoutOfBranch(m, p, i, op, [], target, s);
    case BranchArg(op, arg, target) => LayoutOfBranch(m, p, i, op, [arg], target, s);
  }

  lemma RunAtEnd<S(!new)>(m: Machine<S>, p: seq<Insn>, s: S)
    ensures Position(p, |p|) == |Raw(p)| && RunRaw(m, Raw(p), |Raw(p)|, s) == FellOff(s, 0)
  {
  }

  lemma {:induction false} LayoutOfBranch<S(!new)>(
    m: Machine<S>, p: seq<Insn>, i: nat, op: nat, args: seq<int>, target: string, s: S)
    requires Fits(m, p) && Resolved(p) && i < |p| && Position(p, i) <= |Raw(p)|
    requires if args == [] then p[i] == Branch(op, target) else |args| == 1 && p[i] == BranchArg(op, args[0], target)
    ensures RunRaw(m, Raw(p), Position(p, i), s) == Branched(m, p, i, Do(m, op, args, s), target)
    decreases |p| - i, 0
  {
    hide RunRaw, Position, RawUpTo, Raw, Do, Run;
    assert HasLabel(p, i);
    var to := Find(p, i + 1, target);
    RawAt(p, i);
    RawAt(p, to);
    PositionGrows(p, i + 1, to);
    BranchStep(m, Raw(p), Position(p, i), Position(p, i + 1), op, args, Position(p, to), s);
    var o := Do(m, op, args, s).0;
    if o.Next? {
      LayoutKeepsMeaning(m, p, i + 1, o.state);
    } else if o.Jump? {
      LayoutKeepsMeaning(m, p, to, o.state);
    }
  }

  lemma MeldFits<S(!new)>(m: Machine<S>, p: seq<Insn>, shorten: string -> string)
    requires Fits(m, p) && Fresh(p)
    ensures Fits(m, Meld(p, shorten))
  {
    var q := Meld(p, shorten);
    forall i | 0 <= i < |q| && TakesPush(q[i])
      ensures Words(q[i]) == m.size(q[i].op / 2) && (m.branches(q[i].op / 2) <==> !q[i].Plain?)
    {
      assert q[i] == MeldedAt(p, i, shorten);
    }
  }

  lemma MeldResolved(p: seq<Insn>, shorten: string -> string)
    requires BranchesSpared(p) && Resolved(p)
    ensures Resolved(Meld(p, shorten))
  {
    var q := Meld(p, shorten);
    forall i | 0 <= i < |q| ensures HasLabel(q, i) {
      assert q[i] == MeldedAt(p, i, shorten) && HasLabel(p, i);
      if q[i].Branch? || q[i].BranchArg? {
        MeldedFind(p, shorten, i + 1, p[i].target);
      }
    }
  }

  /** The assembler as a whole: the raw code of the melded list, run from its start, does what the list that
      was read does, and allocates as much. */
  lemma AssembledMeansTheSame<S(!new)>(m: Machine<S>, p: seq<Insn>, shorten: string -> string, s: S)
    requires IsMachine(m) && Fits(m, p) && Fresh(p) && BranchesSpared(p) && Resolved(p)
    ensures RunRaw(m, Raw(Meld(p, shorten)), 0, s) == Run(m, p, 0, s)
  {
    hide RunRaw, Run, Raw, Meld;
    MeldFits(m, p, shorten);
    MeldResolved(p, shorten);
    var q := Meld(p, shorten);
    LayoutKeepsMeaning(m, q, 0, s);
    MeldKeepsMeaning(m, p, shorten, 0, s);
  }

  /** And exactly then: with a push melded into some branch either a label is missing now, or some machine does
      something else. */
  lemma AssembledMeansTheSameIff(m: Machine<int>, p: seq<Insn>, shorten: string -> string)
    requires IsMachine(m) && Fits(m, p) && Fresh(p) && Resolved(p)
    ensures BranchesSpared(p) <==>
            && Resolved(Meld(p, shorten))
            && forall n: Machine<int>, s: int :: IsMachine(n) && Fits(n, p) ==>
                 RunRaw(n, Raw(Meld(p, shorten)), 0, s) == Run(n, p, 0, s)
  {
    hide RunRaw, Run, Raw, Meld, IsMachine, Fits, Fresh, BranchesSpared, Resolved;
    if BranchesSpared(p) {
      MeldResolved(p, shorten);
      forall n: Machine<int>, s: int | IsMachine(n) && Fits(n, p)
        ensures RunRaw(n, Raw(Meld(p, shorten)), 0, s) == Run(n, p, 0, s)
      {
        AssembledMeansTheSame(n, p, shorten, s);
      }
    } else if Resolved(Meld(p, shorten)) {
      var n := Counting(m);
      CountingCanTell(m, p, shorten, 0);
      MeldFits(n, p, shorten);
      LayoutKeepsMeaning(n, Meld(p, shorten), 0, 0);
    }
  }

  // ---------- what a run may allocate ----------

  /** The sum over the rest of the raw code that `load_bcode` takes. */
  function Sum<S>(m: Machine<S>, p: seq<Insn>, i: nat): nat
    requires i <= |p|
    decreases |p| - i
  {
    if i == |p| then 0
    else Sum(m, p, i + 1) + if TakesPush(p[i]) then m.declared(p[i].op / 2) else 0
  }

  lemma {:induction false} SumShrinks<S>(m: Machine<S>, p: seq<Insn>, i: nat, j: nat)
    requires i <= j <= |p|
    ensures Sum(m, p, j) <= Sum(m, p, i)
    decreases j - i
  {
    if i < j {
      SumShrinks(m, p, i + 1, j);
    }
  }

  function Spent<S>(e: End<S>): nat {
    match e
    case Left(_, n) => n
    case FellOff(_, n) => n
    case Stuck => 0
  }

  /** Since branches go forward, no instruction counts twice: a run allocates at most the plain sum. */
  lemma {:induction false} SumIsMajorant<S(!new)>(m: Machine<S>, p: seq<Insn>, i: nat, s: S)
    requires IsMachine(m) && i <= |p|
    ensures Spent(Run(m, p, i, s)) <= Sum(m, p, i)
    decreases |p| - i
  {
    if i == |p| {
      return;
    }
    match p[i]
    case Label(_) => SumIsMajorant(m, p, i + 1, s);
    case Nop => SumIsMajorant(m, p, i + 1, s);
    case Plain(op, args) =>
      var o := Do(m, op, args, s).0;
      if o.Next? {
        SumIsMajorant(m, p, i + 1, o.state);
      }
    case Branch(op, target) => BranchedWithinSum(m, p, i, Do(m, op, [], s), target);
    case BranchArg(op, arg, target) => BranchedWithinSum(m, p, i, Do(m, op, [arg], s), target);
  }

  lemma {:induction false} BranchedWithinSum<S(!new)>(
    m: Machine<S>, p: seq<Insn>, i: nat, done: (Outcome<S>, nat), target: string)
    requires IsMachine(m) && i < |p|
    ensures Spent(Branched(m, p, i, done, target)) <= done.1 + Sum(m, p, i + 1)
    decreases |p| - i, 0
  {
    if done.0.Next? {
      SumIsMajorant(m, p, i + 1, done.0.state);
    } else if done.0.Jump? {
      var to := Find(p, i + 1, target);
      if to < |p| {
        SumIsMajorant(m, p, to, done.0.state);
        SumShrinks(m, p, i + 1, to);
      }
    }
  }

  /** A machine that does nothing but allocate what is declared, with the sizes and branches of another. */
  function Spender<S(!new)>(m: Machine<S>): Machine<S> {
    Machine(m.size, m.branches, (k, args, s) => Next(s), (k, args, s) => m.declared(k), m.declared, s => s)
  }

  /** No smaller sum would do: that machine allocates just as much. */
  lemma {:induction false} SumIsTight<S(!new)>(m: Machine<S>, p: seq<Insn>, i: nat, s: S)
    requires IsMachine(m) && m.declared(PUSH) == 0 && i <= |p|
    ensures IsMachine(Spender(m)) && Run(Spender(m), p, i, s) == FellOff(s, Sum(m, p, i))
    decreases |p| - i
  {
    if i < |p| {
      SumIsTight(m, p, i + 1, s);
    }
  }

  /** The same of the raw code. */
  lemma RawRunWithinSum<S(!new)>(m: Machine<S>, p: seq<Insn>, s: S)
    requires IsMachine(m) && Fits(m, p) && Resolved(p)
    ensures Spent(RunRaw(m, Raw(p), 0, s)) <= Sum(m, p, 0)
  {
    hide RunRaw, Run, Raw, Sum;
    LayoutKeepsMeaning(m, p, 0, s);
    SumIsMajorant(m, p, 0, s);
  }

  /** The loop of `load_bcode`, which knows only the raw code: no run of the code allocates more than the sum. */
  method MaxAllocation<S(!new)>(m: Machine<S>, code: seq<int>, ghost p: seq<Insn>) returns (sum: nat)
    requires IsMachine(m) && Fits(m, p) && Resolved(p) && code == Raw(p)
    ensures sum == Sum(m, p, 0)
    ensures forall s: S :: Spent(RunRaw(m, code, 0, s)) <= sum
  {
    forall s: S ensures Spent(RunRaw(m, code, 0, s)) <= Sum(m, p, 0) {
      RawRunWithinSum(m, p, s);
    }
    hide Raw, RawUpTo, Position;
    sum := 0;
    var pc: nat := 0;
    ghost var i: nat := 0;
    PositionStart(p);
    while pc < |code|
      invariant i <= |p| && pc == Position(p, i) <= |code|
      invariant sum + Sum(m, p, i) == Sum(m, p, 0)
      decreases |code| - pc
    {
      i := SkipToCode(m, p, i);
      RawAt(p, i);
      assert code[pc] == code[pc..Position(p, i + 1)][0] == p[i].op;
      var op := code[pc];
      sum := sum + m.declared(op / 2);
      pc := pc + m.size(op / 2);
      i := i + 1;
    }
    i := SkipToEnd(m, p, i);
  }

  lemma PositionStart(p: seq<Insn>)
    ensures Position(p, 0) == 0 && Position(p, |p|) == |Raw(p)|
  {
  }

  /** Labels and deleted instructions have no code and cost nothing. */
  lemma SkipToCode<S>(m: Machine<S>, p: seq<Insn>, i: nat) returns (j: nat)
    requires i <= |p| && Position(p, i) < |Raw(p)|
    ensures i <= j < |p| && Position(p, j) == Position(p, i) && Sum(m, p, j) == Sum(m, p, i) && TakesPush(p[j])
  {
    j := i;
    while !TakesPush(p[j])
      invariant i <= j < |p| && Position(p, j) == Position(p, i) && Sum(m, p, j) == Sum(m, p, i)
      decreases |p| - j
    {
      j := j + 1;
    }
  }

  lemma SkipToEnd<S>(m: Machine<S>, p: seq<Insn>, i: nat) returns (j: nat)
    requires i <= |p| && Position(p, i) == |Raw(p)|
    ensures j == |p| && Sum(m, p, i) == 0
  {
    j := i;
    while j < |p|
      invariant i <= j <= |p| && Position(p, j) == |Raw(p)| && Sum(m, p, j) == Sum(m, p, i)
    {
      PositionGrows(p, j + 1, |p|);
      j := j + 1;
    }
  }
}
