/** The loops of `asm_resolve_ptrs`: the words of the calls are rewritten in place, in one byte code after the
    other. */
module CallPass {

  import opened Wrappers
  import opened Assembler
  import opened CallResolution
  import opened CallCode

  /** Instruction `x` in place of a plain one with as many words. */
  predicate InPlace(p: seq<Insn>, i: nat, x: Insn) {
    i < |p| && p[i].Plain? && x.Plain? && |x.args| == |p[i].args|
  }

  lemma {:induction false} ReplacedPosition(p: seq<Insn>, i: nat, x: Insn, n: nat)
    requires InPlace(p, i, x) && n <= |p|
    ensures Position(p[i := x], n) == Position(p, n)
  {
    if n > 0 {
      ReplacedPosition(p, i, x, n - 1);
    }
  }

  lemma {:induction false} ReplacedFind(p: seq<Insn>, i: nat, x: Insn, from: nat, name: string)
    requires InPlace(p, i, x) && from <= |p|
    ensures Find(p[i := x], from, name) == Find(p, from, name)
    decreases |p| - from
  {
    if from < |p| {
      ReplacedFind(p, i, x, from + 1, name);
    }
  }

  lemma ReplacedCode(p: seq<Insn>, i: nat, x: Insn, j: nat)
    requires InPlace(p, i, x) && j < |p| && j != i
    ensures Code(p[i := x], j) == Code(p, j)
  {
    if p[j].Branch? || p[j].BranchArg? {
      ReplacedFind(p, i, x, j + 1, p[j].target);
      ReplacedPosition(p, i, x, Find(p, j + 1, p[j].target));
    }
  }

  /** In the raw code just the words of the instruction are replaced. */
  lemma {:induction false} ReplacedRaw(p: seq<Insn>, i: nat, x: Insn, n: nat)
    requires InPlace(p, i, x) && n <= |p|
    ensures Position(p, i) + Words(p[i]) == Position(p, i + 1)
    ensures n > i ==> Position(p, i + 1) <= Position(p, n)
    ensures RawUpTo(p[i := x], n) ==
            if n <= i then RawUpTo(p, n)
            else RawUpTo(p, n)[..Position(p, i)] + [x.op] + x.args + RawUpTo(p, n)[Position(p, i + 1)..]
  {
    hide Code, Words, InPlace, RawUpTo, Position;
    InPlaceIs(p, i, x);
    PositionOn(p, i);
    if n == 0 {
      RawStart(p);
      RawStart(p[i := x]);
    } else {
      ReplacedRaw(p, i, x, n - 1);
      PositionOn(p, n - 1);
      RawOn(p, n - 1);
      RawOn(p[i := x], n - 1);
      if n - 1 != i {
        ReplacedCode(p, i, x, n - 1);
        if n - 1 > i {
          SliceGrows(RawUpTo(p, n - 1), Code(p, n - 1), Position(p, i), Position(p, i + 1), x.op, x.args);
        }
      } else {
        PlainCode(p[i := x], i);
        LastSlice(RawUpTo(p, i), Code(p, i), x.op, x.args);
      }
    }
  }

  lemma PositionOn(p: seq<Insn>, i: nat)
    requires i < |p|
    ensures Position(p, i + 1) == Position(p, i) + Words(p[i])
  {
  }

  lemma RawStart(p: seq<Insn>)
    ensures RawUpTo(p, 0) == []
  {
  }

  lemma RawOn(p: seq<Insn>, i: nat)
    requires i < |p|
    ensures RawUpTo(p, i + 1) == RawUpTo(p, i) + Code(p, i)
  {
  }

  lemma InPlaceIs(p: seq<Insn>, i: nat, x: Insn)
    requires InPlace(p, i, x)
    ensures i < |p| && p[i].Plain? && x.Plain? && |x.args| == |p[i].args| && Words(p[i]) == Words(x)
  {
  }

  lemma SliceGrows(s: seq<int>, more: seq<int>, a: nat, b: nat, op: int, args: seq<int>)
    requires a <= b <= |s|
    ensures s[..a] + [op] + args + s[b..] + more == (s + more)[..a] + [op] + args + (s + more)[b..]
  {
    assert (s + more)[..a] == s[..a] && (s + more)[b..] == s[b..] + more;
  }

  lemma LastSlice(s: seq<int>, last: seq<int>, op: int, args: seq<int>)
    ensures (s + last)[..|s|] + [op] + args + (s + last)[|s| + |last|..] == s + ([op] + args)
  {
    assert (s + last)[..|s|] == s && (s + last)[|s| + |last|..] == [];
  }

  lemma PlainCode(p: seq<Insn>, i: nat)
    requires i < |p| && p[i].Plain?
    ensures Code(p, i) == [p[i].op] + p[i].args
  {
  }

  lemma OneMoreResolved(t: Tables, p: seq<Insn>, i: nat)
    requires TablesOk(t) && i < |p|
    ensures p[i].Plain? ==> InPlace(ResolvedUpTo(t, p, i), i, ResolvedWords(t, p[i]))
    ensures ResolvedUpTo(t, p, i + 1) == ResolvedUpTo(t, p, i)[i := ResolvedWords(t, p[i])]
  {
    OthersKept(t, p[i]);
  }

  /** The words of instruction `i`, which has not been reached yet. */
  lemma WordsAhead(t: Tables, p: seq<Insn>, i: nat)
    requires TablesOk(t) && i < |p|
    ensures var q := ResolvedUpTo(t, p, i);
            && q[i] == p[i] && Position(q, i) + Words(p[i]) == Position(q, i + 1) <= |Raw(q)|
            && (p[i].Plain? ==> Raw(q)[Position(q, i)..Position(q, i + 1)] == [p[i].op] + p[i].args)
            && (TakesPush(p[i]) ==> Raw(q)[Position(q, i)] == p[i].op)
  {
    hide ResolvedWords, Raw, RawUpTo, Position;
    var q := ResolvedUpTo(t, p, i);
    RawAt(q, i);
    if TakesPush(p[i]) {
      assert Raw(q)[Position(q, i)] == Raw(q)[Position(q, i)..Position(q, i + 1)][0];
    }
  }

  /** What the words of a generic call become. */
  lemma RewrittenWords(t: Tables, x: Insn)
    requires TablesOk(t) && IsGeneric(x)
    ensures |x.args| >= 2 && x.args[1] >= 0
    ensures var (f, _, pushes) := Decode(x.op);
            var toBound := x.args[0] in t.globals;
            var to := if toBound then t.globals[x.args[0]] else x.args[0];
            && (f.TailCall? ==>
                  && |x.args| == 2
                  && ResolvedWords(t, x)
                     == Plain(Specialized(Opcode(if toBound then TailCallTo else TailCall, 0, pushes), x.args[1]), [to, x.args[1]]))
            && (f.Call? ==>
                  && |x.args| == 3
                  && var nextBound := x.args[2] in t.bcodes;
                     var next := if nextBound then t.bcodes[x.args[2]] else x.args[2];
                     ResolvedWords(t, x)
                     == Plain(Specialized(Opcode(if toBound && nextBound then CallToNext else if toBound then CallTo
                                                 else if nextBound then CallNext else Call, 0, pushes), x.args[1]),
                              [to, x.args[1], next]))
  {
    hide Specialized, Opcode;
  }

  /** The words at `pc` are now those of `y`, and no others have changed. */
  ghost predicate Rewritten(before: seq<int>, after: seq<int>, pc: nat, y: Insn) {
    && y.Plain? && |after| == |before| && pc + 1 + |y.args| <= |before| && after[pc] == y.op
    && (forall j | 0 <= j < |y.args| :: after[pc + 1 + j] == y.args[j])
    && (forall j | 0 <= j < |before| && !(pc <= j < pc + 1 + |y.args|) :: after[j] == before[j])
  }

  lemma RewrittenParts(before: seq<int>, after: seq<int>, pc: nat, y: Insn)
    requires Rewritten(before, after, pc, y)
    ensures after == before[..pc] + [y.op] + y.args + before[pc + 1 + |y.args|..]
  {
    var parts := before[..pc] + [y.op] + y.args + before[pc + 1 + |y.args|..];
    assert |parts| == |after|;
    forall j | 0 <= j < |after| ensures parts[j] == after[j] {
      if pc < j < pc + 1 + |y.args| {
        assert after[pc + 1 + (j - pc - 1)] == y.args[j - pc - 1];
      }
    }
  }

  /** One turn of the loop at `call_global`: opcode and operands are overwritten (asm.c:346-389). */
  method RewriteGlobalCall(t: Tables, code: array<int>, pc: nat, pushes: bool, ghost x: Insn)
    requires TablesOk(t) && IsGeneric(x) && Decode(x.op) == (Call, 0, pushes) && x.op == Opcode(Call, 0, pushes)
    requires |x.args| == 3 && pc + 4 <= code.Length && code[pc] == x.op
    requires code[pc + 1] == x.args[0] && code[pc + 2] == x.args[1] >= 0 && code[pc + 3] == x.args[2]
    modifies code
    ensures Rewritten(old(code[..]), code[..], pc, ResolvedWords(t, x))
  {
    RewrittenWords(t, x);
    hide Specialized, Opcode, IsGeneric, ResolvedWords, Decode;
    var toBound, nextBound := code[pc + 1] in t.globals, code[pc + 3] in t.bcodes;
    if toBound && nextBound {
      code[pc] := Opcode(CallToNext, 0, pushes);
      code[pc + 1] := t.globals[code[pc + 1]];
      code[pc + 3] := t.bcodes[code[pc + 3]];
    } else if toBound {
      code[pc] := Opcode(CallTo, 0, pushes);
      code[pc + 1] := t.globals[code[pc + 1]];
    } else if nextBound {
      code[pc] := Opcode(CallNext, 0, pushes);
      code[pc + 3] := t.bcodes[code[pc + 3]];
    }
    Specialize(code, pc, code[pc + 2]);
  }

  /** One turn of the loop at `tail_call_global` (asm.c:390-417). */
  method RewriteTailCall(t: Tables, code: array<int>, pc: nat, pushes: bool, ghost x: Insn)
    requires TablesOk(t) && IsGeneric(x) && Decode(x.op) == (TailCall, 0, pushes) && x.op == Opcode(TailCall, 0, pushes)
    requires |x.args| == 2 && pc + 3 <= code.Length && code[pc] == x.op
    requires code[pc + 1] == x.args[0] && code[pc + 2] == x.args[1] >= 0
    modifies code
    ensures Rewritten(old(code[..]), code[..], pc, ResolvedWords(t, x))
  {
    RewrittenWords(t, x);
    hide Specialized, Opcode, IsGeneric, ResolvedWords, Decode;
    if code[pc + 1] in t.globals {
      code[pc] := Opcode(TailCallTo, 0, pushes);
      code[pc + 1] := t.globals[code[pc + 1]];
    }
    Specialize(code, pc, code[pc + 2]);
  }

  /** The instruction for just so many arguments. */
  method Specialize(code: array<int>, pc: nat, arity: nat)
    requires pc < code.Length && code[pc] >= 0
    modifies code
    ensures code[pc] == Specialized(old(code[pc]), arity)
    ensures forall j | 0 <= j < code.Length && j != pc :: code[j] == old(code[j])
  {
    if arity == 0 || arity == 1 {
      code[pc] := code[pc] + 2;
    } else if arity <= 4 {
      code[pc] := code[pc] + 2 * arity;
    }
  }

  /** One turn of the loop at a generic call. */
  method RewriteCall(t: Tables, code: array<int>, pc: nat, ghost x: Insn)
    requires TablesOk(t) && IsGeneric(x)
    requires pc + Words(x) <= code.Length && code[pc..pc + Words(x)] == [x.op] + x.args
    modifies code
    ensures var y := ResolvedWords(t, x);
            && y.Plain? && code.Length >= pc + Words(x)
            && code[..] == old(code[..])[..pc] + [y.op] + y.args + old(code[..])[pc + Words(x)..]
  {
    hide Specialized, Opcode, Rewritten, ResolvedWords;
    WordsOf(code[..], pc, x);
    GenericOpcode(x);
    OthersKept(t, x);
    RewrittenWords(t, x);
    ghost var before := code[..];
    assert code[pc + 1 + 0] == x.args[0] && code[pc + 1 + 1] == x.args[1];
    if code[pc] == Opcode(Call, 0, false) || code[pc] == Opcode(Call, 0, true) {
      assert code[pc + 1 + 2] == x.args[2];
      RewriteGlobalCall(t, code, pc, code[pc] == Opcode(Call, 0, true), x);
    } else {
      RewriteTailCall(t, code, pc, code[pc] == Opcode(TailCall, 0, true), x);
    }
    RewrittenParts(before, code[..], pc, ResolvedWords(t, x));
  }

  lemma WordsOf(code: seq<int>, pc: nat, x: Insn)
    requires IsGeneric(x) && pc + Words(x) <= |code| && code[pc..pc + Words(x)] == [x.op] + x.args
    ensures code[pc] == x.op && |x.args| >= 2 && Words(x) == |x.args| + 1
    ensures forall j | 0 <= j < |x.args| :: code[pc + 1 + j] == x.args[j]
  {
    assert code[pc] == code[pc..pc + Words(x)][0];
    forall j | 0 <= j < |x.args| ensures code[pc + 1 + j] == x.args[j] {
      assert code[pc + 1 + j] == code[pc..pc + Words(x)][j + 1];
    }
  }

  /** Generic calls have just four opcodes. */
  lemma GenericOpcode(x: Insn)
    requires x.Plain?
    ensures IsGeneric(x) ==>
              var (f, _, pushes) := Decode(x.op);
              && x.op == Opcode(f, 0, pushes) && (f.Call? || f.TailCall?)
              && |x.args| == (if f.Call? then 3 else 2)
    ensures Opcode(Call, 0, true) != Opcode(Call, 0, false) && Opcode(TailCall, 0, true) != Opcode(TailCall, 0, false)
    ensures forall a, b :: Opcode(Call, 0, a) != Opcode(TailCall, 0, b)
    ensures CallShape(x.op, x.args) && (exists a :: x.op == Opcode(Call, 0, a) || x.op == Opcode(TailCall, 0, a)) ==> IsGeneric(x)
  {
    if IsCall(x.op) {
      OpcodeDecode(x.op);
    }
    DecodeOpcode(Call, 0, true);
    DecodeOpcode(Call, 0, false);
    DecodeOpcode(TailCall, 0, true);
    DecodeOpcode(TailCall, 0, false);
  }

  /** Calls have their operands, and the number of arguments is an unsigned word. */
  predicate CallsShaped(p: seq<Insn>) {
    forall i | 0 <= i < |p| && p[i].Plain? && IsCall(p[i].op) :: CallShape(p[i].op, p[i].args)
  }

  lemma ResolvedStart(t: Tables, p: seq<Insn>)
    requires TablesOk(t)
    ensures ResolvedUpTo(t, p, 0) == p && Position(p, 0) == 0
  {
  }

  /** Labels and deleted instructions have no words, and nothing to resolve. */
  lemma SkipToWords(t: Tables, p: seq<Insn>, i: nat) returns (j: nat)
    requires TablesOk(t) && i <= |p| && Position(ResolvedUpTo(t, p, i), i) < |Raw(ResolvedUpTo(t, p, i))|
    ensures i <= j < |p| && TakesPush(p[j]) && ResolvedUpTo(t, p, j) == ResolvedUpTo(t, p, i)
    ensures Position(ResolvedUpTo(t, p, j), j) == Position(ResolvedUpTo(t, p, i), i)
  {
    hide ResolvedWords, IsGeneric;
    var q := ResolvedUpTo(t, p, i);
    j := i;
    while !TakesPush(p[j])
      invariant i <= j < |p| && ResolvedUpTo(t, p, j) == q && Position(q, j) == Position(q, i)
      decreases |p| - j
    {
      OneMoreResolved(t, p, j);
      OthersKept(t, p[j]);
      j := j + 1;
    }
  }

  lemma AllResolved(t: Tables, p: seq<Insn>, i: nat)
    requires TablesOk(t) && i <= |p| && Position(ResolvedUpTo(t, p, i), i) == |Raw(ResolvedUpTo(t, p, i))|
    ensures ResolvedUpTo(t, p, i) == ResolvedUpTo(t, p, |p|)
  {
    hide ResolvedWords, IsGeneric;
    var q := ResolvedUpTo(t, p, i);
    var j := i;
    while j < |p|
      invariant i <= j <= |p| && ResolvedUpTo(t, p, j) == q && Position(q, j) == |Raw(q)|
    {
      PositionGrows(q, j + 1, |p|);
      OneMoreResolved(t, p, j);
      OthersKept(t, p[j]);
      j := j + 1;
    }
  }

  /** The size of the opcode that is there after the turn leads to the next instruction. */
  lemma ResolvedSizes(m: Machine<Registers>, t: Tables, p: seq<Insn>, i: nat)
    requires RunsCalls(m, t) && TablesOk(t) && Fits(m, p) && i < |p| && TakesPush(p[i])
    ensures var y := ResolvedWords(t, p[i]);
            && TakesPush(y) && m.size(y.op / 2) == Words(p[i]) == Words(y) > 0
            && Position(ResolvedUpTo(t, p, i + 1), i + 1) == Position(ResolvedUpTo(t, p, i), i) + Words(p[i])
  {
    hide RunsCalls, ResolvedWords, IsGeneric, ResolvedUpTo;
    ResolvedSize(m, t, t, p[i]);
    OneMoreResolved(t, p, i);
    OthersKept(t, p[i]);
    var q := ResolvedUpTo(t, p, i);
    assert q[i] == p[i];
    assert Position(q, i + 1) == Position(q, i) + Words(q[i]);
    if p[i].Plain? {
      ReplacedPosition(q, i, ResolvedWords(t, p[i]), i + 1);
    } else {
      assert q[i := p[i]] == q;
    }
  }

  /** The switch of the source finds the generic calls. */
  lemma GenericTest(m: Machine<Registers>, t: Tables, p: seq<Insn>, i: nat)
    requires RunsCalls(m, t) && Fits(m, p) && CallsShaped(p) && i < |p| && TakesPush(p[i])
    ensures p[i].op in {Opcode(Call, 0, false), Opcode(Call, 0, true), Opcode(TailCall, 0, false), Opcode(TailCall, 0, true)}
            <==> IsGeneric(p[i])
    ensures IsGeneric(p[i]) ==> p[i].Plain?
  {
    DecodeOpcode(Call, 0, true);
    DecodeOpcode(Call, 0, false);
    DecodeOpcode(TailCall, 0, true);
    DecodeOpcode(TailCall, 0, false);
    if IsCall(p[i].op) {
      MnemonicOf(p[i].op);
      GenericOpcode(Plain(p[i].op, if p[i].Plain? then p[i].args else []));
      OpcodeDecode(p[i].op);
    }
    hide Decode, Opcode, IsCall, CallShape, Words;
  }

  lemma RawOfResolved(t: Tables, p: seq<Insn>, i: nat)
    requires TablesOk(t) && i < |p| && p[i].Plain?
    ensures var q, y := ResolvedUpTo(t, p, i), ResolvedWords(t, p[i]);
            && y.Plain? && Position(q, i) <= Position(q, i) + Words(p[i]) <= |Raw(q)|
            && Raw(ResolvedUpTo(t, p, i + 1))
               == Raw(q)[..Position(q, i)] + [y.op] + y.args + Raw(q)[Position(q, i) + Words(p[i])..]
  {
    hide ResolvedWords, IsGeneric, Position, RawUpTo;
    OneMoreResolved(t, p, i);
    OthersKept(t, p[i]);
    ReplacedRaw(ResolvedUpTo(t, p, i), i, ResolvedWords(t, p[i]), |p|);
  }

  lemma NothingResolved(t: Tables, p: seq<Insn>, i: nat)
    requires TablesOk(t) && i < |p| && !IsGeneric(p[i])
    ensures ResolvedWords(t, p[i]) == p[i] && ResolvedUpTo(t, p, i + 1) == ResolvedUpTo(t, p, i)
  {
    OneMoreResolved(t, p, i);
  }

  /** `asm_resolve_ptrs` over one sequence: it knows only the words, and goes on by the size of the opcode that
      it has just written.  Where no generic call without arguments can be reached the code does what it did, also
      after more names have been bound. */
  method ResolvePtrs(m: Machine<Registers>, t: Tables, code: array<int>, ghost p: seq<Insn>)
    requires RunsCalls(m, t) && Fits(m, p) && Resolved(p) && CallsShaped(p) && code[..] == Raw(p)
    modifies code
    ensures code[..] == Raw(ResolvedUpTo(t, p, |p|))
    ensures forall late, r | Later(t, late) && RunsCalls(m, late) && Harmless(p, 0) ::
              RunRaw(m, code[..], 0, r) == RunRaw(m, old(code[..]), 0, r)
  {
    hide Raw, RawUpTo, Position, ResolvedUpTo, ResolvedWords, RunRaw, Fits, Words, IsGeneric, Opcode;
    var pc: nat := 0;
    ghost var i: nat := 0;
    ResolvedStart(t, p);
    while pc < code.Length
      invariant i <= |p| && code[..] == Raw(ResolvedUpTo(t, p, i)) && pc == Position(ResolvedUpTo(t, p, i), i) <= code.Length
      decreases code.Length - pc
    {
      i := SkipToWords(t, p, i);
      ghost var q := ResolvedUpTo(t, p, i);
      WordsAhead(t, p, i);
      ResolvedSizes(m, t, p, i);
      OneMoreResolved(t, p, i);
      var op: nat := code[pc];
      GenericTest(m, t, p, i);
      if op in {Opcode(Call, 0, false), Opcode(Call, 0, true), Opcode(TailCall, 0, false), Opcode(TailCall, 0, true)} {
        RewriteCall(t, code, pc, p[i]);
        RawOfResolved(t, p, i);
      } else {
        NothingResolved(t, p, i);
      }
      pc := pc + m.size(code[pc] / 2);
      i := i + 1;
    }
    AllResolved(t, p, i);
    ResolvedForGood(m, t, p);
  }

  // ---------- all byte codes of a compilation ----------

  /** Resolving what has been resolved changes nothing, so a byte code may be listed twice. */
  lemma ResolvedTwice(t: Tables, x: Insn)
    requires TablesOk(t)
    ensures ResolvedWords(t, ResolvedWords(t, x)) == ResolvedWords(t, x)
  {
  }

  lemma ResolvedAgain(m: Machine<Registers>, t: Tables, p: seq<Insn>)
    requires RunsCalls(m, t) && Fits(m, p) && Resolved(p) && CallsShaped(p)
    ensures var q := ResolvedUpTo(t, p, |p|);
            Fits(m, q) && Resolved(q) && CallsShaped(q) && ResolvedUpTo(t, q, |q|) == q
  {
    hide Fits, RunsCalls, ResolvedWords, Resolved, IsGeneric;
    CallsAreOk(m, t, t);
    ResolvedFits(m, t, t, p, |p|);
    var q := ResolvedUpTo(t, p, |p|);
    forall i | 0 <= i < |q| ensures ResolvedWords(t, q[i]) == q[i] {
      ResolvedTwice(t, p[i]);
    }
    forall i | 0 <= i < |q| && q[i].Plain? && IsCall(q[i].op) ensures CallShape(q[i].op, q[i].args) {
      if IsGeneric(p[i]) {
        ResolvedInsn(t, t, p[i]);
      } else {
        NotGeneric(t, p[i]);
      }
    }
  }

  /** The outer loop of `asm_resolve_ptrs`: every listed byte code is resolved, also one that is listed twice. */
  method ResolveAll(m: Machine<Registers>, t: Tables, codes: seq<array<int>>, ghost ps: seq<seq<Insn>>)
    requires RunsCalls(m, t) && |codes| == |ps|
    requires forall i | 0 <= i < |ps| :: Fits(m, ps[i]) && Resolved(ps[i]) && CallsShaped(ps[i]) && codes[i][..] == Raw(ps[i])
    requires forall i, j | 0 <= i < |ps| && 0 <= j < |ps| && codes[i] == codes[j] :: ps[i] == ps[j]
    modifies codes
    ensures forall i | 0 <= i < |ps| :: codes[i][..] == Raw(ResolvedUpTo(t, ps[i], |ps[i]|))
    ensures forall i, late, r | 0 <= i < |ps| && Later(t, late) && RunsCalls(m, late) && Harmless(ps[i], 0) ::
              RunRaw(m, codes[i][..], 0, r) == RunRaw(m, old(codes[i][..]), 0, r)
  {
    hide Raw, RawUpTo, ResolvedUpTo, RunRaw, Fits, RunsCalls, Resolved, CallsShaped, Harmless, Later;
    CallsAreOk(m, t, t);
    var i := 0;
    ghost var done: set<array<int>> := {};
    while i < |codes|
      invariant i <= |codes| && forall j | 0 <= j < i :: codes[j] in done
      invariant forall j | 0 <= j < |codes| ::
                  codes[j][..] == Raw(if codes[j] in done then ResolvedUpTo(t, ps[j], |ps[j]|) else ps[j])
    {
      ghost var p := ps[i];
      ghost var q := if codes[i] in done then ResolvedUpTo(t, p, |p|) else p;
      ResolvedAgain(m, t, p);
      ResolvePtrs(m, t, codes[i], q);
      done := done + {codes[i]};
      i := i + 1;
    }
    forall j | 0 <= j < |ps| ensures MeansTheSame(m, t, ps[j]) {
      ResolvedForGood(m, t, ps[j]);
    }
  }

  /** The resolved code of a list without harm does what the code did, now and later. */
  ghost predicate MeansTheSame(m: Machine<Registers>, t: Tables, p: seq<Insn>)
    requires TablesOk(t)
  {
    forall late, r | Later(t, late) && RunsCalls(m, late) && Harmless(p, 0) ::
      RunRaw(m, Raw(ResolvedUpTo(t, p, |p|)), 0, r) == RunRaw(m, Raw(p), 0, r)
  }

  lemma ResolvedForGood(m: Machine<Registers>, t: Tables, p: seq<Insn>)
    requires TablesOk(t) && Fits(m, p) && Resolved(p)
    ensures MeansTheSame(m, t, p)
  {
    hide Raw, ResolvedUpTo, RunRaw, Fits, RunsCalls, Resolved, Harmless, Later;
    forall late, r | Later(t, late) && RunsCalls(m, late) && Harmless(p, 0)
      ensures RunRaw(m, Raw(ResolvedUpTo(t, p, |p|)), 0, r) == RunRaw(m, Raw(p), 0, r)
    {
      ResolvedCodeMeansTheSame(m, t, late, p, r);
    }
  }
}
