/** The rewriting of calls in `asm_resolve_ptrs` (asm.c): names become pointers, and the opcode that of an
    instruction for just so many arguments (insn-calls.h). */
module CallResolution {

  import opened Wrappers

  /** The opcode of `call_global`, without a push.  The instructions of insn-calls.h follow in the order in
      which they stand there, each with its pushing variant before it. */
  const CALL_GLOBAL: nat := 1001

  /** Six families of five: generic, for 0 or 1 arguments, for 2, for 3 and for 4. */
  datatype Family = Call | CallTo | CallNext | CallToNext | TailCall | TailCallTo

  function FamilyNumber(f: Family): nat {
    match f
    case Call => 0
    case CallTo => 1
    case CallNext => 2
    case CallToNext => 3
    case TailCall => 4
    case TailCallTo => 5
  }

  /** The opcode of a family's instruction; `special` counts from the generic one. */
  function Opcode(f: Family, special: nat, pushes: bool): nat {
    CALL_GLOBAL + 10 * FamilyNumber(f) + 2 * special - (if pushes then 1 else 0)
  }

  // ---------- the machine ----------

  /** A prototype continuation, and a frame: its byte code, the frame to return to, its arguments. */
  datatype Proto = Proto(header: int, bcode: int)
  datatype Frame = Frame(header: int, bcode: int, next: Option<Frame>, args: seq<int>)

  /** The registers at a call; the tables of names do not change while the code is in use. */
  datatype State = State(accu: int, stack: seq<int>, frame: Frame)
  datatype Names = Names(globals: map<int, Proto>, bcodes: map<int, int>)

  /** An operand: a name, or what it stands for. */
  datatype To = ToName(id: int) | ToProto(proto: Proto)
  datatype Return = ReturnName(id: int) | ReturnBcode(bcode: int) | NoReturn

  /** `call_global` and its relatives in memory: opcode and operands. */
  datatype CallInsn = CallInsn(op: nat, to: To, arity: nat, back: Return)

  /** The families whose first operand is a pointer, and those whose last one is. */
  predicate ToIsPtr(f: Family) { f.CallTo? || f.CallToNext? || f.TailCallTo? }

  predicate NextIsPtr(f: Family) { f.CallNext? || f.CallToNext? }

  predicate IsTail(f: Family) { f.TailCall? || f.TailCallTo? }

  function FamilyOf(number: nat): Family
    requires number < 6
  {
    match number
    case 0 => Call
    case 1 => CallTo
    case 2 => CallNext
    case 3 => CallToNext
    case 4 => TailCall
    case _ => TailCallTo
  }

  predicate IsCall(op: nat) {
    CALL_GLOBAL - 1 <= op < CALL_GLOBAL - 1 + 60
  }

  /** Which instruction an opcode names. */
  function Decode(op: nat): (Family, nat, bool)
    requires IsCall(op)
  {
    var n := op - (CALL_GLOBAL - 1);
    (FamilyOf(n / 10), n % 10 / 2, n % 2 == 0)
  }

  lemma DecodeOpcode(f: Family, special: nat, pushes: bool)
    requires special < 5
    ensures IsCall(Opcode(f, special, pushes))
    ensures Decode(Opcode(f, special, pushes)) == (f, special, pushes)
  {
  }

  lemma OpcodeDecode(op: nat)
    requires IsCall(op)
    ensures var (f, special, pushes) := Decode(op); Opcode(f, special, pushes) == op && special < 5
  {
  }

  /** Which arguments on the stack the instruction copies; the accumulator is one more.  Without any the
      generic instruction counts its loop down from below zero and never comes to an end. */
  function Args(special: nat, arity: nat, stack: seq<int>): Option<seq<int>>
    requires special < 5
  {
    var n := |stack|;
    match special
    case 0 => if arity == 0 || n < arity - 1 then None else Some(stack[n - (arity - 1)..])
    case 1 => if arity <= 1 then Some([]) else None
    case 2 => if arity == 2 && n >= 1 then Some([stack[n - 1]]) else None
    case 3 => if arity == 3 && n >= 2 then Some([stack[n - 2], stack[n - 1]]) else None
    case _ => if arity == 4 && n >= 3 then Some([stack[n - 3], stack[n - 2], stack[n - 1]]) else None
  }

  function Target(names: Names, f: Family, to: To): Option<Proto> {
    if ToIsPtr(f) then (if to.ToProto? then Some(to.proto) else None)
    else if to.ToName? && to.id in names.globals then Some(names.globals[to.id])
    else None
  }

  function ReturnTo(names: Names, f: Family, back: Return): Option<int> {
    if NextIsPtr(f) then (if back.ReturnBcode? then Some(back.bcode) else None)
    else if back.ReturnName? && back.id in names.bcodes then Some(names.bcodes[back.id])
    else None
  }

  /** The frame that runs next, or nothing where the instruction's assertions fail. */
  function Exec(names: Names, x: CallInsn, s: State): Option<Frame>
    requires IsCall(x.op)
  {
    var (f, special, pushes) := Decode(x.op);
    var stack := if pushes then s.stack + [s.accu] else s.stack;
    var proto, args := Target(names, f, x.to), Args(special, x.arity, stack);
    if proto.None? || args.None? then None
    else if IsTail(f) then Some(Frame(proto.value.header, proto.value.bcode, s.frame.next, args.value))
    else
      var bcode := ReturnTo(names, f, x.back);
      if bcode.None? then None
      else Some(Frame(proto.value.header, proto.value.bcode, Some(s.frame.(bcode := bcode.value)), args.value))
  }

  /** The frame that a call makes as the assembler emits it, written out: opcodes are even where the accumulator is
      pushed first, the arguments are those on top of the stack but for the accumulator, and the frame to return
      to is the caller's with the byte code to go on with, or the caller's own for a tail call. */
  lemma GenericFrame(names: Names, x: CallInsn, s: State)
    requires Generic(x)
    ensures var stack := if x.op % 2 == 0 then s.stack + [s.accu] else s.stack;
            var r := Exec(names, x, s);
            && (r.Some? <==>
                  && 0 < x.arity <= |stack| + 1 && x.to.id in names.globals
                  && (x.back.ReturnName? ==> x.back.id in names.bcodes))
            && (r.Some? ==>
                  && r.value.header == names.globals[x.to.id].header && r.value.bcode == names.globals[x.to.id].bcode
                  && r.value.args == stack[|stack| + 1 - x.arity..]
                  && r.value.next == if x.back.NoReturn? then s.frame.next
                                     else Some(Frame(s.frame.header, names.bcodes[x.back.id], s.frame.next, s.frame.args)))
  {
    hide Decode, Args, IsCall, Generic;
    GenericShape(x);
    GenericArgs(x.arity, if x.op % 2 == 0 then s.stack + [s.accu] else s.stack);
  }

  lemma GenericShape(x: CallInsn)
    requires Generic(x)
    ensures IsCall(x.op) && x.to.ToName? && Decode(x.op).1 == 0 && (Decode(x.op).2 <==> x.op % 2 == 0)
    ensures if x.back.NoReturn? then Decode(x.op).0.TailCall? else Decode(x.op).0.Call? && x.back.ReturnName?
  {
    EvenPushes(x.op);
  }

  lemma EvenPushes(op: nat)
    requires IsCall(op)
    ensures Decode(op).2 <==> op % 2 == 0
  {
    var n := op - (CALL_GLOBAL - 1);
    assert op == n + 1000;
  }

  lemma GenericArgs(arity: nat, stack: seq<int>)
    ensures Args(0, arity, stack) == if 0 < arity <= |stack| + 1 then Some(stack[|stack| + 1 - arity..]) else None
  {
  }

  // ---------- resolution ----------

  /** The step to the instruction for just so many arguments. */
  function Specialized(op: nat, arity: nat): nat {
    if arity == 0 || arity == 1 then op + 2 else if arity <= 4 then op + 2 * arity else op
  }

  /** One turn of the loop of `asm_resolve_ptrs`. */
  function Resolve(names: Names, x: CallInsn): CallInsn {
    if x.op == Opcode(Call, 0, false) || x.op == Opcode(Call, 0, true) then
      var pushes := x.op == Opcode(Call, 0, true);
      var toBound := x.to.ToName? && x.to.id in names.globals;
      var nextBound := x.back.ReturnName? && x.back.id in names.bcodes;
      var to := if toBound then ToProto(names.globals[x.to.id]) else x.to;
      var next := if nextBound then ReturnBcode(names.bcodes[x.back.id]) else x.back;
      var op := if toBound && nextBound then Opcode(CallToNext, 0, pushes)
                else if toBound then Opcode(CallTo, 0, pushes)
                else if nextBound then Opcode(CallNext, 0, pushes)
                else x.op;
      CallInsn(Specialized(op, x.arity), to, x.arity, next)
    else if x.op == Opcode(TailCall, 0, false) || x.op == Opcode(TailCall, 0, true) then
      var pushes := x.op == Opcode(TailCall, 0, true);
      if x.to.ToName? && x.to.id in names.globals
      then CallInsn(Specialized(Opcode(TailCallTo, 0, pushes), x.arity), ToProto(names.globals[x.to.id]), x.arity, x.back)
      else CallInsn(Specialized(x.op, x.arity), x.to, x.arity, x.back)
    else x
  }

  /** What was bound when the code was resolved is still bound to the same. */
  ghost predicate Unchanged(early: Names, late: Names) {
    && (forall id | id in early.globals :: id in late.globals && late.globals[id] == early.globals[id])
    && (forall id | id in early.bcodes :: id in late.bcodes && late.bcodes[id] == early.bcodes[id])
  }

  /** As the assembler emits them: generic, with names for operands. */
  predicate Generic(x: CallInsn) {
    && IsCall(x.op) && x.to.ToName?
    && var (f, special, pushes) := Decode(x.op);
       special == 0 && if f.Call? then x.back.ReturnName? else f.TailCall? && x.back == NoReturn
  }

  /** The special instructions copy what the generic one copies. */
  lemma SpecialArgs(arity: nat, stack: seq<int>)
    requires 0 < arity <= 4
    ensures Args(arity, arity, stack) == Args(0, arity, stack)
  {
    var n := |stack|;
    if arity == 1 {
      assert stack[n..] == [];
    } else if arity == 2 && n >= 1 {
      assert stack[n - 1..] == [stack[n - 1]];
    } else if arity == 3 && n >= 2 {
      assert stack[n - 2..] == [stack[n - 2], stack[n - 1]];
    } else if arity == 4 && n >= 3 {
      assert stack[n - 3..] == [stack[n - 3], stack[n - 2], stack[n - 1]];
    }
  }

  /** The special instruction for a number of arguments, from 0 for the generic one. */
  function Special(arity: nat): (k: nat)
    ensures k < 5
  {
    if arity == 0 then 1 else if arity <= 4 then arity else 0
  }

  lemma SpecializedOpcode(f: Family, arity: nat, pushes: bool)
    ensures Specialized(Opcode(f, 0, pushes), arity) == Opcode(f, Special(arity), pushes)
  {
  }

  /** The family of the resolved call. */
  function ResolvedFamily(names: Names, f: Family, x: CallInsn): Family
    requires Generic(x)
  {
    var toBound := x.to.id in names.globals;
    if IsTail(f) then (if toBound then TailCallTo else TailCall)
    else
      var nextBound := x.back.ReturnName? && x.back.id in names.bcodes;
      if toBound && nextBound then CallToNext else if toBound then CallTo else if nextBound then CallNext else Call
  }

  /** Resolution keeps the family up to pointers, and turns the generic instruction into the special one. */
  lemma ResolvedDecodes(names: Names, x: CallInsn)
    requires Generic(x)
    ensures var y := Resolve(names, x);
            && IsCall(y.op)
            && var (f, _, pushes) := Decode(x.op);
               Decode(y.op) == (ResolvedFamily(names, f, x), Special(x.arity), pushes)
  {
    var (f, special, pushes) := Decode(x.op);
    OpcodeDecode(x.op);
    DecodeOpcode(Call, 0, true);
    DecodeOpcode(Call, 0, false);
    DecodeOpcode(TailCall, 0, true);
    DecodeOpcode(TailCall, 0, false);
    var g := ResolvedFamily(names, f, x);
    SpecializedOpcode(g, x.arity, pushes);
    DecodeOpcode(g, Special(x.arity), pushes);
    hide Opcode, Decode, IsCall, Specialized;
    assert Resolve(names, x).op == Specialized(Opcode(g, 0, pushes), x.arity);
  }

  /** The parts of a resolved call. */
  lemma ResolvedParts(names: Names, x: CallInsn)
    requires Generic(x)
    ensures var y := Resolve(names, x);
            var (f, _, pushes) := Decode(x.op);
            && y.op == Opcode(ResolvedFamily(names, f, x), Special(x.arity), pushes) && y.arity == x.arity
            && y.to == (if x.to.id in names.globals then ToProto(names.globals[x.to.id]) else x.to)
            && y.back == (if x.back.ReturnName? && x.back.id in names.bcodes then ReturnBcode(names.bcodes[x.back.id]) else x.back)
  {
    ResolvedDecodes(names, x);
    OpcodeDecode(Resolve(names, x).op);
    OpcodeDecode(x.op);
    var (f, _, pushes) := Decode(x.op);
    assert x.op == Opcode(f, 0, pushes);
  }

  /** A call with at least one argument does the same before and after it is resolved, whatever else has
      been bound in the meantime. */
  lemma ResolveKeepsMeaning(early: Names, late: Names, x: CallInsn, s: State)
    requires Generic(x) && Unchanged(early, late) && x.arity > 0
    ensures IsCall(Resolve(early, x).op)
    ensures Exec(late, Resolve(early, x), s) == Exec(late, x, s)
  {
    hide Args, Resolve, Decode, IsCall, Generic, Opcode;
    ResolvedDecodes(early, x);
    ResolvedParts(early, x);
    GenericShape(x);
    var (f, special, pushes) := Decode(x.op);
    if x.arity <= 4 {
      SpecialArgs(x.arity, if pushes then s.stack + [s.accu] else s.stack);
    }
  }

  /** A call without any only works once it is resolved. */
  lemma WithoutArguments(early: Names, late: Names, x: CallInsn, s: State)
    requires Generic(x) && Unchanged(early, late) && x.arity == 0
    ensures IsCall(Resolve(early, x).op) && Exec(late, x, s) == None
    ensures var r := Exec(late, Resolve(early, x), s);
            && (r.Some? <==> x.to.id in late.globals && (!IsTail(Decode(x.op).0) ==> x.back.id in late.bcodes))
            && (r.Some? ==> r.value.bcode == late.globals[x.to.id].bcode && r.value.args == [])
  {
    ResolvedDecodes(early, x);
  }
}
