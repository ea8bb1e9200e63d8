/**
  Running the code of an expression: from its first byte and with any stack, it does exactly what the
  expression does by slots.
*/
module GinkgoExprs {
  import opened Options
  import opened GinkgoValues
  import opened GinkgoCompile
  import opened GinkgoMachine
  import opened GinkgoSlots

  /** The chunk holds `code` from `at` on. */
  ghost predicate CodeAt(ck: Chunk, at: nat, code: seq<Byte>) {
    at + |code| <= |ck.code| && forall i | 0 <= i < |code| :: ck.code[at + i] == code[i]
  }

  lemma CodeAtParts(ck: Chunk, at: nat, first: seq<Byte>, second: seq<Byte>)
    requires CodeAt(ck, at, first + second)
    ensures CodeAt(ck, at, first) && CodeAt(ck, at + |first|, second)
  {
    assert forall i | 0 <= i < |first| :: (first + second)[i] == first[i];
    assert forall i | 0 <= i < |second| :: (first + second)[|first| + i] == second[i];
    forall i | 0 <= i < |second|
      ensures ck.code[at + |first| + i] == second[i]
    {
      assert ck.code[at + (|first| + i)] == (first + second)[|first| + i];
    }
  }

  // ---------------------------------------------------------------------------------------------
  // Runs
  // ---------------------------------------------------------------------------------------------

  ghost predicate RunsTo(ck: Chunk, natives: Natives, vm: Vm, status: Status) {
    exists n: nat :: Run(ck, natives, vm, n) == status
  }

  /** Some number of steps leads to `status`; phrased so that the verifier does not unfold the run. */
  ghost predicate Reaches(ck: Chunk, natives: Natives, vm: Vm, status: Status) {
    forall c | c == ck :: RunsTo(c, natives, vm, status)
  }

  lemma ReachesHere(ck: Chunk, natives: Natives, vm: Vm)
    ensures Reaches(ck, natives, vm, Running(vm))
  {
    assert Run(ck, natives, vm, 0) == Running(vm);
  }

  lemma Chain(ck: Chunk, natives: Natives, vm: Vm, vm1: Vm, status: Status)
    requires Reaches(ck, natives, vm, Running(vm1)) && Reaches(ck, natives, vm1, status)
    ensures Reaches(ck, natives, vm, status)
  {
    assert RunsTo(ck, natives, vm, Running(vm1)) && RunsTo(ck, natives, vm1, status);
    var n: nat :| Run(ck, natives, vm, n) == Running(vm1);
    var m: nat :| Run(ck, natives, vm1, m) == status;
    RunOn(ck, natives, vm, n, m);
    assert Run(ck, natives, vm, n + m) == status;
  }

  /** After `n` steps the machine is still running; phrased so that the verifier does not unfold the run. */
  ghost predicate Lasts(ck: Chunk, natives: Natives, vm: Vm, n: nat) {
    forall c | c == ck :: Run(c, natives, vm, n).Running?
  }

  lemma LastsAfter(ck: Chunk, natives: Natives, vm: Vm, vm1: Vm, n: nat)
    requires Reaches(ck, natives, vm, Running(vm1)) && Lasts(ck, natives, vm1, n)
    ensures Lasts(ck, natives, vm, n) && (vm != vm1 ==> Lasts(ck, natives, vm, n + 1))
  {
    assert RunsTo(ck, natives, vm, Running(vm1));
    var k: nat :| Run(ck, natives, vm, k) == Running(vm1);
    LastsFrom(ck, natives, vm, vm1, k, n, n);
    if vm != vm1 {
      assert k != 0;
      LastsFrom(ck, natives, vm, vm1, k, n, n + 1);
    }
  }

  lemma LastsFrom(ck: Chunk, natives: Natives, vm: Vm, vm1: Vm, k: nat, n: nat, m: nat)
    requires Run(ck, natives, vm, k) == Running(vm1) && Lasts(ck, natives, vm1, n) && m <= k + n
    ensures Lasts(ck, natives, vm, m)
  {
    assert Run(ck, natives, vm1, n).Running?;
    RunOn(ck, natives, vm, k, n);
    StillRunning(ck, natives, vm, k + n, m);
  }

  lemma StepReaches(ck: Chunk, natives: Natives, vm: Vm, status: Status)
    requires Steps(ck, natives, vm, status)
    ensures Reaches(ck, natives, vm, status)
  {
    assert Step(ck, natives, vm) == status;
    if status.Running? {
      assert Run(ck, natives, status.vm, 0) == status;
    }
    assert Run(ck, natives, vm, 1) == status;
  }

  lemma PlainAt(ck: Chunk, natives: Natives, vm: Vm, op: Opcode)
    requires OperandBytes(op) == 0 && CodeAt(ck, vm.ip, [OpByte(op)])
    ensures Reaches(ck, natives, vm, StepPlain(op, vm))
  {
    var code := [OpByte(op)];
    assert ck.code[vm.ip + 0] == code[0];
    OpcodeRoundTrip(op);
    StepsPlain(ck, natives, vm, op);
    StepReaches(ck, natives, vm, StepPlain(op, vm));
  }

  lemma OperandAt(ck: Chunk, natives: Natives, vm: Vm, op: Opcode, operand: Byte)
    requires OperandBytes(op) == 1 && CodeAt(ck, vm.ip, [OpByte(op), operand])
    ensures Reaches(ck, natives, vm, StepOperand(op, ck.constants, natives, vm, operand))
  {
    var code := [OpByte(op), operand];
    assert ck.code[vm.ip + 0] == code[0] && ck.code[vm.ip + 1] == code[1];
    OpcodeRoundTrip(op);
    StepsOperand(ck, natives, vm, op);
    StepReaches(ck, natives, vm, StepOperand(op, ck.constants, natives, vm, operand));
  }

  lemma JumpAt(ck: Chunk, natives: Natives, vm: Vm, op: Opcode, distance: nat)
    requires OperandBytes(op) == 2 && distance <= MAX_JUMP && CodeAt(ck, vm.ip, [OpByte(op)] + JumpBytes(distance))
    ensures Reaches(ck, natives, vm, StepJump(op, vm, distance))
  {
    var code := [OpByte(op)] + JumpBytes(distance);
    assert ck.code[vm.ip + 0] == code[0] && ck.code[vm.ip + 1] == code[1] && ck.code[vm.ip + 2] == code[2];
    OpcodeRoundTrip(op);
    JumpRoundTrip(distance);
    StepsJump(ck, natives, vm, op);
    StepReaches(ck, natives, vm, StepJump(op, vm, distance));
  }

  // ---------------------------------------------------------------------------------------------
  // Courses
  // ---------------------------------------------------------------------------------------------

  function At(ip: nat, st: Store): Vm {
    Vm(ip, st.stack, st.globals)
  }

  /** From `ip` and `st` the machine comes to what `r` says: to `end`, to a fault, or to `n` steps and no end. */
  ghost predicate Comes(ck: Chunk, natives: Natives, ip: nat, st: Store, r: Course<Store>, end: nat, n: nat) {
    match r
    case Went(st') => Reaches(ck, natives, At(ip, st), Running(At(end, st')))
    case Failed(fault) => Reaches(ck, natives, At(ip, st), Faulted(fault))
    case Unfinished => Lasts(ck, natives, At(ip, st), n)
  }

  lemma ComesOn(ck: Chunk, natives: Natives, ip: nat, st: Store, ip1: nat, st1: Store, r: Course<Store>, end: nat,
                n: nat)
    requires Reaches(ck, natives, At(ip, st), Running(At(ip1, st1))) && Comes(ck, natives, ip1, st1, r, end, n)
    ensures Comes(ck, natives, ip, st, r, end, n)
  {
    match r
    case Went(st') => Chain(ck, natives, At(ip, st), At(ip1, st1), Running(At(end, st')));
    case Failed(fault) => Chain(ck, natives, At(ip, st), At(ip1, st1), Faulted(fault));
    case Unfinished => LastsAfter(ck, natives, At(ip, st), At(ip1, st1), n);
  }

  /** The code sits at `ip`, and its constants are the chunk's. */
  ghost predicate Loaded(ck: Chunk, ip: nat, code: seq<Byte>, constants: seq<Value>) {
    CodeAt(ck, ip, code) && Prefix(constants, ck.constants) && |ck.constants| <= 256
  }

  lemma LoadedParts(ck: Chunk, ip: nat, first: seq<Byte>, second: seq<Byte>, between: seq<Value>, constants: seq<Value>)
    requires Loaded(ck, ip, first + second, constants) && Prefix(between, constants)
    ensures Loaded(ck, ip, first, between) && Loaded(ck, ip + |first|, second, constants)
  {
    CodeAtParts(ck, ip, first, second);
    PrefixTransitive(between, constants, ck.constants);
  }

  lemma PrefixTransitive(a: seq<Value>, b: seq<Value>, c: seq<Value>)
    requires Prefix(a, b) && Prefix(b, c)
    ensures Prefix(a, c)
  {
  }

  lemma ConstantsKept(constants: seq<Value>, v: Value, all: seq<Value>)
    requires Prefix(constants + [v], all)
    ensures |constants| < |all| && all[|constants|] == v
  {
    assert v == (constants + [v])[|constants|];
  }

  // ---------------------------------------------------------------------------------------------
  // Single instructions
  // ---------------------------------------------------------------------------------------------

  lemma VarComes(name: string, names: seq<string>, constants: seq<Value>, ck: Chunk, natives: Natives, ip: nat,
                 st: Store, n: nat)
    requires |names| <= 256
    requires Loaded(ck, ip, GenVar(name, names, constants).code, GenVar(name, names, constants).constants)
    ensures Comes(ck, natives, ip, st, SlotVar(name, names, st), ip + 2, n)
  {
    match Resolve(names, name)
    case Some(i) => OperandAt(ck, natives, At(ip, st), OpGetLocal, Operand(i));
    case None =>
      ConstantsKept(constants, Str(name), ck.constants);
      OperandAt(ck, natives, At(ip, st), OpGetGlobal, Operand(|constants|));
  }

  lemma AssignComes(name: string, names: seq<string>, constants: seq<Value>, ck: Chunk, natives: Natives, ip: nat,
                    st: Store, n: nat)
    requires |names| <= 256 && st.stack != []
    requires Loaded(ck, ip, AssignTarget(name, names, constants).code, AssignTarget(name, names, constants).constants)
    ensures Comes(ck, natives, ip, st, SlotAssign(name, names, st), ip + 2, n)
  {
    match Resolve(names, name)
    case Some(i) => OperandAt(ck, natives, At(ip, st), OpSetLocal, Operand(i));
    case None =>
      ConstantsKept(constants, Str(name), ck.constants);
      OperandAt(ck, natives, At(ip, st), OpSetGlobal, Operand(|constants|));
  }

  lemma PopComes(ck: Chunk, natives: Natives, ip: nat, st: Store)
    requires CodeAt(ck, ip, [OpByte(OpPop)]) && st.stack != []
    ensures Reaches(ck, natives, At(ip, st), Running(At(ip + 1, Pop(st))))
  {
    PlainAt(ck, natives, At(ip, st), OpPop);
  }

  lemma NegComes(ck: Chunk, natives: Natives, ip: nat, st: Store, n: nat)
    requires CodeAt(ck, ip, [OpByte(OpNegate)]) && st.stack != []
    ensures Comes(ck, natives, ip, st, Replace(st, 1, ApplyNegate(Top(st.stack))), ip + 1, n)
  {
    PlainAt(ck, natives, At(ip, st), OpNegate);
  }

  lemma BinComes(ck: Chunk, natives: Natives, ip: nat, op: BinOp, st: Store, n: nat)
    requires CodeAt(ck, ip, [OpByte(OpBinary(op))]) && |st.stack| >= 2
    ensures Comes(ck, natives, ip, st, SlotBinary(op, st), ip + 1, n)
  {
    PlainAt(ck, natives, At(ip, st), OpBinary(op));
  }

  lemma CallComes(ck: Chunk, natives: Natives, ip: nat, count: nat, st: Store, n: nat)
    requires CodeAt(ck, ip, [OpByte(OpCall), Operand(count)]) && count < 256 && count < |st.stack|
    ensures Comes(ck, natives, ip, st, SlotCall(count, st, natives), ip + 2, n)
  {
    OperandAt(ck, natives, At(ip, st), OpCall, Operand(count));
  }

  /** Where a conditional jump over `distance` bytes leads from `ip`; the condition stays. */
  function Branches(st: Store, op: Opcode, ip: nat, distance: nat): Status
    requires st.stack != []
  {
    if !Top(st.stack).Bool? then Faulted(WrongTypeForOperation)
    else if Top(st.stack).b == op.OpJumpIfTrue? then Running(At(ip + 3 + distance, st))
    else Running(At(ip + 3, st))
  }

  lemma TestComes(ck: Chunk, natives: Natives, ip: nat, op: Opcode, distance: nat, st: Store)
    requires op.OpJumpIfFalse? || op.OpJumpIfTrue?
    requires st.stack != [] && distance <= MAX_JUMP && CodeAt(ck, ip, [OpByte(op)] + JumpBytes(distance))
    ensures Reaches(ck, natives, At(ip, st), Branches(st, op, ip, distance))
  {
    JumpAt(ck, natives, At(ip, st), op, distance);
  }

  /** The jump of `&&` and `||`: past the right side, or into it with the left value popped. */
  lemma SkipComes(ck: Chunk, natives: Natives, ip: nat, op: Opcode, body: seq<Byte>, st: Store)
    requires op.OpJumpIfFalse? || op.OpJumpIfTrue?
    requires st.stack != [] && |body| + 1 <= MAX_JUMP && CodeAt(ck, ip, Skip(op, body))
    ensures CodeAt(ck, ip + 4, body)
    ensures var v := Top(st.stack);
            Reaches(ck, natives, At(ip, st),
                    if !v.Bool? then Faulted(WrongTypeForOperation)
                    else if v.b == op.OpJumpIfTrue? then Running(At(ip + 4 + |body|, st))
                    else Running(At(ip + 4, Pop(st))))
  {
    SkipParts(ck, ip, [OpByte(op)] + JumpBytes(|body| + 1), [OpByte(OpPop)], body);
    TestComes(ck, natives, ip, op, |body| + 1, st);
    if Top(st.stack).Bool? && Top(st.stack).b != op.OpJumpIfTrue? {
      PopComes(ck, natives, ip + 3, st);
      Chain(ck, natives, At(ip, st), At(ip + 3, st), Running(At(ip + 4, Pop(st))));
    }
  }

  lemma SkipParts(ck: Chunk, ip: nat, jump: seq<Byte>, pop: seq<Byte>, body: seq<Byte>)
    requires |jump| == 3 && |pop| == 1 && CodeAt(ck, ip, jump + pop + body)
    ensures CodeAt(ck, ip, jump) && CodeAt(ck, ip + 3, pop) && CodeAt(ck, ip + 4, body)
  {
    CodeAtParts(ck, ip, jump + pop, body);
    CodeAtParts(ck, ip, jump, pop);
  }

  // ---------------------------------------------------------------------------------------------
  // Expressions
  // ---------------------------------------------------------------------------------------------

  /**
    Every expression, from every stack: the code reaches its end with exactly the stack and the globals
    the expression leaves by slots, or stops with exactly its fault.
  */
  lemma {:induction false} ExprComes(e: Expr, names: seq<string>, constants: seq<Value>, ck: Chunk, natives: Natives,
                                     ip: nat, st: Store, n: nat)
    requires ExprFits(e, names, constants) && |names| <= 256
    requires Loaded(ck, ip, Gen(e, names, constants).code, Gen(e, names, constants).constants)
    ensures Comes(ck, natives, ip, st, SlotExpr(e, names, st, natives), ip + |Gen(e, names, constants).code|, n)
    decreases e, 1
  {
    match e
    case IntLit(k) => ConstantComes(Integer(LiteralValue(k)), constants, ck, natives, ip, st);
    case StrLit(s) => ConstantComes(Str(s), constants, ck, natives, ip, st);
    case BoolLit(b) => PlainAt(ck, natives, At(ip, st), if b then OpTrue else OpFalse);
    case Var(name) => VarComes(name, names, constants, ck, natives, ip, st, n);
    case Paren(e1) => ExprComes(e1, names, constants, ck, natives, ip, st, n);
    case Neg(_) => NegativeComes(e, names, constants, ck, natives, ip, st, n);
    case Bin(_, _, _) => BinaryComes(e, names, constants, ck, natives, ip, st, n);
    case And(l, r) => ShortCircuitComes(e, l, r, OpJumpIfFalse, names, constants, ck, natives, ip, st, n);
    case Or(l, r) => ShortCircuitComes(e, l, r, OpJumpIfTrue, names, constants, ck, natives, ip, st, n);
    case Assign(_, _) => AssignmentComes(e, names, constants, ck, natives, ip, st, n);
    case Call(_, _, _) => CallingComes(e, names, constants, ck, natives, ip, st, n);
  }

  lemma ConstantComes(v: Value, constants: seq<Value>, ck: Chunk, natives: Natives, ip: nat, st: Store)
    requires Loaded(ck, ip, PushConstant(OpConstant, v, constants).code, constants + [v])
    ensures Reaches(ck, natives, At(ip, st), Running(At(ip + 2, Push(st, v))))
  {
    ConstantsKept(constants, v, ck.constants);
    OperandAt(ck, natives, At(ip, st), OpConstant, Operand(|constants|));
  }

  lemma {:induction false} NegativeComes(e: Expr, names: seq<string>, constants: seq<Value>, ck: Chunk,
                                         natives: Natives,
                                         ip: nat, st: Store, n: nat)
    requires e.Neg? && ExprFits(e, names, constants) && |names| <= 256
    requires Loaded(ck, ip, Gen(e, names, constants).code, Gen(e, names, constants).constants)
    ensures Comes(ck, natives, ip, st, SlotExpr(e, names, st, natives), ip + |Gen(e, names, constants).code|, n)
    decreases e, 0
  {
    var c := Gen(e.e, names, constants);
    LoadedParts(ck, ip, c.code, [OpByte(OpNegate)], c.constants, c.constants);
    ExprComes(e.e, names, constants, ck, natives, ip, st, n);
    match SlotExpr(e.e, names, st, natives)
    case Went(s1) =>
      NegComes(ck, natives, ip + |c.code|, s1, n);
      ComesOn(ck, natives, ip, st, ip + |c.code|, s1, Replace(s1, 1, ApplyNegate(Top(s1.stack))), ip + |c.code| + 1, n);
    case _ =>
  }

  lemma {:induction false} BinaryComes(e: Expr, names: seq<string>, constants: seq<Value>, ck: Chunk, natives: Natives,
                                       ip: nat, st: Store, n: nat)
    requires e.Bin? && ExprFits(e, names, constants) && |names| <= 256
    requires Loaded(ck, ip, Gen(e, names, constants).code, Gen(e, names, constants).constants)
    ensures Comes(ck, natives, ip, st, SlotExpr(e, names, st, natives), ip + |Gen(e, names, constants).code|, n)
    decreases e, 0
  {
    var c := Gen(e.l, names, constants);
    var d := Gen(e.r, names, c.constants);
    var op := [OpByte(OpBinary(e.op))];
    LoadedParts(ck, ip, c.code + d.code, op, d.constants, d.constants);
    LoadedParts(ck, ip, c.code, d.code, c.constants, d.constants);
    ExprComes(e.l, names, constants, ck, natives, ip, st, n);
    match SlotExpr(e.l, names, st, natives)
    case Went(s1) =>
      ExprComes(e.r, names, c.constants, ck, natives, ip + |c.code|, s1, n);
      BinaryEnds(ck, natives, ip + |c.code|, s1, SlotExpr(e.r, names, s1, natives), ip + |c.code| + |d.code|, e.op, n);
      ComesOn(ck, natives, ip, st, ip + |c.code|, s1, Operated(e.op, SlotExpr(e.r, names, s1, natives)),
              ip + |c.code| + |d.code| + 1, n);
    case _ =>
  }

  /** What a binary operator makes of its right operand's course, the left operand being below. */
  function Operated(op: BinOp, right: Course<Store>): Course<Store>
    requires right.Went? ==> |right.state.stack| >= 2
  {
    match right
    case Went(s2) => SlotBinary(op, s2)
    case other => other
  }

  lemma OperatorComes(ck: Chunk, natives: Natives, ip: nat, st: Store, end: nat, s2: Store, op: BinOp,
                      r: Course<Store>, n: nat)
    requires Reaches(ck, natives, At(ip, st), Running(At(end, s2))) && CodeAt(ck, end, [OpByte(OpBinary(op))])
    requires |s2.stack| >= 2 && r == SlotBinary(op, s2)
    ensures Comes(ck, natives, ip, st, r, end + 1, n)
  {
    BinComes(ck, natives, end, op, s2, n);
    ComesOn(ck, natives, ip, st, end, s2, r, end + 1, n);
  }

  lemma BinaryEnds(ck: Chunk, natives: Natives, ip: nat, st: Store, right: Course<Store>, end: nat, op: BinOp, n: nat)
    requires Comes(ck, natives, ip, st, right, end, n) && CodeAt(ck, end, [OpByte(OpBinary(op))])
    requires right.Went? ==> |right.state.stack| >= 2
    ensures Comes(ck, natives, ip, st, Operated(op, right), end + 1, n)
  {
    match right
    case Went(s2) =>
      OperatorComes(ck, natives, ip, st, end, s2, op, SlotBinary(op, s2), n);
    case _ =>
  }

  lemma {:induction false} ShortCircuitComes(e: Expr, l: Expr, r: Expr, op: Opcode, names: seq<string>,
                                             constants: seq<Value>, ck: Chunk, natives: Natives, ip: nat, st: Store, n: nat)
    requires (e == And(l, r) && op.OpJumpIfFalse?) || (e == Or(l, r) && op.OpJumpIfTrue?)
    requires ExprFits(e, names, constants) && |names| <= 256
    requires Loaded(ck, ip, Gen(e, names, constants).code, Gen(e, names, constants).constants)
    ensures Comes(ck, natives, ip, st, SlotExpr(e, names, st, natives), ip + |Gen(e, names, constants).code|, n)
    decreases e, 0
  {
    var c := Gen(l, names, constants);
    var d := Gen(r, names, c.constants);
    LoadedParts(ck, ip, c.code, Skip(op, d.code), c.constants, d.constants);
    ExprComes(l, names, constants, ck, natives, ip, st, n);
    match SlotExpr(l, names, st, natives)
    case Went(s1) =>
      RightComes(r, op, names, c.constants, ck, natives, ip + |c.code|, s1, n);
      ComesOn(ck, natives, ip, st, ip + |c.code|, s1, RightSide(r, op, names, s1, natives),
              ip + |c.code| + 4 + |d.code|, n);
    case _ =>
  }

  /** What `&&` and `||` make of the value of their left side, which is on top. */
  function RightSide(r: Expr, op: Opcode, names: seq<string>, st: Store, natives: Natives): Course<Store>
    requires st.stack != []
  {
    if !Top(st.stack).Bool? then Failed(WrongTypeForOperation)
    else if Top(st.stack).b == op.OpJumpIfTrue? then Went(st)
    else SlotExpr(r, names, Pop(st), natives)
  }

  lemma {:induction false} RightComes(r: Expr, op: Opcode, names: seq<string>, constants: seq<Value>, ck: Chunk,
                                      natives: Natives, ip: nat, st: Store, n: nat)
    requires (op.OpJumpIfFalse? || op.OpJumpIfTrue?) && st.stack != [] && |names| <= 256
    requires ExprFits(r, names, constants) && |Gen(r, names, constants).code| + 1 <= MAX_JUMP
    requires Loaded(ck, ip, Skip(op, Gen(r, names, constants).code), Gen(r, names, constants).constants)
    ensures Comes(ck, natives, ip, st, RightSide(r, op, names, st, natives), ip + 4 + |Gen(r, names, constants).code|, n)
    decreases r, 2
  {
    var d := Gen(r, names, constants);
    SkipComes(ck, natives, ip, op, d.code, st);
    if Top(st.stack).Bool? && Top(st.stack).b != op.OpJumpIfTrue? {
      ExprComes(r, names, constants, ck, natives, ip + 4, Pop(st), n);
      ComesOn(ck, natives, ip, st, ip + 4, Pop(st), SlotExpr(r, names, Pop(st), natives), ip + 4 + |d.code|, n);
    }
  }

  lemma {:induction false} AssignmentComes(e: Expr, names: seq<string>, constants: seq<Value>, ck: Chunk,
                                           natives: Natives,
                                           ip: nat, st: Store, n: nat)
    requires e.Assign? && ExprFits(e, names, constants) && |names| <= 256
    requires Loaded(ck, ip, Gen(e, names, constants).code, Gen(e, names, constants).constants)
    ensures Comes(ck, natives, ip, st, SlotExpr(e, names, st, natives), ip + |Gen(e, names, constants).code|, n)
    decreases e, 0
  {
    var t := AssignTarget(e.name, names, constants);
    var c := Gen(e.e, names, t.constants);
    LoadedParts(ck, ip, c.code, t.code, c.constants, c.constants);
    ExprComes(e.e, names, t.constants, ck, natives, ip, st, n);
    match SlotExpr(e.e, names, st, natives)
    case Went(s1) =>
      PrefixTransitive(t.constants, c.constants, ck.constants);
      AssignComes(e.name, names, constants, ck, natives, ip + |c.code|, s1, n);
      ComesOn(ck, natives, ip, st, ip + |c.code|, s1, SlotAssign(e.name, names, s1), ip + |c.code| + 2, n);
    case _ =>
  }

  lemma {:induction false} CallingComes(e: Expr, names: seq<string>, constants: seq<Value>, ck: Chunk, natives: Natives,
                                        ip: nat, st: Store, n: nat)
    requires e.Call? && ExprFits(e, names, constants) && |names| <= 256
    requires Loaded(ck, ip, Gen(e, names, constants).code, Gen(e, names, constants).constants)
    ensures Comes(ck, natives, ip, st, SlotExpr(e, names, st, natives), ip + |Gen(e, names, constants).code|, n)
    decreases e, 0
  {
    var c := Gen(e.f, names, constants);
    var d := GenArgs(e.args, names, c.constants);
    LoadedParts(ck, ip, c.code + d.code, [OpByte(OpCall), Operand(|e.args|)], d.constants, d.constants);
    LoadedParts(ck, ip, c.code, d.code, c.constants, d.constants);
    ExprComes(e.f, names, constants, ck, natives, ip, st, n);
    match SlotExpr(e.f, names, st, natives)
    case Went(s1) =>
      ArgsCome(e.args, names, c.constants, ck, natives, ip + |c.code|, s1, n);
      CallEnds(ck, natives, ip + |c.code|, s1, SlotArgs(e.args, names, s1, natives), ip + |c.code| + |d.code|, |e.args|, n);
      ComesOn(ck, natives, ip, st, ip + |c.code|, s1, Called(|e.args|, SlotArgs(e.args, names, s1, natives), natives),
              ip + |c.code| + |d.code| + 2, n);
    case _ =>
  }

  function Called(count: nat, args: Course<Store>, natives: Natives): Course<Store>
    requires args.Went? ==> count < |args.state.stack|
  {
    match args
    case Went(s2) => SlotCall(count, s2, natives)
    case other => other
  }

  lemma CallEnds(ck: Chunk, natives: Natives, ip: nat, st: Store, args: Course<Store>, end: nat, count: nat, n: nat)
    requires Comes(ck, natives, ip, st, args, end, n) && CodeAt(ck, end, [OpByte(OpCall), Operand(count)]) && count < 256
    requires args.Went? ==> count < |args.state.stack|
    ensures Comes(ck, natives, ip, st, Called(count, args, natives), end + 2, n)
  {
    match args
    case Went(s2) =>
      CallComes(ck, natives, end, count, s2, n);
      ComesOn(ck, natives, ip, st, end, s2, SlotCall(count, s2, natives), end + 2, n);
    case _ =>
  }

  lemma {:induction false} ArgsCome(args: seq<Expr>, names: seq<string>, constants: seq<Value>, ck: Chunk,
                                    natives: Natives, ip: nat, st: Store, n: nat)
    requires ArgsFit(args, names, constants) && |names| <= 256
    requires Loaded(ck, ip, GenArgs(args, names, constants).code, GenArgs(args, names, constants).constants)
    ensures Comes(ck, natives, ip, st, SlotArgs(args, names, st, natives), ip + |GenArgs(args, names, constants).code|, n)
    decreases args, 0
  {
    if args == [] {
      ReachesHere(ck, natives, At(ip, st));
    } else {
      var c := Gen(args[0], names, constants);
      var d := GenArgs(args[1..], names, c.constants);
      LoadedParts(ck, ip, c.code, d.code, c.constants, d.constants);
      ExprComes(args[0], names, constants, ck, natives, ip, st, n);
      match SlotExpr(args[0], names, st, natives)
      case Went(s1) =>
        ArgsCome(args[1..], names, c.constants, ck, natives, ip + |c.code|, s1, n);
        ComesOn(ck, natives, ip, st, ip + |c.code|, s1, SlotArgs(args[1..], names, s1, natives),
                ip + |c.code| + |d.code|, n);
      case _ =>
    }
  }
}
