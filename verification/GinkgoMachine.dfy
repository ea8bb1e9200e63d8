/**
  The Ginkgo virtual machine (ginkgo/src/vm.rs) as a transition function, and a direct interpreter of
  the trees that knows nothing of stacks, slots, constants or jumps.
*/
module GinkgoMachine {
  import opened Options
  import opened GinkgoValues
  import opened GinkgoCompile

  type Globals = map<string, Value>

  // ---------------------------------------------------------------------------------------------
  // The machine
  // ---------------------------------------------------------------------------------------------

  /** The machine between two instructions, outside any call of a Ginkgo function. */
  datatype Vm = Vm(ip: nat, stack: seq<Value>, globals: Globals)

  datatype Status = Running(vm: Vm) | Halted(vm: Vm) | Faulted(fault: Fault)

  function Top(stack: seq<Value>): Value
    requires stack != []
  {
    stack[|stack| - 1]
  }

  function Drop(stack: seq<Value>, n: nat): seq<Value>
    requires n <= |stack|
  {
    stack[..|stack| - n]
  }

  /** Push the result of an operator on what is left of the stack. */
  function PushOutcome(vm: Vm, ip: nat, rest: seq<Value>, o: Outcome<Value>): Status {
    match o
    case Ok(v) => Running(vm.(ip := ip, stack := rest + [v]))
    case Fail(fault) => Faulted(fault)
  }

  /** An instruction with no operand. */
  function StepPlain(op: Opcode, vm: Vm): Status {
    var next := vm.ip + 1;
    match op
    case OpReturn => Halted(vm.(ip := next))
    case OpTrue => Running(vm.(ip := next, stack := vm.stack + [Bool(true)]))
    case OpFalse => Running(vm.(ip := next, stack := vm.stack + [Bool(false)]))
    case OpUnit => Running(vm.(ip := next, stack := vm.stack + [Unit]))
    case OpNegate =>
      if vm.stack == [] then Faulted(Panic)
      else PushOutcome(vm, next, Drop(vm.stack, 1), ApplyNegate(Top(vm.stack)))
    case OpBinary(b) =>
      if |vm.stack| < 2 then Faulted(Panic)
      else PushOutcome(vm, next, Drop(vm.stack, 2), ApplyBinary(b, vm.stack[|vm.stack| - 2], Top(vm.stack)))
    case OpPop => if vm.stack == [] then Faulted(Panic) else Running(vm.(ip := next, stack := Drop(vm.stack, 1)))
    case OpDefineGlobal =>
      if |vm.stack| < 2 || !Top(vm.stack).Str? then Faulted(Panic)
      else Running(Vm(next, Drop(vm.stack, 2), vm.globals[Top(vm.stack).s := vm.stack[|vm.stack| - 2]]))
    case _ => Faulted(Panic)
  }

  /** An instruction with a one-byte operand. */
  function StepOperand(op: Opcode, constants: seq<Value>, natives: Natives, vm: Vm, operand: Byte): Status {
    var next := vm.ip + 2;
    match op
    case OpConstant =>
      if operand < |constants| then Running(vm.(ip := next, stack := vm.stack + [constants[operand]])) else Faulted(Panic)
    case OpGetGlobal =>
      if operand >= |constants| || !constants[operand].Str? then Faulted(Panic)
      else if constants[operand].s in vm.globals then
        Running(vm.(ip := next, stack := vm.stack + [vm.globals[constants[operand].s]]))
      else Faulted(NoSuchGlobal(constants[operand].s))
    case OpSetGlobal =>
      if vm.stack == [] || operand >= |constants| || !constants[operand].Str? then Faulted(Panic)
      else if constants[operand].s in vm.globals then
        Running(vm.(ip := next, globals := vm.globals[constants[operand].s := Top(vm.stack)]))
      else Faulted(AssignToUndefined(constants[operand].s))
    case OpGetLocal =>
      if operand < |vm.stack| then Running(vm.(ip := next, stack := vm.stack + [vm.stack[operand]])) else Faulted(Panic)
    case OpSetLocal =>
      if vm.stack == [] || operand > |vm.stack| then Faulted(Panic)
      else Running(vm.(ip := next, stack := vm.stack[..operand] + [Top(vm.stack)] + vm.stack[operand..]))
    case OpCall =>
      if |vm.stack| < operand + 1 then Faulted(Panic)
      else
        var callee := vm.stack[|vm.stack| - operand - 1];
        if callee.NativeFn? then
          Running(vm.(ip := next,
                      stack := Drop(vm.stack, operand + 1) + [natives(callee.id, vm.stack[|vm.stack| - operand..])]))
        else Faulted(ValueNotCallable)
    case _ => Faulted(Panic)
  }

  function Jump(vm: Vm, target: int): Status {
    if target < 0 then Faulted(Panic) else Running(vm.(ip := target))
  }

  /** A jump: the distance counts from after its operand, and the condition stays on the stack. */
  function StepJump(op: Opcode, vm: Vm, distance: int): Status {
    var next := vm.ip + 3;
    match op
    case OpJump => Jump(vm, next + distance)
    case _ =>
      if vm.stack == [] then Faulted(Panic)
      else if !Top(vm.stack).Bool? then Faulted(WrongTypeForOperation)
      else if Top(vm.stack).b == op.OpJumpIfTrue? then Jump(vm, next + distance)
      else Running(vm.(ip := next))
  }

  /** One turn of the loop of `interpret`. */
  function Step(ck: Chunk, natives: Natives, vm: Vm): Status {
    if vm.ip >= |ck.code| then Faulted(Panic)
    else
      match OpcodeOf(ck.code[vm.ip])
      case None => Faulted(InvalidOpcodeInStream)
      case Some(op) =>
        if vm.ip + OperandBytes(op) >= |ck.code| then Faulted(Panic)
        else if OperandBytes(op) == 0 then StepPlain(op, vm)
        else if OperandBytes(op) == 1 then StepOperand(op, ck.constants, natives, vm, ck.code[vm.ip + 1])
        else StepJump(op, vm, JumpDistance(ck.code[vm.ip + 1], ck.code[vm.ip + 2]))
  }

  /** One turn from `vm` comes to `status`. (The bound variable keeps the verifier from unfolding the step.) */
  ghost predicate Steps(ck: Chunk, natives: Natives, vm: Vm, status: Status) {
    forall c | c == ck :: Step(c, natives, vm) == status
  }

  lemma StepsPlain(ck: Chunk, natives: Natives, vm: Vm, op: Opcode)
    requires vm.ip < |ck.code| && OpcodeOf(ck.code[vm.ip]) == Some(op) && OperandBytes(op) == 0
    ensures Steps(ck, natives, vm, StepPlain(op, vm))
  {
  }

  lemma StepsOperand(ck: Chunk, natives: Natives, vm: Vm, op: Opcode)
    requires vm.ip + 1 < |ck.code| && OpcodeOf(ck.code[vm.ip]) == Some(op) && OperandBytes(op) == 1
    ensures Steps(ck, natives, vm, StepOperand(op, ck.constants, natives, vm, ck.code[vm.ip + 1]))
  {
  }

  lemma StepsJump(ck: Chunk, natives: Natives, vm: Vm, op: Opcode)
    requires vm.ip + 2 < |ck.code| && OpcodeOf(ck.code[vm.ip]) == Some(op) && OperandBytes(op) == 2
    ensures Steps(ck, natives, vm, StepJump(op, vm, JumpDistance(ck.code[vm.ip + 1], ck.code[vm.ip + 2])))
  {
  }

  lemma StepsInvalid(ck: Chunk, natives: Natives, vm: Vm)
    requires vm.ip < |ck.code| && OpcodeOf(ck.code[vm.ip]) == None
    ensures Steps(ck, natives, vm, Faulted(InvalidOpcodeInStream))
  {
  }

  /** An instruction that is cut off by the end of the code. */
  lemma StepsOff(ck: Chunk, natives: Natives, vm: Vm)
    requires vm.ip >= |ck.code| || (OpcodeOf(ck.code[vm.ip]).Some? && vm.ip + OperandBytes(OpcodeOf(ck.code[vm.ip]).value) >= |ck.code|)
    ensures Steps(ck, natives, vm, Faulted(Panic))
  {
  }

  /** Up to `n` turns of the loop. */
  function Run(ck: Chunk, natives: Natives, vm: Vm, n: nat): Status
    decreases n
  {
    if n == 0 then Running(vm)
    else
      match Step(ck, natives, vm)
      case Running(vm') => Run(ck, natives, vm', n - 1)
      case other => other
  }

  lemma {:induction false} RunOn(ck: Chunk, natives: Natives, vm: Vm, n: nat, m: nat)
    ensures Run(ck, natives, vm, n + m)
            == match Run(ck, natives, vm, n)
               case Running(vm') => Run(ck, natives, vm', m)
               case other => other
    decreases n
  {
    if n > 0 {
      var status := Step(ck, natives, vm);
      if status.Running? {
        RunOn(ck, natives, status.vm, n - 1, m);
        assert Run(ck, natives, vm, n) == Run(ck, natives, status.vm, n - 1);
        assert Run(ck, natives, vm, n + m) == Run(ck, natives, status.vm, n - 1 + m);
      }
    }
  }

  lemma {:induction false} StillRunning(ck: Chunk, natives: Natives, vm: Vm, k: nat, n: nat)
    requires n <= k && Run(ck, natives, vm, k).Running?
    ensures Run(ck, natives, vm, n).Running?
    decreases n
  {
    if n > 0 {
      StillRunning(ck, natives, Step(ck, natives, vm).vm, k - 1, n - 1);
    }
  }

  // ---------------------------------------------------------------------------------------------
  // The interpreter of trees
  // ---------------------------------------------------------------------------------------------

  datatype Binding = Binding(name: string, value: Value)

  type Env = seq<Binding>

  /** The innermost binding of that name. */
  function Lookup(env: Env, name: string): Option<Value> {
    if env == [] then None
    else if env[|env| - 1].name == name then Some(env[|env| - 1].value)
    else Lookup(env[..|env| - 1], name)
  }

  datatype Result<+T> = Done(value: T, globals: Globals) | Stop(fault: Fault)

  function Lift(o: Outcome<Value>, globals: Globals): Result<Value> {
    match o
    case Ok(v) => Done(v, globals)
    case Fail(fault) => Stop(fault)
  }

  /** The value of an expression and the globals after it. Assignment is to globals. */
  function EvalExpr(e: Expr, env: Env, globals: Globals, natives: Natives): Result<Value>
    decreases e
  {
    match e
    case IntLit(n) => Done(Integer(LiteralValue(n)), globals)
    case StrLit(s) => Done(Str(s), globals)
    case BoolLit(b) => Done(Bool(b), globals)
    case Var(name) =>
      (match Lookup(env, name)
       case Some(v) => Done(v, globals)
       case None => if name in globals then Done(globals[name], globals) else Stop(NoSuchGlobal(name)))
    case Neg(e1) =>
      (match EvalExpr(e1, env, globals, natives)
       case Stop(fault) => Stop(fault)
       case Done(v, g) => Lift(ApplyNegate(v), g))
    case Bin(op, l, r) =>
      (match EvalExpr(l, env, globals, natives)
       case Stop(fault) => Stop(fault)
       case Done(a, g) =>
         match EvalExpr(r, env, g, natives)
         case Stop(fault) => Stop(fault)
         case Done(b, h) => Lift(ApplyBinary(op, a, b), h))
    case And(l, r) =>
      (match EvalExpr(l, env, globals, natives)
       case Stop(fault) => Stop(fault)
       case Done(v, g) =>
         if !v.Bool? then Stop(WrongTypeForOperation)
         else if !v.b then Done(v, g)
         else EvalExpr(r, env, g, natives))
    case Or(l, r) =>
      (match EvalExpr(l, env, globals, natives)
       case Stop(fault) => Stop(fault)
       case Done(v, g) =>
         if !v.Bool? then Stop(WrongTypeForOperation)
         else if v.b then Done(v, g)
         else EvalExpr(r, env, g, natives))
    case Paren(e1) => EvalExpr(e1, env, globals, natives)
    case Assign(name, e1) =>
      (match EvalExpr(e1, env, globals, natives)
       case Stop(fault) => Stop(fault)
       case Done(v, g) => if name in g then Done(v, g[name := v]) else Stop(AssignToUndefined(name)))
    case Call(f, args, _) =>
      match EvalExpr(f, env, globals, natives)
      case Stop(fault) => Stop(fault)
      case Done(callee, g) =>
        match EvalArgs(args, env, g, natives)
        case Stop(fault) => Stop(fault)
        case Done(vs, h) =>
          if callee.NativeFn? then Done(natives(callee.id, vs), h) else Stop(ValueNotCallable)
  }

  function EvalArgs(args: seq<Expr>, env: Env, globals: Globals, natives: Natives): Result<seq<Value>>
    decreases args
  {
    if args == [] then Done([], globals)
    else
      match EvalExpr(args[0], env, globals, natives)
      case Stop(fault) => Stop(fault)
      case Done(v, g) =>
        match EvalArgs(args[1..], env, g, natives)
        case Stop(fault) => Stop(fault)
        case Done(vs, h) => Done([v] + vs, h)
  }

  // ---------------------------------------------------------------------------------------------
  // Statements
  // ---------------------------------------------------------------------------------------------

  /** What becomes of a statement. `Unfinished` says that some loop takes more rounds than were allowed. */
  datatype Course<+S> = Went(state: S) | Failed(fault: Fault) | Unfinished

  /** The bindings in scope, and the globals. */
  datatype Scene = Scene(env: Env, globals: Globals)

  /** Leaving a braced sequence: its own bindings are gone. */
  function LeaveBraces(r: Course<Scene>, env: Env): Course<Scene> {
    match r
    case Went(sc) => Went(Scene(env, sc.globals))
    case other => other
  }

  /** A statement, with at most `n` rounds for every loop. */
  function ExecStmt(s: Stmt, top: bool, env: Env, globals: Globals, natives: Natives, n: nat): Course<Scene>
    decreases n, s
  {
    match s
    case Let(name, e) =>
      (match EvalExpr(e, env, globals, natives)
       case Stop(fault) => Failed(fault)
       case Done(v, g) =>
         if top then Went(Scene(env, g[name := v])) else Went(Scene(env + [Binding(name, v)], g)))
    case Block(body) => LeaveBraces(ExecStmts(body, false, env, globals, natives, n), env)
    case If(cond, thn, els) =>
      (match EvalExpr(cond, env, globals, natives)
       case Stop(fault) => Failed(fault)
       case Done(v, g) =>
         if !v.Bool? then Failed(WrongTypeForOperation)
         else if v.b then LeaveBraces(ExecStmts(thn, false, env, g, natives, n), env)
         else LeaveBraces(ExecBranch(els, env, g, natives, n), env))
    case While(cond, body) =>
      if n == 0 then Unfinished
      else
        (match EvalExpr(cond, env, globals, natives)
         case Stop(fault) => Failed(fault)
         case Done(v, g) =>
           if !v.Bool? then Failed(WrongTypeForOperation)
           else if !v.b then Went(Scene(env, g))
           else
             match ExecStmts(body, false, env, g, natives, n - 1)
             case Went(sc) => ExecStmt(s, top, env, sc.globals, natives, n - 1)
             case other => other)
    case Eval(e) =>
      match EvalExpr(e, env, globals, natives)
      case Stop(fault) => Failed(fault)
      case Done(_, g) => Went(Scene(env, g))
  }

  function ExecBranch(b: Branch, env: Env, globals: Globals, natives: Natives, n: nat): Course<Scene>
    decreases n, b
  {
    match b
    case NoElse => Went(Scene(env, globals))
    case Else(body) => ExecStmts(body, false, env, globals, natives, n)
  }

  function ExecStmts(body: seq<Stmt>, top: bool, env: Env, globals: Globals, natives: Natives, n: nat): Course<Scene>
    decreases n, body
  {
    if body == [] then Went(Scene(env, globals))
    else
      match ExecStmt(body[0], top, env, globals, natives, n)
      case Went(sc) => ExecStmts(body[1..], top, sc.env, sc.globals, natives, n)
      case other => other
  }
}
