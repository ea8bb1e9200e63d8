/**
  The virtual machine object of ginkgo/src/vm.rs: `interpret` and its loop, with the instruction
  pointer, the stack and the globals updated in place, proved against `GinkgoMachine.Run`.
*/
module GinkgoVm {
  import opened Options
  import opened GinkgoValues
  import opened GinkgoCompile
  import opened GinkgoMachine

  /** How one turn of the loop ends. */
  datatype Turn = Continue | Break | Stopped(fault: Fault)

  /** At most `n` turns from `vm` come to `status`. */
  ghost predicate Ends(ck: Chunk, natives: Natives, vm: Vm, n: nat, status: Status) {
    forall c | c == ck :: Run(c, natives, vm, n) == status
  }

  /** A turn taken from a run that ends. */
  lemma EndsAfter(ck: Chunk, natives: Natives, vm: Vm, n: nat, next: Status, status: Status)
    requires Ends(ck, natives, vm, n, status) && !status.Running? && Steps(ck, natives, vm, next)
    ensures n > 0
    ensures next.Running? ==> Ends(ck, natives, next.vm, n - 1, status)
    ensures !next.Running? ==> next == status
  {
    assert Run(ck, natives, vm, n) == status && Step(ck, natives, vm) == next;
  }

  class Interpreter {
    var stack: seq<Value>
    var chunk: Chunk
    var ip: nat
    var globals: Globals

    function Now(): Vm
      reads this
    {
      Vm(ip, stack, globals)
    }

    function After(turn: Turn): Status
      reads this
    {
      match turn
      case Continue => Running(Now())
      case Break => Halted(Now())
      case Stopped(fault) => Faulted(fault)
    }

    constructor ()
      ensures stack == [] && globals == map[]
    {
      stack, chunk, ip, globals := [], Chunk([], []), 0, map[];
    }

    method DefineGlobal(name: string, value: Value)
      modifies this`globals
      ensures globals == old(globals)[name := value]
    {
      globals := globals[name := value];
    }

    method Push(v: Value)
      modifies this`stack
      ensures stack == old(stack) + [v]
    {
      stack := stack + [v];
    }

    method Pop() returns (v: Value)
      requires stack != []
      modifies this`stack
      ensures v == Top(old(stack)) && stack == Drop(old(stack), 1)
    {
      v := stack[|stack| - 1];
      stack := stack[..|stack| - 1];
    }

    /** `next`; running off the code is a panic. */
    method NextByte() returns (b: Option<Byte>)
      modifies this`ip
      ensures old(ip) < |chunk.code| ==> b == Some(chunk.code[old(ip)]) && ip == old(ip) + 1
      ensures old(ip) >= |chunk.code| ==> b == None && ip == old(ip)
    {
      if ip >= |chunk.code| {
        return None;
      }
      b := Some(chunk.code[ip]);
      ip := ip + 1;
    }

    method PushResult(o: Outcome<Value>) returns (turn: Turn)
      modifies this`stack
      ensures After(turn) == PushOutcome(old(Now()), ip, old(stack), o)
    {
      match o
      case Ok(v) =>
        Push(v);
        turn := Continue;
      case Fail(fault) => turn := Stopped(fault);
    }

    method DoBinaryOp(op: BinOp) returns (turn: Turn)
      requires ip > 0
      modifies this`stack
      ensures After(turn) == StepPlain(OpBinary(op), old(Now()).(ip := ip - 1))
    {
      if |stack| < 2 {
        return Stopped(Panic);
      }
      var right := Pop();
      var left := Pop();
      assert stack == Drop(old(stack), 2);
      turn := PushResult(ApplyBinary(op, left, right));
    }

    /** An instruction without operand; its opcode has been read. */
    method Plain(op: Opcode) returns (turn: Turn)
      requires ip > 0 && OperandBytes(op) == 0
      modifies this
      ensures chunk == old(chunk) && After(turn) == StepPlain(op, old(Now()).(ip := old(ip) - 1))
    {
      turn := Continue;
      match op
      case OpReturn => turn := Break;
      case OpTrue => Push(Bool(true));
      case OpFalse => Push(Bool(false));
      case OpUnit => Push(Unit);
      case OpNegate =>
        if stack == [] {
          return Stopped(Panic);
        }
        var v := Pop();
        turn := PushResult(ApplyNegate(v));
      case OpBinary(b) => turn := DoBinaryOp(b);
      case OpPop =>
        if stack == [] {
          return Stopped(Panic);
        }
        var _ := Pop();
      case OpDefineGlobal =>
        if |stack| < 2 || !stack[|stack| - 1].Str? {
          return Stopped(Panic);
        }
        var name := Pop();
        var value := Pop();
        assert stack == Drop(old(stack), 2);
        DefineGlobal(name.s, value);
    }

    /** An instruction with a one-byte operand; both have been read. */
    method WithOperand(op: Opcode, operand: Byte, natives: Natives) returns (turn: Turn)
      requires ip > 1 && OperandBytes(op) == 1
      modifies this
      ensures chunk == old(chunk)
      ensures After(turn) == StepOperand(op, chunk.constants, natives, old(Now()).(ip := old(ip) - 2), operand)
    {
      turn := Continue;
      match op
      case OpConstant =>
        if operand >= |chunk.constants| {
          return Stopped(Panic);
        }
        Push(chunk.constants[operand]);
      case OpGetGlobal => turn := GetGlobal(operand, natives);
      case OpSetGlobal => turn := SetGlobal(operand, natives);
      case OpGetLocal =>
        if operand >= |stack| {
          return Stopped(Panic);
        }
        Push(stack[operand]);
      case OpSetLocal =>
        if stack == [] || operand > |stack| {
          return Stopped(Panic);
        }
        stack := stack[..operand] + [stack[|stack| - 1]] + stack[operand..];
      case OpCall => turn := CallNative(operand, natives);
    }

    method GetGlobal(operand: Byte, ghost natives: Natives) returns (turn: Turn)
      requires ip > 1
      modifies this`stack
      ensures After(turn) == StepOperand(OpGetGlobal, chunk.constants, natives, old(Now()).(ip := ip - 2), operand)
    {
      if operand >= |chunk.constants| || !chunk.constants[operand].Str? {
        return Stopped(Panic);
      }
      var name := chunk.constants[operand].s;
      if name !in globals {
        return Stopped(NoSuchGlobal(name));
      }
      Push(globals[name]);
      turn := Continue;
    }

    /** The value stays on the stack; the global is inserted first and removed again if it was not there. */
    method SetGlobal(operand: Byte, ghost natives: Natives) returns (turn: Turn)
      requires ip > 1
      modifies this`stack, this`globals
      ensures After(turn) == StepOperand(OpSetGlobal, chunk.constants, natives, old(Now()).(ip := ip - 2), operand)
      ensures turn.Stopped? ==> globals == old(globals)
    {
      if stack == [] || operand >= |chunk.constants| || !chunk.constants[operand].Str? {
        return Stopped(Panic);
      }
      var value := Pop();
      var name := chunk.constants[operand].s;
      Push(value);
      assert stack == old(stack);
      var known := name in globals;
      globals := globals[name := value];
      if !known {
        globals := globals - {name};
        return Stopped(AssignToUndefined(name));
      }
      turn := Continue;
    }

    method CallNative(count: Byte, natives: Natives) returns (turn: Turn)
      requires ip > 1
      modifies this`stack
      ensures After(turn) == StepOperand(OpCall, chunk.constants, natives, old(Now()).(ip := ip - 2), count)
    {
      if |stack| < count + 1 {
        return Stopped(Panic);
      }
      var callee := stack[|stack| - count - 1];
      if !callee.NativeFn? {
        return Stopped(ValueNotCallable);
      }
      var value := natives(callee.id, stack[|stack| - count..]);
      stack := stack[..|stack| - count - 1];
      Push(value);
      turn := Continue;
    }

    /** A jump; its distance has been read. */
    method JumpBy(op: Opcode, distance: int) returns (turn: Turn)
      requires ip > 2 && OperandBytes(op) == 2
      modifies this`ip
      ensures After(turn) == StepJump(op, old(Now()).(ip := old(ip) - 3), distance)
    {
      if !op.OpJump? {
        if stack == [] {
          return Stopped(Panic);
        }
        var result := stack[|stack| - 1];
        if !result.Bool? {
          return Stopped(WrongTypeForOperation);
        }
        if result.b != op.OpJumpIfTrue? {
          return Continue;
        }
      }
      if ip + distance < 0 {
        return Stopped(Panic);
      }
      ip := ip + distance;
      turn := Continue;
    }

    /** One turn of the loop. */
    method Execute(natives: Natives) returns (turn: Turn)
      modifies this
      ensures chunk == old(chunk) && Steps(chunk, natives, old(Now()), After(turn))
    {
      ghost var vm := Now();
      var opcode := NextByte();
      if opcode.None? {
        StepsOff(chunk, natives, vm);
        return Stopped(Panic);
      }
      var op := OpcodeOf(opcode.value);
      if op.None? {
        StepsInvalid(chunk, natives, vm);
        return Stopped(InvalidOpcodeInStream);
      }
      if OperandBytes(op.value) == 0 {
        StepsPlain(chunk, natives, vm, op.value);
        turn := Plain(op.value);
        return;
      }
      turn := ExecuteOperands(op.value, natives, vm);
    }

    /** The opcode has been read and is followed by operands. */
    method ExecuteOperands(op: Opcode, natives: Natives, ghost vm: Vm) returns (turn: Turn)
      requires Now() == vm.(ip := vm.ip + 1) && OperandBytes(op) > 0
      requires vm.ip < |chunk.code| && OpcodeOf(chunk.code[vm.ip]) == Some(op)
      modifies this
      ensures chunk == old(chunk) && Steps(chunk, natives, vm, After(turn))
    {
      var low := NextByte();
      if low.None? {
        StepsOff(chunk, natives, vm);
        return Stopped(Panic);
      }
      if OperandBytes(op) == 1 {
        StepsOperand(chunk, natives, vm, op);
        turn := WithOperand(op, low.value, natives);
        return;
      }
      var high := NextByte();
      if high.None? {
        StepsOff(chunk, natives, vm);
        return Stopped(Panic);
      }
      StepsJump(chunk, natives, vm, op);
      turn := JumpBy(op, JumpDistance(low.value, high.value));
    }

    /**
      `interpret`, for a chunk whose run ends within `n` turns: it ends as the run ends. The stack and
      the globals are those left by earlier runs.
    */
    method Interpret(ck: Chunk, natives: Natives, ghost n: nat, ghost end: Status) returns (r: Outcome<Value>)
      requires Ends(ck, natives, Vm(0, stack, globals), n, end) && !end.Running?
      modifies this
      ensures end.Halted? ==> r == Ok(Unit) && Now() == end.vm
      ensures end.Faulted? ==> r == Fail(end.fault)
    {
      chunk := ck;
      ip := 0;
      ghost var left := n;
      while true
        invariant chunk == ck && Ends(ck, natives, Now(), left, end)
        decreases left
      {
        ghost var vm := Now();
        var turn := Execute(natives);
        EndsAfter(ck, natives, vm, left, After(turn), end);
        left := left - 1;
        match turn {
          case Continue =>
          case Break => return Ok(Unit);
          case Stopped(fault) => return Fail(fault);
        }
      }
    }
  }
}
