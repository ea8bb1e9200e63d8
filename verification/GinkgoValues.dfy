/**
  Values of the Ginkgo language and the operators on them (ginkgo/src/vm.rs, ginkgo/src/object.rs).
  Functions written in Ginkgo are not part of this model; native functions are values named by a number.
*/
module GinkgoValues {

  type I64 = i: int | -0x8000_0000_0000_0000 <= i < 0x8000_0000_0000_0000

  datatype Value =
    | Unit
    | Integer(i: I64)
    | Bool(b: bool)
    | Str(s: string)
    | NativeFn(id: nat)

  /** The ways a run stops early: the errors `interpret` returns, and panics. */
  datatype Fault =
    | CannotNegateValue
    | NoSuchGlobal(name: string)
    | AssignToUndefined(name: string)
    | WrongTypeForOperation
    | ValueNotCallable
    | InvalidOpcodeInStream
    | Panic

  datatype Outcome<+T> = Ok(value: T) | Fail(fault: Fault)

  datatype BinOp =
    | Add | Subtract | Multiply | Divide
    | BitwiseAnd | BitwiseOr | BitwiseXor
    | Equal | NotEqual | LessThan | LessEqual | GreaterThan | GreaterEqual

  /** What a native function returns; its effects, if any, are outside the model. */
  type Natives = (nat, seq<Value>) -> Value

  predicate IsI64(i: int) {
    -0x8000_0000_0000_0000 <= i < 0x8000_0000_0000_0000
  }

  /** Integer results that do not fit stop the program, as checked arithmetic does. */
  function Checked(i: int): Outcome<Value> {
    if IsI64(i) then Ok(Integer(i)) else Fail(Panic)
  }

  /** Division rounds towards zero. */
  function Quotient(l: int, r: int): int
    requires r != 0
  {
    var q := (if l < 0 then -l else l) / (if r < 0 then -r else r);
    if (l < 0) == (r < 0) then q else -q
  }

  /** How a bitwise operator joins two bits. */
  predicate JoinBits(op: BinOp, a: bool, b: bool) {
    if op.BitwiseAnd? then a && b else if op.BitwiseOr? then a || b else a != b
  }

  /** The operator on numbers of `w` bits and a sign, in two's complement. */
  function Join(op: BinOp, a: int, b: int, w: nat): int
    decreases w
  {
    if w == 0 then (if JoinBits(op, a < 0, b < 0) then -1 else 0)
    else 2 * Join(op, a / 2, b / 2, w - 1) + (if JoinBits(op, a % 2 == 1, b % 2 == 1) then 1 else 0)
  }

  /** `Value::eq`: units are never equal, and comparing with a function on the left is not implemented. */
  function Equals(l: Value, r: Value): Outcome<bool> {
    match (l, r)
    case (Integer(i), Integer(j)) => Ok(i == j)
    case (Bool(a), Bool(b)) => Ok(a == b)
    case (Str(s), Str(t)) => Ok(s == t)
    case (Str(_), NativeFn(_)) => Ok(false)
    case (NativeFn(_), Str(_)) => Fail(Panic)
    case (NativeFn(_), NativeFn(_)) => Fail(Panic)
    case _ => Ok(false)
  }

  datatype Ordering = Less | Same | Greater | Unordered

  /** `Value::partial_cmp`: ordering two objects is not implemented. */
  function Compare(l: Value, r: Value): Outcome<Ordering> {
    match (l, r)
    case (Integer(i), Integer(j)) => Ok(if i < j then Less else if i == j then Same else Greater)
    case (Bool(a), Bool(b)) => Ok(if a == b then Same else if a then Greater else Less)
    case (Str(_), Str(_)) => Fail(Panic)
    case (Str(_), NativeFn(_)) => Fail(Panic)
    case (NativeFn(_), Str(_)) => Fail(Panic)
    case (NativeFn(_), NativeFn(_)) => Fail(Panic)
    case _ => Ok(Unordered)
  }

  function ApplyArithmetic(op: BinOp, l: I64, r: I64): Outcome<Value> {
    match op
    case Add => Checked(l + r)
    case Subtract => Checked(l - r)
    case Multiply => Checked(l * r)
    case Divide => if r == 0 then Fail(Panic) else Checked(Quotient(l, r))
    case _ => Checked(Join(op, l, r, 63))
  }

  predicate IsArithmetic(op: BinOp) {
    op.Add? || op.Subtract? || op.Multiply? || op.Divide? || op.BitwiseAnd? || op.BitwiseOr? || op.BitwiseXor?
  }

  /** `do_binary_op`. */
  function ApplyBinary(op: BinOp, l: Value, r: Value): Outcome<Value> {
    if IsArithmetic(op) then
      if l.Integer? && r.Integer? then ApplyArithmetic(op, l.i, r.i) else Fail(Panic)
    else if op.Equal? || op.NotEqual? then
      match Equals(l, r)
      case Fail(fault) => Fail(fault)
      case Ok(same) => Ok(Bool(same == op.Equal?))
    else
      match Compare(l, r)
      case Fail(fault) => Fail(fault)
      case Ok(order) =>
        Ok(Bool(match op
                case LessThan => order.Less?
                case LessEqual => order.Less? || order.Same?
                case GreaterThan => order.Greater?
                case _ => order.Greater? || order.Same?))
  }

  /** The `Negate` instruction. */
  function ApplyNegate(v: Value): Outcome<Value> {
    if v.Integer? then Checked(0 - v.i) else Fail(CannotNegateValue)
  }
}
