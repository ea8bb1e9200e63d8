/**
  The Ginkgo language as trees, and the bytecode the one-pass parser (ginkgo/src/parse.rs) emits for
  each tree. Jumps are relative and constants are only ever appended, so the code of a tree depends on
  the names in scope and on the constants so far, and not on where it is put.

  The fragment is: literals, variables, unary minus, binary operators, short-circuit operators,
  assignment, native calls; `let`, blocks, `if`/`else`, `while` and expression statements ended by a semicolon.
  Trees keep the parentheses they were written with, and for each argument of a call whether a comma
  follows it where none is needed; neither makes a difference to the code.
*/
module GinkgoCompile {
  import opened Options
  import opened GinkgoValues

  datatype Expr =
    | IntLit(n: nat)
    | StrLit(s: string)
    | BoolLit(b: bool)
    | Var(name: string)
    | Neg(e: Expr)
    | Bin(op: BinOp, l: Expr, r: Expr)
    | And(l: Expr, r: Expr)
    | Or(l: Expr, r: Expr)
    | Assign(name: string, e: Expr)
    | Call(f: Expr, args: seq<Expr>, commas: seq<bool>)
    | Paren(e: Expr)

  datatype Stmt =
    | Let(name: string, e: Expr)
    | Block(body: seq<Stmt>)
    | If(cond: Expr, thn: seq<Stmt>, els: Branch)
    | While(cond: Expr, body: seq<Stmt>)
    | Eval(e: Expr)

  datatype Branch = NoElse | Else(body: seq<Stmt>)

  // ---------------------------------------------------------------------------------------------
  // Instructions
  // ---------------------------------------------------------------------------------------------

  type Byte = b: nat | b < 256

  datatype Opcode =
    | OpReturn | OpConstant | OpNegate | OpBinary(op: BinOp) | OpTrue | OpFalse | OpPop
    | OpDefineGlobal | OpGetGlobal | OpSetGlobal | OpGetLocal | OpSetLocal
    | OpJump | OpJumpIfTrue | OpJumpIfFalse | OpCall | OpUnit

  function BinaryByte(op: BinOp): Byte {
    match op
    case Add => 3
    case Subtract => 4
    case Multiply => 5
    case Divide => 6
    case BitwiseAnd => 9
    case BitwiseOr => 10
    case BitwiseXor => 11
    case Equal => 12
    case NotEqual => 13
    case LessThan => 14
    case LessEqual => 15
    case GreaterThan => 16
    case GreaterEqual => 17
  }

  function OpByte(op: Opcode): Byte {
    match op
    case OpReturn => 0
    case OpConstant => 1
    case OpNegate => 2
    case OpBinary(b) => BinaryByte(b)
    case OpTrue => 7
    case OpFalse => 8
    case OpPop => 18
    case OpDefineGlobal => 19
    case OpGetGlobal => 20
    case OpSetGlobal => 21
    case OpGetLocal => 22
    case OpSetLocal => 23
    case OpJump => 24
    case OpJumpIfTrue => 25
    case OpJumpIfFalse => 26
    case OpCall => 27
    case OpUnit => 28
  }

  /** `Opcode::try_from`. */
  function OpcodeOf(b: Byte): Option<Opcode> {
    match b
    case 0 => Some(OpReturn)
    case 1 => Some(OpConstant)
    case 2 => Some(OpNegate)
    case 3 => Some(OpBinary(Add))
    case 4 => Some(OpBinary(Subtract))
    case 5 => Some(OpBinary(Multiply))
    case 6 => Some(OpBinary(Divide))
    case 7 => Some(OpTrue)
    case 8 => Some(OpFalse)
    case 9 => Some(OpBinary(BitwiseAnd))
    case 10 => Some(OpBinary(BitwiseOr))
    case 11 => Some(OpBinary(BitwiseXor))
    case 12 => Some(OpBinary(Equal))
    case 13 => Some(OpBinary(NotEqual))
    case 14 => Some(OpBinary(LessThan))
    case 15 => Some(OpBinary(LessEqual))
    case 16 => Some(OpBinary(GreaterThan))
    case 17 => Some(OpBinary(GreaterEqual))
    case 18 => Some(OpPop)
    case 19 => Some(OpDefineGlobal)
    case 20 => Some(OpGetGlobal)
    case 21 => Some(OpSetGlobal)
    case 22 => Some(OpGetLocal)
    case 23 => Some(OpSetLocal)
    case 24 => Some(OpJump)
    case 25 => Some(OpJumpIfTrue)
    case 26 => Some(OpJumpIfFalse)
    case 27 => Some(OpCall)
    case 28 => Some(OpUnit)
    case _ => None
  }

  /** Every instruction is read back as it was written. */
  lemma OpcodeRoundTrip(op: Opcode)
    ensures OpcodeOf(OpByte(op)) == Some(op)
  {
  }

  /** Bytes that follow the opcode. */
  function OperandBytes(op: Opcode): nat {
    match op
    case OpConstant | OpGetGlobal | OpSetGlobal | OpGetLocal | OpSetLocal | OpCall => 1
    case OpJump | OpJumpIfTrue | OpJumpIfFalse => 2
    case _ => 0
  }

  const MAX_JUMP: nat := 0x7FFF

  /** `i16::to_le_bytes` of a forward distance. */
  function JumpBytes(distance: nat): seq<Byte>
    requires distance <= MAX_JUMP
  {
    [distance % 256, distance / 256]
  }

  const MAX_BACK: nat := 0x8000

  /** `i16::to_le_bytes` of a distance backwards. */
  function BackBytes(distance: nat): seq<Byte>
    requires 1 <= distance <= MAX_BACK
  {
    [(0x1_0000 - distance) % 256, (0x1_0000 - distance) / 256]
  }

  /** `i16::from_le_bytes`. */
  function JumpDistance(low: Byte, high: Byte): int {
    var n := low + 256 * high;
    if n <= MAX_JUMP then n else n - 0x1_0000
  }

  lemma JumpRoundTrip(distance: nat)
    requires distance <= MAX_JUMP
    ensures JumpDistance(distance % 256, distance / 256) == distance
  {
  }

  lemma BackRoundTrip(distance: nat)
    requires 1 <= distance <= MAX_BACK
    ensures JumpDistance(BackBytes(distance)[0], BackBytes(distance)[1]) + distance == 0
  {
  }

  // ---------------------------------------------------------------------------------------------
  // Code generation
  // ---------------------------------------------------------------------------------------------

  datatype Chunk = Chunk(code: seq<Byte>, constants: seq<Value>)

  predicate Prefix<T(==)>(a: seq<T>, b: seq<T>) {
    |a| <= |b| && forall i | 0 <= i < |a| :: a[i] == b[i]
  }

  lemma Associate<T>(a: seq<T>, b: seq<T>, c: seq<T>)
    ensures a + (b + c) == a + b + c
  {
  }

  /** A constant's or a local's index becomes a one-byte operand by truncation. */
  function Operand(i: nat): Byte {
    i % 256
  }

  /** The innermost local of that name. */
  function Resolve(names: seq<string>, name: string): Option<nat>
    ensures Resolve(names, name).Some? ==> Resolve(names, name).value < |names|
    ensures Resolve(names, name).Some? <==> name in names
  {
    if names == [] then None
    else if names[|names| - 1] == name then Some(|names| - 1)
    else Resolve(names[..|names| - 1], name)
  }

  /** A `usize` literal cast to `i64`. */
  function LiteralValue(n: nat): I64 {
    var m := n % 0x1_0000_0000_0000_0000;
    if m < 0x8000_0000_0000_0000 then m else m - 0x1_0000_0000_0000_0000
  }

  function PushConstant(op: Opcode, v: Value, constants: seq<Value>): Chunk {
    Chunk([OpByte(op), Operand(|constants|)], constants + [v])
  }

  /** Code for a jump over `body`, the condition being popped if the jump is not taken. */
  function Skip(op: Opcode, body: seq<Byte>): seq<Byte>
    requires |body| + 1 <= MAX_JUMP
  {
    [OpByte(op)] + JumpBytes(|body| + 1) + [OpByte(OpPop)] + body
  }

  /** All jumps in the code of `e` reach no further than an `i16` can say; calls have fewer than 256 arguments. */
  predicate ExprFits(e: Expr, names: seq<string>, constants: seq<Value>) {
    match e
    case Neg(e1) => ExprFits(e1, names, constants)
    case Paren(e1) => ExprFits(e1, names, constants)
    case Bin(_, l, r) => ExprFits(l, names, constants) && ExprFits(r, names, Gen(l, names, constants).constants)
    case And(l, r) =>
      && ExprFits(l, names, constants) && ExprFits(r, names, Gen(l, names, constants).constants)
      && |Gen(r, names, Gen(l, names, constants).constants).code| + 1 <= MAX_JUMP
    case Or(l, r) =>
      && ExprFits(l, names, constants) && ExprFits(r, names, Gen(l, names, constants).constants)
      && |Gen(r, names, Gen(l, names, constants).constants).code| + 1 <= MAX_JUMP
    case Assign(name, e1) => ExprFits(e1, names, AssignTarget(name, names, constants).constants)
    case Call(f, args, _) =>
      && |args| < 256
      && ExprFits(f, names, constants) && ArgsFit(args, names, Gen(f, names, constants).constants)
    case _ => true
  }

  predicate ArgsFit(args: seq<Expr>, names: seq<string>, constants: seq<Value>) {
    args == [] ||
    (ExprFits(args[0], names, constants) && ArgsFit(args[1..], names, Gen(args[0], names, constants).constants))
  }

  /** Reading the variable: what the identifier parselet emits. */
  function GenVar(name: string, names: seq<string>, constants: seq<Value>): Chunk {
    match Resolve(names, name)
    case Some(i) => Chunk([OpByte(OpGetLocal), Operand(i)], constants)
    case None => PushConstant(OpGetGlobal, Str(name), constants)
  }

  /** The instruction that replaces the read when the variable turns out to be assigned to. */
  function AssignTarget(name: string, names: seq<string>, constants: seq<Value>): Chunk {
    match Resolve(names, name)
    case Some(i) => Chunk([OpByte(OpSetLocal), Operand(i)], constants)
    case None => PushConstant(OpSetGlobal, Str(name), constants)
  }

  /** Jumps too long to encode make the parser panic; such trees are outside `ExprFits`. */
  function SkipOrNothing(op: Opcode, body: seq<Byte>): seq<Byte> {
    if |body| + 1 <= MAX_JUMP then Skip(op, body) else []
  }

  /** The code emitted for an expression, and the constants after it. */
  function Gen(e: Expr, names: seq<string>, constants: seq<Value>): (r: Chunk)
    ensures Prefix(constants, r.constants)
  {
    match e
    case IntLit(n) => PushConstant(OpConstant, Integer(LiteralValue(n)), constants)
    case StrLit(s) => PushConstant(OpConstant, Str(s), constants)
    case BoolLit(b) => Chunk([OpByte(if b then OpTrue else OpFalse)], constants)
    case Var(name) => GenVar(name, names, constants)
    case Neg(e1) =>
      var c := Gen(e1, names, constants);
      Chunk(c.code + [OpByte(OpNegate)], c.constants)
    case Bin(op, l, r) =>
      var c := Gen(l, names, constants);
      var d := Gen(r, names, c.constants);
      Chunk(c.code + d.code + [OpByte(OpBinary(op))], d.constants)
    case And(l, r) =>
      var c := Gen(l, names, constants);
      var d := Gen(r, names, c.constants);
      Chunk(c.code + SkipOrNothing(OpJumpIfFalse, d.code), d.constants)
    case Or(l, r) =>
      var c := Gen(l, names, constants);
      var d := Gen(r, names, c.constants);
      Chunk(c.code + SkipOrNothing(OpJumpIfTrue, d.code), d.constants)
    case Assign(name, e1) =>
      var t := AssignTarget(name, names, constants);
      var c := Gen(e1, names, t.constants);
      Chunk(c.code + t.code, c.constants)
    case Call(f, args, _) =>
      var c := Gen(f, names, constants);
      var d := GenArgs(args, names, c.constants);
      Chunk(c.code + d.code + [OpByte(OpCall), Operand(|args|)], d.constants)
    case Paren(e1) => Gen(e1, names, constants)
  }

  function GenArgs(args: seq<Expr>, names: seq<string>, constants: seq<Value>): (r: Chunk)
    ensures Prefix(constants, r.constants)
  {
    if args == [] then Chunk([], constants)
    else
      var c := Gen(args[0], names, constants);
      var d := GenArgs(args[1..], names, c.constants);
      Chunk(c.code + d.code, d.constants)
  }

  function Pops(n: nat): seq<Byte> {
    seq(n, _ => OpByte(OpPop))
  }

  /** The code of a statement, the constants after it, and the names in scope after it. */
  datatype Emitted = Emitted(code: seq<Byte>, constants: seq<Value>, names: seq<string>)

  /** `top` says that the statement is at scope depth 0, where `let` defines a global. */
  function GenStmt(s: Stmt, top: bool, names: seq<string>, constants: seq<Value>): (r: Emitted)
    ensures Prefix(constants, r.constants) && Prefix(names, r.names)
  {
    match s
    case Let(name, e) =>
      if top then
        var c := Gen(e, names, constants);
        var d := PushConstant(OpConstant, Str(name), c.constants);
        Emitted(c.code + d.code + [OpByte(OpDefineGlobal)], d.constants, names)
      else
        var c := Gen(e, names + [name], constants);
        Emitted(c.code, c.constants, names + [name])
    case Block(body) =>
      var c := GenScope(body, names, constants);
      Emitted(c.code, c.constants, names)
    case If(cond, thn, els) =>
      var c := Gen(cond, names, constants);
      var t := GenScope(thn, names, c.constants);
      var f := GenBranch(els, names, t.constants);
      Emitted(c.code + ThenElse(t.code, f.code), f.constants, names)
    case While(cond, body) =>
      var c := Gen(cond, names, constants);
      var t := GenScope(body, names, c.constants);
      Emitted(c.code + LoopTail(|c.code|, t.code), t.constants, names)
    case Eval(e) =>
      var c := Gen(e, names, constants);
      Emitted(c.code + [OpByte(OpPop)], c.constants, names)
  }

  function GenBranch(b: Branch, names: seq<string>, constants: seq<Value>): (r: Chunk)
    ensures Prefix(constants, r.constants)
  {
    match b
    case NoElse => Chunk([], constants)
    case Else(body) => GenScope(body, names, constants)
  }

  /** Both branches after the condition, each popping the condition first. */
  function ThenElse(t: seq<Byte>, f: seq<Byte>): seq<Byte> {
    if |t| + 4 <= MAX_JUMP && |f| + 1 <= MAX_JUMP then
      [OpByte(OpJumpIfFalse)] + JumpBytes(|t| + 4) + [OpByte(OpPop)] + t
      + [OpByte(OpJump)] + JumpBytes(|f| + 1) + [OpByte(OpPop)] + f
    else
      []
  }

  /** The jumps of a loop whose condition takes `back` bytes and whose body takes `length`. */
  predicate LoopFits(back: nat, length: nat) {
    length + 4 <= MAX_JUMP && back + length + 7 <= MAX_BACK
  }

  /**
    A loop after the `back` bytes of its condition: the exit jump leads to the end, and the condition is
    popped only on the way into the body.
  */
  function LoopTail(back: nat, body: seq<Byte>): seq<Byte> {
    if LoopFits(back, |body|) then
      ([OpByte(OpJumpIfFalse)] + JumpBytes(|body| + 4)) + ([OpByte(OpPop)] + (body
      + ([OpByte(OpJump)] + BackBytes(back + |body| + 7))))
    else
      []
  }

  /** A braced sequence of statements: its locals are popped at the end. */
  function GenScope(body: seq<Stmt>, names: seq<string>, constants: seq<Value>): (r: Chunk)
    ensures Prefix(constants, r.constants)
    decreases body, 1
  {
    var c := GenStmts(body, false, names, constants);
    Chunk(c.code + Pops(|c.names| - |names|), c.constants)
  }

  function GenStmts(body: seq<Stmt>, top: bool, names: seq<string>, constants: seq<Value>): (r: Emitted)
    ensures Prefix(constants, r.constants) && Prefix(names, r.names)
    decreases body, 0
  {
    if body == [] then Emitted([], constants, names)
    else
      var c := GenStmt(body[0], top, names, constants);
      var d := GenStmts(body[1..], top, c.names, c.constants);
      Emitted(c.code + d.code, d.constants, d.names)
  }

  /** `Parser::parse`: the statements of the script, then `Return`. */
  function GenProgram(body: seq<Stmt>): Chunk {
    var c := GenStmts(body, true, [], []);
    Chunk(c.code + [OpByte(OpReturn)], c.constants)
  }

  predicate StmtFits(s: Stmt, top: bool, names: seq<string>, constants: seq<Value>) {
    match s
    case Let(name, e) => ExprFits(e, if top then names else names + [name], constants)
    case Block(body) => StmtsFit(body, false, names, constants)
    case If(cond, thn, els) =>
      var c := Gen(cond, names, constants);
      var t := GenScope(thn, names, c.constants);
      && ExprFits(cond, names, constants)
      && StmtsFit(thn, false, names, c.constants) && BranchFits(els, names, t.constants)
      && |t.code| + 4 <= MAX_JUMP && |GenBranch(els, names, t.constants).code| + 1 <= MAX_JUMP
    case While(cond, body) =>
      var c := Gen(cond, names, constants);
      && ExprFits(cond, names, constants) && StmtsFit(body, false, names, c.constants)
      && LoopFits(|c.code|, |GenScope(body, names, c.constants).code|)
    case Eval(e) => ExprFits(e, names, constants)
  }

  predicate BranchFits(b: Branch, names: seq<string>, constants: seq<Value>) {
    match b
    case NoElse => true
    case Else(body) => StmtsFit(body, false, names, constants)
  }

  predicate StmtsFit(body: seq<Stmt>, top: bool, names: seq<string>, constants: seq<Value>) {
    body == [] ||
    (StmtFits(body[0], top, names, constants)
     && var c := GenStmt(body[0], top, names, constants);
        StmtsFit(body[1..], top, c.names, c.constants))
  }
}
