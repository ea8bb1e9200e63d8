/**
  The one-pass Pratt parser of ginkgo/src/parse.rs as functions from tokens and parser state to what is
  left of the tokens and the new state. `GinkgoParser` is the object that updates its state in place.

  Tokens come as a sequence; characters and lexing are outside the model. A declaration of a function is
  reported as an error here.
*/
module GinkgoParse {
  import opened Options
  import opened GinkgoValues
  import opened GinkgoCompile

  datatype Token =
    | Plus | Minus | Equals | EqualEquals | Asterix | Slash | Semicolon | Comma | BangEquals
    | LeftParen | RightParen | LeftBrace | RightBrace
    | LessThanToken | LessEqualToken | GreaterThanToken | GreaterEqualToken
    | Caret | Ampersand | AmpersandAmpersand | Pipe | PipePipe
    | Identifier(name: string) | StringToken(s: string) | IntegerToken(n: nat) | TrueToken | FalseToken
    | LetToken | IfToken | ElseToken | WhileToken | ReturnToken
    | OtherToken(kind: nat)

  datatype Local = Local(name: string, depth: nat)

  /** The function being compiled: its chunk, its locals and the current scope depth. */
  datatype State = State(code: seq<Byte>, constants: seq<Value>, locals: seq<Local>, depth: nat)

  /** The parser stops at the first error; a panic counts as one. */
  datatype Parsed = Parsed(state: State, rest: seq<Token>) | Error

  // ---------------------------------------------------------------------------------------------
  // The precedence table
  // ---------------------------------------------------------------------------------------------

  const ASSIGNMENT: nat := 1
  const LOGICAL_OR: nat := 2
  const LOGICAL_AND: nat := 3
  const CONDITIONAL: nat := 4
  const BITWISE_OR: nat := 5
  const BITWISE_XOR: nat := 6
  const BITWISE_AND: nat := 7
  const SUM: nat := 8
  const PRODUCT: nat := 9
  const PREFIX: nat := 11
  const CALL: nat := 14

  function BinaryPrecedence(op: BinOp): nat {
    match op
    case Add => SUM
    case Subtract => SUM
    case Multiply => PRODUCT
    case Divide => PRODUCT
    case BitwiseAnd => BITWISE_AND
    case BitwiseOr => BITWISE_OR
    case BitwiseXor => BITWISE_XOR
    case _ => CONDITIONAL
  }

  /** The binary operator a token stands for after a left operand. */
  function BinaryOf(t: Token): Option<BinOp> {
    match t
    case Plus => Some(Add)
    case Minus => Some(Subtract)
    case Asterix => Some(Multiply)
    case Slash => Some(Divide)
    case Ampersand => Some(BitwiseAnd)
    case Pipe => Some(BitwiseOr)
    case Caret => Some(BitwiseXor)
    case EqualEquals => Some(Equal)
    case BangEquals => Some(NotEqual)
    case LessThanToken => Some(LessThan)
    case LessEqualToken => Some(LessEqual)
    case GreaterThanToken => Some(GreaterThan)
    case GreaterEqualToken => Some(GreaterEqual)
    case _ => None
  }

  /** `precedence_for`, with 0 for tokens that are no infix operator. */
  function Precedence(t: Token): nat {
    match BinaryOf(t)
    case Some(op) => BinaryPrecedence(op)
    case None =>
      match t
      case AmpersandAmpersand => LOGICAL_AND
      case PipePipe => LOGICAL_OR
      case Equals => ASSIGNMENT
      case LeftParen => CALL
      case _ => 0
  }

  // ---------------------------------------------------------------------------------------------
  // Emitting
  // ---------------------------------------------------------------------------------------------

  function Names(locals: seq<Local>): seq<string> {
    seq(|locals|, i requires 0 <= i < |locals| => locals[i].name)
  }

  function Emit(st: State, bytes: seq<Byte>): State {
    st.(code := st.code + bytes)
  }

  /** Append the code and constants of a chunk whose constants extend the state's own. */
  function EmitChunk(st: State, c: Chunk): State {
    st.(code := st.code + c.code, constants := c.constants)
  }

  /** `patch_jump`: fills in the distance from after the operand at `offset` to the end of the code. */
  function Patch(p: Parsed, offset: nat): Parsed {
    if p.Error? then Error
    else
      var code := p.state.code;
      if |code| < offset + 2 || |code| - offset - 2 > MAX_JUMP then Error
      else
        var bytes := JumpBytes(|code| - offset - 2);
        p.(state := p.state.(code := code[offset := bytes[0]][offset + 1 := bytes[1]]))
  }

  function ThenEmit(p: Parsed, bytes: seq<Byte>): Parsed {
    if p.Error? then Error else p.(state := Emit(p.state, bytes))
  }

  /** `consume`. */
  function Consume(p: Parsed, t: Token): Parsed {
    if p.Error? || p.rest == [] || p.rest[0] != t then Error else p.(rest := p.rest[1..])
  }

  // ---------------------------------------------------------------------------------------------
  // Expressions
  // ---------------------------------------------------------------------------------------------

  /** `expression`: a prefix parselet, then infix parselets as long as they bind tighter than `prec`. */
  function ParseExpr(toks: seq<Token>, prec: nat, st: State): (p: Parsed)
    ensures p.Parsed? ==> |p.rest| < |toks| && p.state.depth == st.depth
    decreases |toks|, 2
  {
    if toks == [] then Error
    else
      var p := ParsePrefix(toks[0], toks[1..], st);
      if p.Error? then Error else ParseInfix(p.rest, prec, p.state)
  }

  function ParsePrefix(t: Token, toks: seq<Token>, st: State): (p: Parsed)
    ensures p.Parsed? ==> |p.rest| <= |toks| && p.state.depth == st.depth
    decreases |toks|, 3
  {
    match t
    case Identifier(name) => Parsed(EmitChunk(st, GenVar(name, Names(st.locals), st.constants)), toks)
    case IntegerToken(n) =>
      Parsed(EmitChunk(st, PushConstant(OpConstant, Integer(LiteralValue(n)), st.constants)), toks)
    case StringToken(s) => Parsed(EmitChunk(st, PushConstant(OpConstant, Str(s), st.constants)), toks)
    case TrueToken => Parsed(Emit(st, [OpByte(OpTrue)]), toks)
    case FalseToken => Parsed(Emit(st, [OpByte(OpFalse)]), toks)
    case Minus => ThenEmit(ParseExpr(toks, PREFIX, st), [OpByte(OpNegate)])
    case LeftParen => Consume(ParseExpr(toks, 0, st), RightParen)
    case _ => Error
  }

  function ParseInfix(toks: seq<Token>, prec: nat, st: State): (p: Parsed)
    ensures p.Parsed? ==> |p.rest| <= |toks| && p.state.depth == st.depth
    decreases |toks|, 1
  {
    if toks == [] || Precedence(toks[0]) <= prec then Parsed(st, toks)
    else
      var p := ParseInfixOp(toks[0], toks[1..], st);
      if p.Error? then Error else ParseInfix(p.rest, prec, p.state)
  }

  function ParseInfixOp(t: Token, toks: seq<Token>, st: State): (p: Parsed)
    ensures p.Parsed? ==> |p.rest| <= |toks| && p.state.depth == st.depth
    decreases |toks|, 4
  {
    match BinaryOf(t)
    case Some(op) => ThenEmit(ParseExpr(toks, BinaryPrecedence(op), st), [OpByte(OpBinary(op))])
    case None =>
      match t
      case AmpersandAmpersand => ParseShortCircuit(OpJumpIfFalse, LOGICAL_AND, toks, st)
      case PipePipe => ParseShortCircuit(OpJumpIfTrue, LOGICAL_OR, toks, st)
      case Equals => ParseAssignment(toks, st)
      case LeftParen => ParseArgs(toks, 0, st)
      case _ => Error
  }

  function ParseShortCircuit(op: Opcode, prec: nat, toks: seq<Token>, st: State): (p: Parsed)
    ensures p.Parsed? ==> |p.rest| <= |toks| && p.state.depth == st.depth
    decreases |toks|, 3
  {
    Patch(ParseExpr(toks, prec, Emit(st, [OpByte(op), 0, 0, OpByte(OpPop)])), |st.code| + 1)
  }

  /** The read just emitted is taken back and becomes a write after the right-hand side. */
  function ParseAssignment(toks: seq<Token>, st: State): (p: Parsed)
    ensures p.Parsed? ==> |p.rest| <= |toks| && p.state.depth == st.depth
    decreases |toks|, 3
  {
    if |st.code| < 2 then Error
    else
      var operand := st.code[|st.code| - 1];
      var target := match OpcodeOf(st.code[|st.code| - 2])
                    case Some(OpGetGlobal) => Some(OpSetGlobal)
                    case Some(OpGetLocal) => Some(OpSetLocal)
                    case _ => None;
      if target.None? then Error
      else ThenEmit(ParseExpr(toks, ASSIGNMENT - 1, st.(code := st.code[..|st.code| - 2])), [OpByte(target.value), operand])
  }

  /** The arguments of a call up to the closing parenthesis; commas between them are optional. */
  function ParseArgs(toks: seq<Token>, count: nat, st: State): (p: Parsed)
    ensures p.Parsed? ==> |p.rest| <= |toks| && p.state.depth == st.depth
    decreases |toks|, 3
  {
    if toks != [] && toks[0] == RightParen then
      Parsed(Emit(st, [OpByte(OpCall), Operand(count)]), toks[1..])
    else
      var p := ParseExpr(toks, 0, st);
      if p.Error? || count + 1 > 255 then Error
      else ParseArgs(SkipComma(p.rest), count + 1, p.state)
  }

  function SkipComma(toks: seq<Token>): seq<Token> {
    if toks != [] && toks[0] == Comma then toks[1..] else toks
  }

  /** One argument has been read. */
  lemma ArgsGoOn(toks: seq<Token>, count: nat, st: State, p: Parsed)
    requires toks == [] || toks[0] != RightParen
    requires p == ParseExpr(toks, 0, st) && p.Parsed? && count < 255
    ensures ParseArgs(toks, count, st) == ParseArgs(SkipComma(p.rest), count + 1, p.state)
  {
  }

  // ---------------------------------------------------------------------------------------------
  // Statements
  // ---------------------------------------------------------------------------------------------

  function CountDeeper(locals: seq<Local>, depth: nat): (n: nat)
    ensures n <= |locals|
  {
    if locals == [] then 0
    else (if locals[|locals| - 1].depth > depth then 1 else 0) + CountDeeper(locals[..|locals| - 1], depth)
  }

  function BeginScope(st: State): State {
    st.(depth := st.depth + 1)
  }

  /** `end_scope`: pops as many values as there are locals deeper than the scope returned to. */
  function EndScope(p: Parsed): Parsed {
    if p.Error? || p.state.depth == 0 then Error
    else
      var st := p.state;
      var n := CountDeeper(st.locals, st.depth - 1);
      p.(state := State(st.code + Pops(n), st.constants, st.locals[..|st.locals| - n], st.depth - 1))
  }

  function ParseStmt(toks: seq<Token>, st: State): (p: Parsed)
    ensures p.Parsed? ==> |p.rest| < |toks| && p.state.depth == st.depth
    decreases |toks|, 0
  {
    if toks == [] then Error
    else
      match toks[0]
      case LetToken => ParseLet(toks[1..], st)
      case LeftBrace => ParseScope(toks[1..], st)
      case IfToken => ParseIf(toks[1..], st)
      case WhileToken => ParseWhile(toks[1..], st)
      case ReturnToken => ParseReturn(toks[1..], st)
      case _ => ParseExprStmt(toks, st)
  }

  /** The value is popped only if a semicolon follows. */
  function ParseExprStmt(toks: seq<Token>, st: State): (p: Parsed)
    ensures p.Parsed? ==> |p.rest| < |toks| && p.state.depth == st.depth
  {
    var p := ParseExpr(toks, 0, st);
    if p.Error? then Error
    else if p.rest != [] && p.rest[0] == Semicolon then Parsed(Emit(p.state, [OpByte(OpPop)]), p.rest[1..])
    else p
  }

  function ParseLet(toks: seq<Token>, st: State): (p: Parsed)
    ensures p.Parsed? ==> |p.rest| <= |toks| && p.state.depth == st.depth
  {
    if |toks| < 2 || !toks[0].Identifier? || toks[1] != Equals then Error
    else
      var name := toks[0].name;
      var st' := if st.depth > 0 then st.(locals := st.locals + [Local(name, st.depth)]) else st;
      var p := Consume(ParseExpr(toks[2..], 0, st'), Semicolon);
      if p.Error? || p.state.depth > 0 then p
      else
        var q := p.state;
        p.(state := Emit(EmitChunk(q, PushConstant(OpConstant, Str(name), q.constants)), [OpByte(OpDefineGlobal)]))
  }

  /** Statements up to the closing brace, in a scope of their own; the opening brace is already read. */
  function ParseScope(toks: seq<Token>, st: State): (p: Parsed)
    ensures p.Parsed? ==> |p.rest| <= |toks| && p.state.depth == st.depth
    decreases |toks|, 2
  {
    EndScope(ParseUntilBrace(toks, BeginScope(st)))
  }

  function ParseUntilBrace(toks: seq<Token>, st: State): (p: Parsed)
    ensures p.Parsed? ==> |p.rest| <= |toks| && p.state.depth == st.depth
    decreases |toks|, 1
  {
    if toks != [] && toks[0] == RightBrace then Parsed(st, toks[1..])
    else
      var p := ParseStmt(toks, st);
      if p.Error? then Error else ParseUntilBrace(p.rest, p.state)
  }

  function ParseIf(toks: seq<Token>, st: State): (p: Parsed)
    ensures p.Parsed? ==> |p.rest| <= |toks| && p.state.depth == st.depth
    decreases |toks|, 3
  {
    var c := ParseExpr(toks, 0, st);
    if c.Error? then Error
    else
      var t := ParseThen(c);
      if t.Error? then Error
      else Patch(ParseElse(OpenElse(t, |c.state.code| + 1)), |t.state.code| + 1)
  }

  /** `emit_jump_to`, for a jump to code already emitted. */
  function JumpBack(p: Parsed, target: nat): Parsed {
    if p.Error? then Error
    else
      var code := p.state.code;
      if |code| < target || |code| + 3 - target > MAX_BACK then Error
      else ThenEmit(p, [OpByte(OpJump)] + BackBytes(|code| + 3 - target))
  }

  function ParseWhile(toks: seq<Token>, st: State): (p: Parsed)
    ensures p.Parsed? ==> |p.rest| <= |toks| && p.state.depth == st.depth
    decreases |toks|, 3
  {
    var c := ParseExpr(toks, 0, st);
    if c.Error? then Error else Patch(JumpBack(ParseThen(c), |st.code|), |c.state.code| + 1)
  }

  function ParseReturn(toks: seq<Token>, st: State): (p: Parsed)
    ensures p.Parsed? ==> |p.rest| <= |toks| && p.state.depth == st.depth
  {
    if toks != [] && toks[0] == Semicolon then Parsed(Emit(st, [OpByte(OpUnit), OpByte(OpReturn)]), toks[1..])
    else ThenEmit(Consume(ParseExpr(toks, 0, st), Semicolon), [OpByte(OpReturn)])
  }

  /** After the condition: the jump over the first branch, and the branch. */
  function ParseThen(c: Parsed): (p: Parsed)
    requires c.Parsed?
    ensures p.Parsed? ==> |p.rest| <= |c.rest| && p.state.depth == c.state.depth
    decreases |c.rest|, 3
  {
    var b := Consume(ThenEmit(c, [OpByte(OpJumpIfFalse), 0, 0, OpByte(OpPop)]), LeftBrace);
    if b.Error? then Error else ParseScope(b.rest, b.state)
  }

  /** After the first branch: the jump over the second, to whose start the jump at `thenJump` now leads. */
  function OpenElse(t: Parsed, thenJump: nat): (p: Parsed)
    ensures p.Parsed? ==> t.Parsed? && p.rest == t.rest && p.state.depth == t.state.depth
  {
    ThenEmit(Patch(ThenEmit(t, [OpByte(OpJump), 0, 0]), thenJump), [OpByte(OpPop)])
  }

  function ParseElse(u: Parsed): (p: Parsed)
    ensures p.Parsed? ==> u.Parsed? && |p.rest| <= |u.rest| && p.state.depth == u.state.depth
    decreases if u.Parsed? then |u.rest| else 0, 3
  {
    if u.Error? then Error
    else if u.rest != [] && u.rest[0] == ElseToken then
      var b := Consume(u.(rest := u.rest[1..]), LeftBrace);
      if b.Error? then Error else ParseScope(b.rest, b.state)
    else u
  }

  /** `Parser::parse`. */
  function ParseProgram(toks: seq<Token>): Option<Chunk> {
    var p := ParseAll(toks, State([], [], [], 0));
    if p.Error? then None
    else Some(Chunk(p.state.code + [OpByte(OpReturn)], p.state.constants))
  }

  function ParseAll(toks: seq<Token>, st: State): Parsed
    decreases |toks|
  {
    if toks == [] then Parsed(st, [])
    else
      var p := ParseStmt(toks, st);
      if p.Error? then Error else ParseAll(p.rest, p.state)
  }
}
