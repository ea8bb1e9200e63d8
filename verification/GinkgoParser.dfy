/**
  The parser object of ginkgo/src/parse.rs: the token stream, the chunk, the locals and the scope depth
  are updated in place. Every method is proved against its function in `GinkgoParse`.
*/
module GinkgoParser {
  import opened Options
  import opened GinkgoValues
  import opened GinkgoCompile
  import opened GinkgoParse

  class Parser {
    var stream: seq<Token>
    var code: seq<Byte>
    var constants: seq<Value>
    var locals: seq<Local>
    var depth: nat

    function Now(): State
      reads this
    {
      State(code, constants, locals, depth)
    }

    /** What a call that reported `ok` has come to. */
    function Outcome(ok: bool): Parsed
      reads this
    {
      if ok then Parsed(Now(), stream) else Error
    }

    constructor (tokens: seq<Token>)
      ensures stream == tokens && Now() == State([], [], [], 0)
    {
      stream, code, constants, locals, depth := tokens, [], [], [], 0;
    }

    // -------------------------------------------------------------------------------------------
    // Utilities
    // -------------------------------------------------------------------------------------------

    /** Step over the next token if it is `t`. */
    method Matches(t: Token) returns (yes: bool)
      modifies this`stream
      ensures yes <==> old(stream) != [] && old(stream)[0] == t
      ensures stream == if yes then old(stream)[1..] else old(stream)
    {
      yes := stream != [] && stream[0] == t;
      if yes {
        stream := stream[1..];
      }
    }

    method ConsumeToken(t: Token) returns (ok: bool)
      modifies this`stream
      ensures Outcome(ok) == Consume(Parsed(old(Now()), old(stream)), t)
    {
      ok := stream != [] && stream[0] == t;
      if stream != [] {
        stream := stream[1..];
      }
    }

    method EmitBytes(bytes: seq<Byte>)
      modifies this`code
      ensures Now() == Emit(old(Now()), bytes)
    {
      code := code + bytes;
    }

    method CreateConstant(v: Value) returns (index: nat)
      modifies this`constants
      ensures index == |old(constants)| && constants == old(constants) + [v]
    {
      index := |constants|;
      constants := constants + [v];
    }

    method EmitConstant(op: Opcode, v: Value)
      modifies this`code, this`constants
      ensures Now() == EmitChunk(old(Now()), PushConstant(op, v, old(constants)))
    {
      var index := CreateConstant(v);
      EmitBytes([OpByte(op), Operand(index)]);
    }

    /** Emit a jump whose operand, at the offset returned, is filled in later. */
    method EmitJump(op: Opcode) returns (offset: nat)
      modifies this`code
      ensures offset == |old(code)| + 1 && code == old(code) + [OpByte(op), 0, 0]
    {
      EmitBytes([OpByte(op)]);
      offset := |code|;
      EmitBytes([0, 0]);
    }

    method PatchJump(offset: nat) returns (ok: bool)
      modifies this`code
      ensures Outcome(ok) == Patch(Parsed(old(Now()), stream), offset)
    {
      ok := offset + 2 <= |code| && |code| - offset - 2 <= MAX_JUMP;
      if ok {
        var bytes := JumpBytes(|code| - offset - 2);
        code := code[offset := bytes[0]];
        code := code[offset + 1 := bytes[1]];
      }
    }

    method EmitJumpTo(target: nat) returns (ok: bool)
      modifies this`code
      ensures Outcome(ok) == JumpBack(Parsed(old(Now()), stream), target)
    {
      ok := target <= |code| && |code| + 3 - target <= MAX_BACK;
      if ok {
        EmitBytes([OpByte(OpJump)] + BackBytes(|code| + 3 - target));
      }
    }

    /** The slot of the innermost local of that name, found from the back. */
    method FindLocal(name: string) returns (slot: Option<nat>)
      ensures slot == Resolve(Names(locals), name)
    {
      var i := |locals|;
      assert Names(locals)[..i] == Names(locals);
      while i > 0
        invariant 0 <= i <= |locals|
        invariant Resolve(Names(locals)[..i], name) == Resolve(Names(locals), name)
      {
        var before := Names(locals)[..i];
        assert before[..i - 1] == Names(locals)[..i - 1];
        if locals[i - 1].name == name {
          return Some(i - 1);
        }
        i := i - 1;
      }
      slot := None;
    }

    // -------------------------------------------------------------------------------------------
    // Expressions
    // -------------------------------------------------------------------------------------------

    method Expression(prec: nat) returns (ok: bool)
      modifies this
      ensures Outcome(ok) == ParseExpr(old(stream), prec, old(Now()))
      decreases |stream|, 2
    {
      if stream == [] {
        return false;
      }
      var t := stream[0];
      stream := stream[1..];
      ok := PrefixParselet(t);
      if !ok {
        return;
      }
      while stream != [] && prec < Precedence(stream[0])
        invariant ok && |stream| < |old(stream)|
        invariant ParseInfix(stream, prec, Now()) == ParseExpr(old(stream), prec, old(Now()))
        decreases |stream|
      {
        var next := stream[0];
        stream := stream[1..];
        ok := InfixParselet(next);
        if !ok {
          return;
        }
      }
    }

    method PrefixParselet(t: Token) returns (ok: bool)
      modifies this
      ensures Outcome(ok) == ParsePrefix(t, old(stream), old(Now()))
      decreases |stream|, 4
    {
      ok := true;
      match t
      case Identifier(name) => Variable(name);
      case IntegerToken(n) => EmitConstant(OpConstant, Integer(LiteralValue(n)));
      case StringToken(s) => EmitConstant(OpConstant, Str(s));
      case TrueToken => EmitBytes([OpByte(OpTrue)]);
      case FalseToken => EmitBytes([OpByte(OpFalse)]);
      case Minus => ok := Negation();
      case LeftParen => ok := Grouping();
      case _ => ok := false;
    }

    method Negation() returns (ok: bool)
      modifies this
      ensures Outcome(ok) == ParsePrefix(Minus, old(stream), old(Now()))
      decreases |stream|, 3
    {
      ok := Expression(PREFIX);
      if ok {
        EmitBytes([OpByte(OpNegate)]);
      }
    }

    method Grouping() returns (ok: bool)
      modifies this
      ensures Outcome(ok) == ParsePrefix(LeftParen, old(stream), old(Now()))
      decreases |stream|, 3
    {
      ok := Expression(0);
      if ok {
        ok := ConsumeToken(RightParen);
      }
    }

    method Variable(name: string)
      modifies this
      ensures Outcome(true) == Parsed(EmitChunk(old(Now()), GenVar(name, Names(old(locals)), old(constants))), old(stream))
    {
      var slot := FindLocal(name);
      match slot
      case Some(i) => EmitBytes([OpByte(OpGetLocal), Operand(i)]);
      case None => EmitConstant(OpGetGlobal, Str(name));
    }

    method InfixParselet(t: Token) returns (ok: bool)
      modifies this
      ensures Outcome(ok) == ParseInfixOp(t, old(stream), old(Now()))
      decreases |stream|, 4
    {
      match BinaryOf(t) {
        case Some(op) =>
          ok := Expression(BinaryPrecedence(op));
          if ok {
            EmitBytes([OpByte(OpBinary(op))]);
          }
        case None =>
          match t
          case AmpersandAmpersand => ok := ShortCircuit(OpJumpIfFalse, LOGICAL_AND);
          case PipePipe => ok := ShortCircuit(OpJumpIfTrue, LOGICAL_OR);
          case Equals => ok := Assignment();
          case LeftParen => ok := CallArguments();
          case _ => ok := false;
      }
    }

    method ShortCircuit(op: Opcode, prec: nat) returns (ok: bool)
      modifies this
      ensures Outcome(ok) == ParseShortCircuit(op, prec, old(stream), old(Now()))
      decreases |stream|, 3
    {
      var jump := EmitJump(op);
      EmitBytes([OpByte(OpPop)]);
      assert code == old(code) + [OpByte(op), 0, 0, OpByte(OpPop)];
      ok := Expression(prec);
      if ok {
        ok := PatchJump(jump);
      }
    }

    /** Take back the read that was emitted for the left-hand side, and write after the right-hand side. */
    method Assignment() returns (ok: bool)
      modifies this
      ensures Outcome(ok) == ParseAssignment(old(stream), old(Now()))
      decreases |stream|, 3
    {
      if |code| < 2 {
        return false;
      }
      var operand := code[|code| - 1];
      code := code[..|code| - 1];
      var op := OpcodeOf(code[|code| - 1]);
      code := code[..|code| - 1];
      assert code == old(code)[..|old(code)| - 2];
      var write;
      match op {
        case Some(OpGetGlobal) => write := OpSetGlobal;
        case Some(OpGetLocal) => write := OpSetLocal;
        case _ => return false;
      }
      ok := Expression(ASSIGNMENT - 1);
      if ok {
        EmitBytes([OpByte(write), operand]);
      }
    }

    method CallArguments() returns (ok: bool)
      modifies this
      ensures Outcome(ok) == ParseArgs(old(stream), 0, old(Now()))
      decreases |stream|, 3
    {
      ghost var target := ParseArgs(stream, 0, Now());
      var count := 0;
      while stream == [] || stream[0] != RightParen
        invariant 0 <= count <= 255 && |stream| <= |old(stream)| && ParseArgs(stream, count, Now()) == target
        decreases |stream|
      {
        ghost var here, st := stream, Now();
        ok := Expression(0);
        if !ok {
          return;
        }
        ghost var p := Parsed(Now(), stream);
        var _ := Matches(Comma);
        if count == 255 {
          return false;
        }
        ArgsGoOn(here, count, st, p);
        count := count + 1;
      }
      var _ := Matches(RightParen);
      EmitBytes([OpByte(OpCall), Operand(count)]);
      ok := true;
    }

    // -------------------------------------------------------------------------------------------
    // Statements
    // -------------------------------------------------------------------------------------------

    method Begin()
      modifies this`depth
      ensures Now() == BeginScope(old(Now()))
    {
      depth := depth + 1;
    }

    /** Pop the locals of the scope, one instruction each. */
    method End()
      requires depth > 0
      modifies this
      ensures Parsed(Now(), stream) == EndScope(Parsed(old(Now()), old(stream)))
    {
      depth := depth - 1;
      var n := CountDeeper(locals, depth);
      for i := 0 to n
        invariant code == old(code) + Pops(i)
        invariant stream == old(stream) && constants == old(constants) && locals == old(locals) && depth == old(depth) - 1
      {
        EmitBytes([OpByte(OpPop)]);
        assert Pops(i) + [OpByte(OpPop)] == Pops(i + 1);
      }
      locals := locals[..|locals| - n];
    }

    method Statement() returns (ok: bool)
      modifies this
      ensures Outcome(ok) == ParseStmt(old(stream), old(Now()))
      decreases |stream|, 0
    {
      if stream == [] {
        return false;
      }
      match stream[0]
      case LetToken =>
        stream := stream[1..];
        ok := LetStatement();
      case LeftBrace =>
        stream := stream[1..];
        ok := Scope();
      case IfToken =>
        stream := stream[1..];
        ok := IfStatement();
      case WhileToken =>
        stream := stream[1..];
        ok := WhileStatement();
      case ReturnToken =>
        stream := stream[1..];
        ok := ReturnStatement();
      case _ => ok := ExpressionStatement();
    }

    method ExpressionStatement() returns (ok: bool)
      modifies this
      ensures Outcome(ok) == ParseExprStmt(old(stream), old(Now()))
    {
      ok := Expression(0);
      if ok {
        var ended := Matches(Semicolon);
        if ended {
          EmitBytes([OpByte(OpPop)]);
        }
      }
    }

    method LetStatement() returns (ok: bool)
      modifies this
      ensures Outcome(ok) == ParseLet(old(stream), old(Now()))
    {
      if stream == [] || !stream[0].Identifier? {
        return false;
      }
      var name := stream[0].name;
      stream := stream[1..];
      if depth > 0 {
        locals := locals + [Local(name, depth)];
      }
      ok := ConsumeToken(Equals);
      if !ok {
        return;
      }
      assert stream == old(stream)[2..];
      ok := Expression(0);
      if !ok {
        return;
      }
      ok := ConsumeToken(Semicolon);
      if ok && depth == 0 {
        EmitConstant(OpConstant, Str(name));
        EmitBytes([OpByte(OpDefineGlobal)]);
      }
    }

    /** The statements of a scope whose opening brace has been read. */
    method Scope() returns (ok: bool)
      modifies this
      ensures Outcome(ok) == ParseScope(old(stream), old(Now()))
      decreases |stream|, 2
    {
      Begin();
      ghost var target := ParseUntilBrace(stream, Now());
      while stream == [] || stream[0] != RightBrace
        invariant |stream| <= |old(stream)| && ParseUntilBrace(stream, Now()) == target
        decreases |stream|
      {
        ok := Statement();
        if !ok {
          return;
        }
      }
      var _ := Matches(RightBrace);
      End();
      ok := true;
    }

    method IfStatement() returns (ok: bool)
      modifies this
      ensures Outcome(ok) == ParseIf(old(stream), old(Now()))
      decreases |stream|, 3
    {
      ok := Expression(0);
      if !ok {
        return;
      }
      ghost var c := Parsed(Now(), stream);
      var thenJump := EmitJump(OpJumpIfFalse);
      EmitBytes([OpByte(OpPop)]);
      assert code == c.state.code + [OpByte(OpJumpIfFalse), 0, 0, OpByte(OpPop)];
      ok := ConsumeToken(LeftBrace);
      if !ok {
        return;
      }
      ok := Scope();
      if !ok {
        return;
      }
      ghost var t := ParseThen(c);
      assert t == Parsed(Now(), stream);
      var elseJump := EmitJump(OpJump);
      ok := PatchJump(thenJump);
      if !ok {
        return;
      }
      EmitBytes([OpByte(OpPop)]);
      ok := ElseBranch();
      if ok {
        ok := PatchJump(elseJump);
      }
    }

    method WhileStatement() returns (ok: bool)
      modifies this
      ensures Outcome(ok) == ParseWhile(old(stream), old(Now()))
      decreases |stream|, 3
    {
      var loopStart := |code|;
      ok := Expression(0);
      if !ok {
        return;
      }
      ghost var c := Parsed(Now(), stream);
      var exitJump := EmitJump(OpJumpIfFalse);
      EmitBytes([OpByte(OpPop)]);
      assert code == c.state.code + [OpByte(OpJumpIfFalse), 0, 0, OpByte(OpPop)];
      ok := ConsumeToken(LeftBrace);
      if !ok {
        return;
      }
      ok := Scope();
      if !ok {
        return;
      }
      assert ParseThen(c) == Parsed(Now(), stream);
      ok := EmitJumpTo(loopStart);
      if ok {
        ok := PatchJump(exitJump);
      }
    }

    method ReturnStatement() returns (ok: bool)
      modifies this
      ensures Outcome(ok) == ParseReturn(old(stream), old(Now()))
    {
      var bare := Matches(Semicolon);
      if bare {
        EmitBytes([OpByte(OpUnit), OpByte(OpReturn)]);
        return true;
      }
      ok := Expression(0);
      if ok {
        ok := ConsumeToken(Semicolon);
      }
      if ok {
        EmitBytes([OpByte(OpReturn)]);
      }
    }

    method ElseBranch() returns (ok: bool)
      modifies this
      ensures Outcome(ok) == ParseElse(Parsed(old(Now()), old(stream)))
      decreases |stream|, 3
    {
      var yes := Matches(ElseToken);
      ok := true;
      if yes {
        ok := ConsumeToken(LeftBrace);
        if ok {
          ok := Scope();
        }
      }
    }

    /** `Parser::parse`. */
    method Parse() returns (r: Option<Chunk>)
      requires Now() == State([], [], [], 0)
      modifies this
      ensures r == ParseProgram(old(stream))
    {
      ghost var target := ParseAll(stream, Now());
      while stream != []
        invariant ParseAll(stream, Now()) == target
        decreases |stream|
      {
        var ok := Statement();
        if !ok {
          return None;
        }
      }
      EmitBytes([OpByte(OpReturn)]);
      r := Some(Chunk(code, constants));
    }
  }
}
