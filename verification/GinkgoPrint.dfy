/**
  Printing a tree with the parentheses its precedences require and any others it holds, and the theorem
  that the parser turns the printed tokens into exactly the code of the tree.
*/
module GinkgoPrint {
  import opened Options
  import opened GinkgoValues
  import opened GinkgoCompile
  import opened GinkgoParse

  const ATOM: nat := 15

  // ---------------------------------------------------------------------------------------------
  // Printing
  // ---------------------------------------------------------------------------------------------

  function BinaryToken(op: BinOp): Token {
    match op
    case Add => Plus
    case Subtract => Minus
    case Multiply => Asterix
    case Divide => Slash
    case BitwiseAnd => Ampersand
    case BitwiseOr => Pipe
    case BitwiseXor => Caret
    case Equal => EqualEquals
    case NotEqual => BangEquals
    case LessThan => LessThanToken
    case LessEqual => LessEqualToken
    case GreaterThan => GreaterThanToken
    case GreaterEqual => GreaterEqualToken
  }

  /** How tightly the outermost operator of a tree binds. */
  function Level(e: Expr): nat {
    match e
    case Bin(op, _, _) => BinaryPrecedence(op)
    case And(_, _) => LOGICAL_AND
    case Or(_, _) => LOGICAL_OR
    case Assign(_, _) => ASSIGNMENT
    case Neg(_) => PREFIX
    case Call(_, _, _) => CALL
    case _ => ATOM
  }

  /** Print where only operators of level `min` and above may stand bare. */
  function Print(e: Expr, min: nat): seq<Token>
    decreases e, 1
  {
    if Level(e) < min then [LeftParen] + (Bare(e) + [RightParen]) else Bare(e)
  }

  /** Binary operators associate to the left, assignment to the right. */
  function Bare(e: Expr): seq<Token>
    decreases e, 0
  {
    match e
    case IntLit(n) => [IntegerToken(n)]
    case StrLit(s) => [StringToken(s)]
    case BoolLit(b) => [if b then TrueToken else FalseToken]
    case Var(name) => [Identifier(name)]
    case Neg(e1) => [Minus] + Print(e1, PREFIX)
    case Bin(op, l, r) => Print(l, Level(e)) + ([BinaryToken(op)] + Print(r, Level(e) + 1))
    case And(l, r) => Print(l, Level(e)) + ([AmpersandAmpersand] + Print(r, Level(e) + 1))
    case Or(l, r) => Print(l, Level(e)) + ([PipePipe] + Print(r, Level(e) + 1))
    case Assign(name, e1) => [Identifier(name)] + ([Equals] + Print(e1, ASSIGNMENT))
    case Call(f, args, commas) => Print(f, CALL) + ([LeftParen] + PrintArgs(args, commas))
    case Paren(e1) => [LeftParen] + (Bare(e1) + [RightParen])
  }

  /** Arguments and closing parenthesis. A comma must stand before an argument that would otherwise carry on the last one. */
  function PrintArgs(args: seq<Expr>, commas: seq<bool>): (r: seq<Token>)
    ensures r != []
    decreases args
  {
    if args == [] then [RightParen]
    else
      var others := PrintArgs(args[1..], AfterFlag(commas));
      Print(args[0], ASSIGNMENT) + (Separator(commas, others[0]) + others)
  }

  function AfterFlag(commas: seq<bool>): seq<bool> {
    if commas == [] then [] else commas[1..]
  }

  function Separator(commas: seq<bool>, next: Token): seq<Token> {
    if (commas != [] && commas[0]) || Precedence(next) > 0 then [Comma] else []
  }

  // ---------------------------------------------------------------------------------------------
  // Parsing back an expression
  // ---------------------------------------------------------------------------------------------

  predicate Infix(e: Expr) {
    e.Bin? || e.And? || e.Or? || e.Assign? || e.Call?
  }

  /** Parsing at `prec` does not stop before the outermost operator of the printed tree. */
  predicate Opens(e: Expr, min: nat, prec: nat) {
    Level(e) < min || !Infix(e) || prec < Level(e)
  }

  /** The tightest operator that may follow the printed tree without being drawn into it. */
  function RightLevel(e: Expr, min: nat): nat {
    if Level(e) < min then CALL
    else
      match e
      case Bin(_, _, _) => Level(e)
      case And(_, _) => Level(e)
      case Or(_, _) => Level(e)
      case Assign(_, _) => 0
      case Neg(_) => PREFIX
      case _ => CALL
  }

  predicate Follows(rest: seq<Token>, level: nat) {
    rest == [] || Precedence(rest[0]) <= level
  }

  /** (The bound variable keeps the verifier from unfolding the condition wherever it is mentioned.) */
  ghost predicate Fits(e: Expr, st: State) {
    forall f | f == e :: ExprFits(f, Names(st.locals), st.constants)
  }

  /** The parser state after emitting the code of the tree. */
  function After(e: Expr, st: State): State {
    EmitChunk(st, Gen(e, Names(st.locals), st.constants))
  }

  /**
    Parsing `toks` at `prec` reads up to `rest`, leaving state `after`, and goes on from there.
    (The bound variable keeps the verifier from unfolding the parser wherever this is mentioned.)
  */
  ghost predicate Reads(toks: seq<Token>, prec: nat, st: State, rest: seq<Token>, after: State) {
    forall ts | ts == toks :: ParseExpr(ts, prec, st) == ParseInfix(rest, prec, after)
  }

  /** Nothing that follows binds tighter: the expression ends. */
  lemma ReadsWhole(toks: seq<Token>, prec: nat, st: State, rest: seq<Token>, after: State)
    requires Reads(toks, prec, st, rest, after) && Follows(rest, prec)
    ensures ParseExpr(toks, prec, st) == Parsed(after, rest)
  {
  }

  /** After a left operand that led to `left`, the operator and its right operand read up to `rest`. */
  ghost predicate InfixReads(op: Token, toks: seq<Token>, left: State, rest: seq<Token>, after: State) {
    forall ts | ts == toks :: ParseInfixOp(op, ts, left) == Parsed(after, rest)
  }

  /** An infix operator that binds tighter is read, and the loop goes round. */
  lemma ReadsOn(toks: seq<Token>, prec: nat, st: State, op: Token, more: seq<Token>, left: State, rest: seq<Token>,
                after: State)
    requires Reads(toks, prec, st, [op] + more, left) && prec < Precedence(op)
    requires InfixReads(op, more, left, rest, after)
    ensures Reads(toks, prec, st, rest, after)
  {
    assert ([op] + more)[1..] == more;
    assert ParseInfixOp(op, more, left) == Parsed(after, rest);
  }

  lemma ReadsPrefix(t: Token, more: seq<Token>, prec: nat, st: State, rest: seq<Token>, after: State)
    requires ParsePrefix(t, more, st) == Parsed(after, rest)
    ensures Reads([t] + more, prec, st, rest, after)
  {
    assert ([t] + more)[1..] == more;
  }

  /**
    Parsing a printed tree emits the code of the tree and then goes on with what follows it, at any
    precedence that the tree's outermost operator passes and before any token that binds less tightly.
  */
  lemma {:induction false} ExprParses(e: Expr, min: nat, prec: nat, rest: seq<Token>, st: State)
    requires min <= CALL && Fits(e, st) && Opens(e, min, prec) && Follows(rest, RightLevel(e, min))
    ensures Reads(Print(e, min) + rest, prec, st, rest, After(e, st))
    decreases e, 4
  {
    if Level(e) < min {
      ParenParses(e, prec, rest, st);
    } else {
      BareParses(e, prec, rest, st);
    }
  }

  lemma {:induction false} ParenParses(e: Expr, prec: nat, rest: seq<Token>, st: State)
    requires Fits(e, st)
    ensures Reads([LeftParen] + (Bare(e) + [RightParen]) + rest, prec, st, rest, After(e, st))
    decreases e, 3
  {
    BareParses(e, 0, [RightParen] + rest, st);
    BracketReads(Bare(e) + ([RightParen] + rest), prec, st, rest, After(e, st));
    Regroup([LeftParen], Bare(e), [RightParen], rest);
  }

  lemma BracketReads(toks: seq<Token>, prec: nat, st: State, rest: seq<Token>, after: State)
    requires Reads(toks, 0, st, [RightParen] + rest, after)
    ensures Reads([LeftParen] + toks, prec, st, rest, after)
  {
    ReadsWhole(toks, 0, st, [RightParen] + rest, after);
    assert ([RightParen] + rest)[1..] == rest;
    ReadsPrefix(LeftParen, toks, prec, st, rest, after);
  }

  lemma {:induction false} BareParses(e: Expr, prec: nat, rest: seq<Token>, st: State)
    requires Fits(e, st) && Opens(e, 0, prec) && Follows(rest, RightLevel(e, 0))
    ensures Reads(Bare(e) + rest, prec, st, rest, After(e, st))
    decreases e, 2
  {
    match e
    case Neg(_) => NegParses(e, prec, rest, st);
    case Bin(op, l, r) => BinParses(op, l, r, prec, rest, st);
    case And(l, r) => AndParses(l, r, prec, rest, st);
    case Or(l, r) => OrParses(l, r, prec, rest, st);
    case Assign(name, e1) => AssignParses(name, e1, rest, st);
    case Call(_, _, _) => CallParses(e, prec, rest, st);
    case Paren(e1) =>
      UnaryFits(e, st);
      ParenParses(e1, prec, rest, st);
    case _ => LeafParses(e, prec, rest, st);
  }

  lemma LeafParses(e: Expr, prec: nat, rest: seq<Token>, st: State)
    requires e.IntLit? || e.StrLit? || e.BoolLit? || e.Var?
    ensures Reads(Bare(e) + rest, prec, st, rest, After(e, st))
  {
    ReadsPrefix(Bare(e)[0], rest, prec, st, rest, After(e, st));
  }

  lemma {:induction false} NegParses(e: Expr, prec: nat, rest: seq<Token>, st: State)
    requires e.Neg? && Fits(e, st) && Follows(rest, PREFIX)
    ensures Reads(Bare(e) + rest, prec, st, rest, After(e, st))
    decreases e, 0
  {
    UnaryFits(e, st);
    ExprParses(e.e, PREFIX, PREFIX, rest, st);
    NegReads(Print(e.e, PREFIX), prec, st, rest, After(e.e, st));
    AfterNeg(e, st);
  }

  lemma AfterNeg(e: Expr, st: State)
    requires e.Neg?
    ensures Emit(After(e.e, st), [OpByte(OpNegate)]) == After(e, st)
  {
  }

  lemma NegReads(a: seq<Token>, prec: nat, st: State, rest: seq<Token>, after: State)
    requires Reads(a + rest, PREFIX, st, rest, after) && Follows(rest, PREFIX)
    ensures Reads([Minus] + a + rest, prec, st, rest, Emit(after, [OpByte(OpNegate)]))
  {
    ReadsWhole(a + rest, PREFIX, st, rest, after);
    ReadsPrefix(Minus, a + rest, prec, st, rest, Emit(after, [OpByte(OpNegate)]));
    Associate([Minus], a, rest);
  }

  lemma BinaryTokenRoundTrip(op: BinOp)
    ensures BinaryOf(BinaryToken(op)) == Some(op) && CONDITIONAL <= BinaryPrecedence(op) <= PRODUCT
  {
  }

  lemma BinOp(op: BinOp, l: Expr, r: Expr, toks: seq<Token>, rest: seq<Token>, st: State)
    requires Follows(rest, BinaryPrecedence(op))
    requires Reads(toks, BinaryPrecedence(op), After(l, st), rest, After(r, After(l, st)))
    ensures InfixReads(BinaryToken(op), toks, After(l, st), rest, After(Bin(op, l, r), st))
  {
    ReadsWhole(toks, BinaryPrecedence(op), After(l, st), rest, After(r, After(l, st)));
    BinaryTokenRoundTrip(op);
    assert Emit(After(r, After(l, st)), [OpByte(OpBinary(op))]) == After(Bin(op, l, r), st);
  }

  /** Reading the left operand, then the operator with its right operand, reads the whole. */
  lemma InfixParses(a: seq<Token>, t: Token, b: seq<Token>, prec: nat, rest: seq<Token>, st: State, left: State,
                    after: State)
    requires prec < Precedence(t) && Reads(a + ([t] + (b + rest)), prec, st, [t] + (b + rest), left)
    requires InfixReads(t, b + rest, left, rest, after)
    ensures Reads(a + ([t] + b) + rest, prec, st, rest, after)
  {
    Regroup(a, [t], b, rest);
    ReadsOn(a + ([t] + b) + rest, prec, st, t, b + rest, left, rest, after);
  }

  /** Operands of a left-associative operator of level `q`, as they are printed. */
  lemma {:induction false} LeftReads(l: Expr, q: nat, prec: nat, rest: seq<Token>, st: State)
    requires 2 <= q <= PRODUCT && prec < q && Fits(l, st) && Follows(rest, q)
    ensures Reads(Print(l, q) + rest, prec, st, rest, After(l, st))
    decreases l, 5
  {
    ExprParses(l, q, prec, rest, st);
  }

  lemma {:induction false} RightReads(r: Expr, q: nat, rest: seq<Token>, st: State)
    requires 2 <= q <= PRODUCT && Fits(r, st) && Follows(rest, q)
    ensures Reads(Print(r, q + 1) + rest, q, st, rest, After(r, st))
    decreases r, 5
  {
    ExprParses(r, q + 1, q, rest, st);
  }

  lemma {:induction false} BinParses(op: BinOp, l: Expr, r: Expr, prec: nat, rest: seq<Token>, st: State)
    requires Fits(Bin(op, l, r), st) && prec < BinaryPrecedence(op) && Follows(rest, BinaryPrecedence(op))
    ensures Reads(Bare(Bin(op, l, r)) + rest, prec, st, rest, After(Bin(op, l, r), st))
    decreases Bin(op, l, r), 0
  {
    var q := BinaryPrecedence(op);
    var right := Print(r, q + 1);
    BinaryTokenRoundTrip(op);
    BinFits(op, l, r, st);
    LeftReads(l, q, prec, [BinaryToken(op)] + (right + rest), st);
    RightReads(r, q, rest, After(l, st));
    BinOp(op, l, r, right + rest, rest, st);
    InfixParses(Print(l, q), BinaryToken(op), right, prec, rest, st, After(l, st), After(Bin(op, l, r), st));
  }

  /** The left operand followed by the unpatched jump over the right one. */
  function Jumping(st: State, op: Opcode): State {
    Emit(st, [OpByte(op), 0, 0, OpByte(OpPop)])
  }

  /** Patching the jump gives the code of the short-circuit operator. */
  lemma PatchSkips(code: seq<Byte>, op: Opcode, body: seq<Byte>, p: Parsed)
    requires |body| + 1 <= MAX_JUMP
    requires p.Parsed? && p.state.code == code + [OpByte(op), 0, 0, OpByte(OpPop)] + body
    ensures Patch(p, |code| + 1) == p.(state := p.state.(code := code + SkipOrNothing(op, body)))
  {
    var d := |body| + 1;
    assert |p.state.code| - (|code| + 1) - 2 == d;
    assert p.state.code[|code| + 1 := d % 256][|code| + 2 := d / 256] == code + Skip(op, body);
  }

  /** The printed operator and its opcode. */
  predicate ShortCircuits(e: Expr, l: Expr, r: Expr, t: Token, op: Opcode) {
    || (e == And(l, r) && t == AmpersandAmpersand && op == OpJumpIfFalse)
    || (e == Or(l, r) && t == PipePipe && op == OpJumpIfTrue)
  }

  lemma {:induction false} AndParses(l: Expr, r: Expr, prec: nat, rest: seq<Token>, st: State)
    requires Fits(And(l, r), st) && prec < LOGICAL_AND && Follows(rest, LOGICAL_AND)
    ensures Reads(Bare(And(l, r)) + rest, prec, st, rest, After(And(l, r), st))
    decreases And(l, r), 1
  {
    assert Bare(And(l, r)) == Print(l, LOGICAL_AND) + ([AmpersandAmpersand] + Print(r, LOGICAL_AND + 1));
    ShortCircuitFacts(And(l, r), l, r, AmpersandAmpersand, OpJumpIfFalse, rest, st);
    AndReads(l, r, Print(l, LOGICAL_AND), Print(r, LOGICAL_AND + 1), prec, rest, st, After(l, st), After(And(l, r), st));
  }

  lemma {:induction false} AndReads(l: Expr, r: Expr, a: seq<Token>, b: seq<Token>, prec: nat, rest: seq<Token>,
                                    st: State,
                                    left: State, after: State)
    requires prec < LOGICAL_AND && Follows(rest, LOGICAL_AND) && a == Print(l, LOGICAL_AND) && b == Print(r, LOGICAL_AND + 1)
    requires left == After(l, st) && Fits(l, st) && Fits(r, Jumping(left, OpJumpIfFalse))
    requires PatchesTo(After(r, Jumping(left, OpJumpIfFalse)), |left.code| + 1, rest, after)
    ensures Reads(a + ([AmpersandAmpersand] + b) + rest, prec, st, rest, after)
    decreases And(l, r), 0
  {
    LeftReads(l, LOGICAL_AND, prec, [AmpersandAmpersand] + (b + rest), st);
    RightSide(r, AmpersandAmpersand, OpJumpIfFalse, b + rest, left, rest, after);
    InfixParses(a, AmpersandAmpersand, b, prec, rest, st, left, after);
  }

  lemma {:induction false} OrParses(l: Expr, r: Expr, prec: nat, rest: seq<Token>, st: State)
    requires Fits(Or(l, r), st) && prec < LOGICAL_OR && Follows(rest, LOGICAL_OR)
    ensures Reads(Bare(Or(l, r)) + rest, prec, st, rest, After(Or(l, r), st))
    decreases Or(l, r), 1
  {
    assert Bare(Or(l, r)) == Print(l, LOGICAL_OR) + ([PipePipe] + Print(r, LOGICAL_OR + 1));
    ShortCircuitFacts(Or(l, r), l, r, PipePipe, OpJumpIfTrue, rest, st);
    OrReads(l, r, Print(l, LOGICAL_OR), Print(r, LOGICAL_OR + 1), prec, rest, st, After(l, st), After(Or(l, r), st));
  }

  lemma {:induction false} OrReads(l: Expr, r: Expr, a: seq<Token>, b: seq<Token>, prec: nat, rest: seq<Token>,
                                   st: State,
                                    left: State, after: State)
    requires prec < LOGICAL_OR && Follows(rest, LOGICAL_OR) && a == Print(l, LOGICAL_OR) && b == Print(r, LOGICAL_OR + 1)
    requires left == After(l, st) && Fits(l, st) && Fits(r, Jumping(left, OpJumpIfTrue))
    requires PatchesTo(After(r, Jumping(left, OpJumpIfTrue)), |left.code| + 1, rest, after)
    ensures Reads(a + ([PipePipe] + b) + rest, prec, st, rest, after)
    decreases Or(l, r), 0
  {
    LeftReads(l, LOGICAL_OR, prec, [PipePipe] + (b + rest), st);
    RightSide(r, PipePipe, OpJumpIfTrue, b + rest, left, rest, after);
    InfixParses(a, PipePipe, b, prec, rest, st, left, after);
  }

  lemma {:induction false} RightSide(r: Expr, t: Token, op: Opcode, toks: seq<Token>, left: State, rest: seq<Token>,
                                     final: State)
    requires (t == AmpersandAmpersand && op == OpJumpIfFalse) || (t == PipePipe && op == OpJumpIfTrue)
    requires Fits(r, Jumping(left, op)) && Follows(rest, Precedence(t)) && toks == Print(r, Precedence(t) + 1) + rest
    requires PatchesTo(After(r, Jumping(left, op)), |left.code| + 1, rest, final)
    ensures InfixReads(t, toks, left, rest, final)
    decreases r, 6
  {
    RightReads(r, Precedence(t), rest, Jumping(left, op));
    ShortCircuitOp(t, op, toks, left, rest, After(r, Jumping(left, op)), final);
  }

  lemma ShortCircuitFacts(e: Expr, l: Expr, r: Expr, t: Token, op: Opcode, rest: seq<Token>, st: State)
    requires ShortCircuits(e, l, r, t, op) && Fits(e, st)
    ensures Fits(l, st) && Fits(r, Jumping(After(l, st), op))
    ensures PatchesTo(After(r, Jumping(After(l, st), op)), |After(l, st).code| + 1, rest, After(e, st))
  {
    ShortCircuitFits(e, l, r, t, op, st);
    SkipsRight(e, l, r, t, op, rest, st);
  }

  lemma ShortCircuitFits(e: Expr, l: Expr, r: Expr, t: Token, op: Opcode, st: State)
    requires ShortCircuits(e, l, r, t, op) && Fits(e, st)
    ensures Fits(l, st) && Fits(r, Jumping(After(l, st), op))
  {
    var names := Names(st.locals);
    if e.And? {
      assert ExprFits(And(l, r), names, st.constants);
    } else {
      assert ExprFits(Or(l, r), names, st.constants);
    }
  }

  lemma UnaryFits(e: Expr, st: State)
    requires (e.Neg? || e.Paren?) && Fits(e, st)
    ensures Fits(e.e, st)
  {
    assert ExprFits(e, Names(st.locals), st.constants);
  }

  lemma BinFits(op: BinOp, l: Expr, r: Expr, st: State)
    requires Fits(Bin(op, l, r), st)
    ensures Fits(l, st) && Fits(r, After(l, st))
  {
    assert ExprFits(Bin(op, l, r), Names(st.locals), st.constants);
  }

  lemma AssignFits(name: string, e: Expr, st: State)
    requires Fits(Assign(name, e), st)
    ensures Fits(e, Targeted(name, st))
  {
    assert ExprFits(Assign(name, e), Names(st.locals), st.constants);
  }

  lemma ShortCircuitOp(t: Token, op: Opcode, toks: seq<Token>, left: State, rest: seq<Token>, after: State,
                       final: State)
    requires (t == AmpersandAmpersand && op == OpJumpIfFalse) || (t == PipePipe && op == OpJumpIfTrue)
    requires Follows(rest, Precedence(t)) && Reads(toks, Precedence(t), Jumping(left, op), rest, after)
    requires PatchesTo(after, |left.code| + 1, rest, final)
    ensures InfixReads(t, toks, left, rest, final)
  {
    ReadsWhole(toks, Precedence(t), Jumping(left, op), rest, after);
    assert Patch(Parsed(after, rest), |left.code| + 1) == Parsed(final, rest);
  }

  ghost predicate PatchesTo(st: State, offset: nat, rest: seq<Token>, after: State) {
    forall s | s == st :: Patch(Parsed(s, rest), offset) == Parsed(after, rest)
  }

  lemma SkipsRight(e: Expr, l: Expr, r: Expr, t: Token, op: Opcode, rest: seq<Token>, st: State)
    requires ShortCircuits(e, l, r, t, op) && Fits(e, st)
    ensures PatchesTo(After(r, Jumping(After(l, st), op)), |After(l, st).code| + 1, rest, After(e, st))
  {
    var names := Names(st.locals);
    var c := Gen(l, names, st.constants);
    var d := Gen(r, names, c.constants);
    assert ExprFits(e, names, st.constants);
    ShortCircuitCode(e, l, r, t, op, names, st.constants, c, d);
    SkipsChunk(st, c, op, d, rest);
  }

  lemma SkipsChunk(st: State, c: Chunk, op: Opcode, d: Chunk, rest: seq<Token>)
    requires |d.code| + 1 <= MAX_JUMP
    ensures PatchesTo(EmitChunk(Jumping(EmitChunk(st, c), op), d), |EmitChunk(st, c).code| + 1, rest,
                      EmitChunk(st, Chunk(c.code + SkipOrNothing(op, d.code), d.constants)))
  {
    PatchSkips(st.code + c.code, op, d.code, Parsed(EmitChunk(Jumping(EmitChunk(st, c), op), d), rest));
    Associate(st.code, c.code, SkipOrNothing(op, d.code));
  }

  lemma ShortCircuitCode(e: Expr, l: Expr, r: Expr, t: Token, op: Opcode, names: seq<string>, constants: seq<Value>,
                         c: Chunk, d: Chunk)
    requires ShortCircuits(e, l, r, t, op) && ExprFits(e, names, constants)
    requires c == Gen(l, names, constants) && d == Gen(r, names, c.constants)
    ensures |d.code| + 1 <= MAX_JUMP && Gen(e, names, constants) == Chunk(c.code + SkipOrNothing(op, d.code), d.constants)
  {
    if e.And? {
      assert Gen(And(l, r), names, constants) == Chunk(c.code + SkipOrNothing(OpJumpIfFalse, d.code), d.constants);
    } else {
      assert Gen(Or(l, r), names, constants) == Chunk(c.code + SkipOrNothing(OpJumpIfTrue, d.code), d.constants);
    }
  }

  /** The state in which the right-hand side of an assignment is parsed: the read is taken back. */
  function Targeted(name: string, st: State): State {
    st.(constants := AssignTarget(name, Names(st.locals), st.constants).constants)
  }

  /** Taking back the read of a variable leaves the code before it, and tells how to write the variable. */
  predicate TakenBack(read: State, back: State, target: seq<Byte>) {
    && |target| == 2 && |read.code| >= 2 && read.(code := read.code[..|read.code| - 2]) == back
    && read.code[|read.code| - 1] == target[1]
    && ((read.code[|read.code| - 2] == OpByte(OpGetGlobal) && target[0] == OpByte(OpSetGlobal))
        || (read.code[|read.code| - 2] == OpByte(OpGetLocal) && target[0] == OpByte(OpSetLocal)))
  }

  lemma TakeBack(st: State, get: Opcode, put: Opcode, i: Byte, constants: seq<Value>)
    requires (get == OpGetGlobal && put == OpSetGlobal) || (get == OpGetLocal && put == OpSetLocal)
    ensures TakenBack(EmitChunk(st, Chunk([OpByte(get), i], constants)), st.(constants := constants), [OpByte(put), i])
  {
    assert (st.code + [OpByte(get), i])[..|st.code|] == st.code;
  }

  lemma ReadTakenBack(name: string, st: State)
    ensures TakenBack(After(Var(name), st), Targeted(name, st), AssignTarget(name, Names(st.locals), st.constants).code)
  {
    match Resolve(Names(st.locals), name)
    case Some(i) => TakeBack(st, OpGetLocal, OpSetLocal, Operand(i), st.constants);
    case None => TakeBack(st, OpGetGlobal, OpSetGlobal, Operand(|st.constants|), st.constants + [Str(name)]);
  }

  lemma AssignOp(name: string, e: Expr, toks: seq<Token>, rest: seq<Token>, st: State)
    requires Follows(rest, 0) && Reads(toks, 0, Targeted(name, st), rest, After(e, Targeted(name, st)))
    ensures InfixReads(Equals, toks, After(Var(name), st), rest, After(Assign(name, e), st))
  {
    var read := After(Var(name), st);
    var target := AssignTarget(name, Names(st.locals), st.constants).code;
    ReadsWhole(toks, 0, Targeted(name, st), rest, After(e, Targeted(name, st)));
    ReadTakenBack(name, st);
    AfterAssign(name, e, st, target);
    WritesBack(toks, read, Targeted(name, st), target, After(e, Targeted(name, st)), rest);
  }

  lemma WritesBack(toks: seq<Token>, read: State, back: State, target: seq<Byte>, after: State, rest: seq<Token>)
    requires TakenBack(read, back, target)
    requires ParseExpr(toks, 0, back) == Parsed(after, rest)
    ensures InfixReads(Equals, toks, read, rest, Emit(after, [target[0], target[1]]))
  {
  }

  lemma AfterAssign(name: string, e: Expr, st: State, target: seq<Byte>)
    requires target == AssignTarget(name, Names(st.locals), st.constants).code && |target| == 2
    ensures Emit(After(e, Targeted(name, st)), [target[0], target[1]]) == After(Assign(name, e), st)
  {
    assert target == [target[0], target[1]];
  }

  lemma {:induction false} AssignParses(name: string, e: Expr, rest: seq<Token>, st: State)
    requires Fits(Assign(name, e), st) && Follows(rest, 0)
    ensures Reads(Bare(Assign(name, e)) + rest, 0, st, rest, After(Assign(name, e), st))
    decreases Assign(name, e), 0
  {
    var right := Print(e, ASSIGNMENT);
    var more := [Equals] + (right + rest);
    ReadsPrefix(Identifier(name), more, 0, st, more, After(Var(name), st));
    AssignFits(name, e, st);
    ExprParses(e, ASSIGNMENT, 0, rest, Targeted(name, st));
    AssignOp(name, e, right + rest, rest, st);
    InfixParses([Identifier(name)], Equals, right, 0, rest, st, After(Var(name), st), After(Assign(name, e), st));
  }

  lemma CallOp(e: Expr, toks: seq<Token>, rest: seq<Token>, st: State)
    requires e.Call?
    requires ParseArgs(toks, 0, After(e.f, st)) == Parsed(AfterArgs(e.args, 0, After(e.f, st)), rest)
    ensures InfixReads(LeftParen, toks, After(e.f, st), rest, After(e, st))
  {
    AfterCall(e, st);
  }

  lemma CallFits(e: Expr, st: State)
    requires e.Call? && Fits(e, st)
    ensures |e.args| < 256 && Fits(e.f, st) && ArgsFit(e.args, Names(st.locals), After(e.f, st).constants)
  {
    assert ExprFits(e, Names(st.locals), st.constants);
  }

  lemma AfterCall(e: Expr, st: State)
    requires e.Call?
    ensures AfterArgs(e.args, 0, After(e.f, st)) == After(e, st)
  {
  }

  lemma {:induction false} CallParses(e: Expr, prec: nat, rest: seq<Token>, st: State)
    requires e.Call? && Fits(e, st) && prec < CALL
    ensures Reads(Bare(e) + rest, prec, st, rest, After(e, st))
    decreases e, 0
  {
    var right := PrintArgs(e.args, e.commas);
    CallFits(e, st);
    ExprParses(e.f, CALL, prec, [LeftParen] + (right + rest), st);
    ArgsParse(e.args, e.commas, 0, rest, After(e.f, st));
    CallOp(e, right + rest, rest, st);
    InfixParses(Print(e.f, CALL), LeftParen, right, prec, rest, st, After(e.f, st), After(e, st));
  }

  /** The parser state after the last of the arguments and the call, `count` arguments being read already. */
  function AfterArgs(args: seq<Expr>, count: nat, st: State): State {
    Emit(EmitChunk(st, GenArgs(args, Names(st.locals), st.constants)), [OpByte(OpCall), Operand(count + |args|)])
  }

  lemma {:induction false} ArgsParse(args: seq<Expr>, commas: seq<bool>, count: nat, rest: seq<Token>, st: State)
    requires ArgsFit(args, Names(st.locals), st.constants) && count + |args| < 256
    ensures ParseArgs(PrintArgs(args, commas) + rest, count, st) == Parsed(AfterArgs(args, count, st), rest)
    decreases args
  {
    if args == [] {
      NoArgsParse(count, rest, st);
    } else {
      var others := PrintArgs(args[1..], AfterFlag(commas));
      var sep := Separator(commas, others[0]);
      OthersStart(args[1..], AfterFlag(commas));
      SeparatorIs(commas, others, rest);
      FirstArgParses(args[0], count, sep, others + rest, st);
      ArgsParse(args[1..], AfterFlag(commas), count + 1, rest, After(args[0], st));
      Regroup(Print(args[0], ASSIGNMENT), sep, others, rest);
      AfterFirstArg(args, count, st);
    }
  }

  lemma NoArgsParse(count: nat, rest: seq<Token>, st: State)
    ensures ParseArgs([RightParen] + rest, count, st) == Parsed(AfterArgs([], count, st), rest)
  {
    assert ([RightParen] + rest)[1..] == rest;
    assert AfterArgs([], count, st) == Emit(st, [OpByte(OpCall), Operand(count)]);
  }

  /** What follows an argument: a comma, or the start of the next argument, or the end. */
  lemma OthersStart(args: seq<Expr>, commas: seq<bool>)
    ensures var t := PrintArgs(args, commas)[0]; t == RightParen || StartsExpr(t)
  {
    if args != [] {
      FirstToken(args[0], ASSIGNMENT, []);
    }
  }

  /** A comma, or nothing before a token that is neither a comma nor an operator. */
  predicate Separates(sep: seq<Token>, more: seq<Token>) {
    sep == [Comma] || (sep == [] && more != [] && more[0] != Comma && Precedence(more[0]) == 0)
  }

  lemma SeparatorIs(commas: seq<bool>, others: seq<Token>, rest: seq<Token>)
    requires others != [] && (others[0] == RightParen || StartsExpr(others[0]))
    ensures Separates(Separator(commas, others[0]), others + rest)
  {
  }

  lemma {:induction false} FirstArgParses(a: Expr, count: nat, sep: seq<Token>, more: seq<Token>, st: State)
    requires count < 255 && Separates(sep, more) && Fits(a, st)
    ensures ParseArgs(Print(a, ASSIGNMENT) + (sep + more), count, st) == ParseArgs(more, count + 1, After(a, st))
    decreases a, 5
  {
    ExprParses(a, ASSIGNMENT, 0, sep + more, st);
    ArgReads(a, count, sep, more, st);
  }

  /** One argument and what separates it from the next token. */
  lemma ArgReads(a: Expr, count: nat, sep: seq<Token>, more: seq<Token>, st: State)
    requires count < 255 && Separates(sep, more)
    requires Reads(Print(a, ASSIGNMENT) + (sep + more), 0, st, sep + more, After(a, st))
    ensures ParseArgs(Print(a, ASSIGNMENT) + (sep + more), count, st) == ParseArgs(more, count + 1, After(a, st))
  {
    var toks := Print(a, ASSIGNMENT) + (sep + more);
    ReadsWhole(toks, 0, st, sep + more, After(a, st));
    FirstToken(a, ASSIGNMENT, sep + more);
    SkipsSeparator(sep, more);
    ArgsGoOn(toks, count, st, Parsed(After(a, st), sep + more));
  }

  lemma SkipsSeparator(sep: seq<Token>, more: seq<Token>)
    requires sep == [Comma] || (sep == [] && (more == [] || more[0] != Comma))
    ensures SkipComma(sep + more) == more
  {
    if sep == [] {
      assert sep + more == more;
    } else {
      assert (sep + more)[1..] == more;
    }
  }

  lemma Regroup(a: seq<Token>, b: seq<Token>, c: seq<Token>, d: seq<Token>)
    ensures a + (b + c) + d == a + (b + (c + d))
  {
  }

  lemma AfterFirstArg(args: seq<Expr>, count: nat, st: State)
    requires args != []
    ensures AfterArgs(args[1..], count + 1, After(args[0], st)) == AfterArgs(args, count, st)
  {
  }

  /** A printed expression does not start with a closing parenthesis. */
  lemma {:induction false} FirstToken(e: Expr, min: nat, rest: seq<Token>)
    ensures var t := Print(e, min) + rest; t != [] && StartsExpr(t[0])
    decreases e
  {
    match e
    case Bin(op, l, r) =>
      FirstToken(l, Level(e), []);
    case And(l, r) =>
      FirstToken(l, Level(e), []);
    case Or(l, r) =>
      FirstToken(l, Level(e), []);
    case Call(f, args, commas) =>
      FirstToken(f, CALL, []);
    case _ =>
  }

  predicate StartsExpr(t: Token) {
    t.Identifier? || t.IntegerToken? || t.StringToken? || t.TrueToken? || t.FalseToken? || t.Minus? || t.LeftParen?
  }
}
