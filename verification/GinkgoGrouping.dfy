/**
  How the parser groups what it reads: the operators of the language from the loosest to the tightest, the
  trees in which operators nest accordingly, and the theorem that the tokens of such a tree, written without
  further parentheses, are compiled to the code of exactly that tree.
*/
module GinkgoGrouping {
  import opened Options
  import opened GinkgoValues
  import opened GinkgoCompile
  import opened GinkgoParse
  import opened GinkgoPrint

  // ---------------------------------------------------------------------------------------------
  // The operators
  // ---------------------------------------------------------------------------------------------

  /** The infix operators in classes, the loosest first. Above them come unary minus, then calls. */
  function Class(t: Token): (c: nat)
    ensures c <= UNARY
  {
    match t
    case Equals => 0
    case PipePipe => 1
    case AmpersandAmpersand => 2
    case EqualEquals | BangEquals | LessThanToken | LessEqualToken | GreaterThanToken | GreaterEqualToken => 3
    case Pipe => 4
    case Caret => 5
    case Ampersand => 6
    case Plus | Minus => 7
    case Asterix | Slash => 8
    case _ => UNARY
  }

  const UNARY: nat := 9
  const CALLS: nat := 10
  const OPERANDS: nat := 11

  /** An infix operator that takes two values. */
  predicate IsInfix(t: Token) {
    0 < Class(t) < UNARY
  }

  predicate IsOperand(t: Token) {
    t.Identifier? || t.IntegerToken? || t.StringToken? || t.TrueToken? || t.FalseToken?
  }

  // ---------------------------------------------------------------------------------------------
  // Trees of tokens
  // ---------------------------------------------------------------------------------------------

  datatype Tree =
    | Operand(t: Token)
    | Negated(e: Tree)
    | Joined(l: Tree, op: Token, r: Tree)
    | Called(f: Tree, args: seq<Tree>)
    | Grouped(e: Tree)

  /** How tightly the outermost operator of a tree binds. */
  function Rank(tree: Tree): nat {
    match tree
    case Joined(_, t, _) => Class(t)
    case Negated(_) => UNARY
    case Called(_, _) => CALLS
    case _ => OPERANDS
  }

  /**
    Operators nest by class: the left operand binds at least as tightly, the right operand tighter. Only a
    name can be assigned to, and what is assigned may hold any operator.
  */
  predicate WellGrouped(tree: Tree) {
    match tree
    case Operand(t) => IsOperand(t)
    case Negated(e) => UNARY <= Rank(e) && WellGrouped(e)
    case Joined(l, t, r) =>
      if t == Equals then l.Operand? && l.t.Identifier? && WellGrouped(r)
      else IsInfix(t) && Class(t) <= Rank(l) && Class(t) < Rank(r) && WellGrouped(l) && WellGrouped(r)
    case Called(f, args) => CALLS <= Rank(f) && WellGrouped(f) && forall a | a in args :: WellGrouped(a)
    case Grouped(e) => WellGrouped(e)
  }

  /** The tokens from left to right. */
  function Flat(tree: Tree): seq<Token> {
    match tree
    case Operand(t) => [t]
    case Negated(e) => [Minus] + Flat(e)
    case Joined(l, t, r) => Flat(l) + ([t] + Flat(r))
    case Called(f, args) => Flat(f) + ([LeftParen] + FlatArgs(args))
    case Grouped(e) => [LeftParen] + (Flat(e) + [RightParen])
  }

  function FlatArgs(args: seq<Tree>): seq<Token> {
    if args == [] then [RightParen]
    else Flat(args[0]) + ((if |args| == 1 then [] else [Comma]) + FlatArgs(args[1..]))
  }

  // ---------------------------------------------------------------------------------------------
  // What trees mean
  // ---------------------------------------------------------------------------------------------

  function OperandExpr(t: Token): Expr
    requires IsOperand(t)
  {
    match t
    case Identifier(name) => Var(name)
    case IntegerToken(n) => IntLit(n)
    case StringToken(s) => StrLit(s)
    case TrueToken => BoolLit(true)
    case FalseToken => BoolLit(false)
  }

  predicate IsBinary(t: Token) {
    2 < Class(t) < UNARY
  }

  function BinaryMeaning(t: Token): BinOp
    requires IsBinary(t)
  {
    match t
    case EqualEquals => Equal
    case BangEquals => NotEqual
    case LessThanToken => LessThan
    case LessEqualToken => LessEqual
    case GreaterThanToken => GreaterThan
    case GreaterEqualToken => GreaterEqual
    case Pipe => BitwiseOr
    case Caret => BitwiseXor
    case Ampersand => BitwiseAnd
    case Plus => Add
    case Minus => Subtract
    case Asterix => Multiply
    case Slash => Divide
  }

  /** An operator applied to two values. */
  function Applied(t: Token, l: Expr, r: Expr): Expr
    requires IsInfix(t)
  {
    if t == PipePipe then Or(l, r) else if t == AmpersandAmpersand then And(l, r) else Bin(BinaryMeaning(t), l, r)
  }

  function ExprOf(tree: Tree): Expr
    requires WellGrouped(tree)
  {
    match tree
    case Operand(t) => OperandExpr(t)
    case Negated(e) => Neg(ExprOf(e))
    case Joined(l, t, r) => if t == Equals then Assign(l.t.name, ExprOf(r)) else Applied(t, ExprOf(l), ExprOf(r))
    case Called(f, args) => Call(ExprOf(f), ExprsOf(args), Commas(|args|))
    case Grouped(e) => Paren(ExprOf(e))
  }

  function ExprsOf(args: seq<Tree>): seq<Expr>
    requires forall a | a in args :: WellGrouped(a)
  {
    if args == [] then [] else [ExprOf(args[0])] + ExprsOf(args[1..])
  }

  /** A comma after each argument but the last. */
  function Commas(n: nat): seq<bool> {
    if n == 0 then [] else [n > 1] + Commas(n - 1)
  }

  // ---------------------------------------------------------------------------------------------
  // Flat trees are printed trees
  // ---------------------------------------------------------------------------------------------

  lemma ClassIs(t: Token)
    ensures Class(t) < UNARY ==> Precedence(t) == Class(t) + 1
    ensures Class(t) == UNARY && t != LeftParen ==> Precedence(t) == 0
  {
  }

  /** The printer's level for a rank. */
  function LevelOf(rank: nat): nat {
    if rank < UNARY then rank + 1 else if rank == UNARY then PREFIX else if rank == CALLS then CALL else ATOM
  }

  lemma BinaryMeaningIs(t: Token)
    requires IsBinary(t)
    ensures BinaryToken(BinaryMeaning(t)) == t && BinaryPrecedence(BinaryMeaning(t)) == Class(t) + 1
  {
  }

  lemma BareInfix(op: BinOp, l: Expr, r: Expr)
    ensures Bare(Bin(op, l, r)) ==
            Print(l, BinaryPrecedence(op)) + ([BinaryToken(op)] + Print(r, BinaryPrecedence(op) + 1))
    ensures Bare(And(l, r)) == Print(l, LOGICAL_AND) + ([AmpersandAmpersand] + Print(r, LOGICAL_AND + 1))
    ensures Bare(Or(l, r)) == Print(l, LOGICAL_OR) + ([PipePipe] + Print(r, LOGICAL_OR + 1))
  {
  }

  lemma AppliedIs(t: Token, l: Expr, r: Expr)
    requires IsInfix(t)
    ensures var e := Applied(t, l, r);
            Level(e) == Class(t) + 1 && Bare(e) == Print(l, Class(t) + 1) + ([t] + Print(r, Class(t) + 2))
  {
    if IsBinary(t) {
      var op := BinaryMeaning(t);
      BinaryMeaningIs(t);
      BareInfix(op, l, r);
      assert Applied(t, l, r) == Bin(op, l, r);
    } else {
      BareInfix(Add, l, r);
    }
  }

  lemma LevelIs(tree: Tree)
    requires WellGrouped(tree)
    ensures Level(ExprOf(tree)) == LevelOf(Rank(tree))
  {
    if tree.Joined? && tree.op != Equals {
      AppliedIs(tree.op, ExprOf(tree.l), ExprOf(tree.r));
    }
  }

  lemma JoinedIsPrinted(l: Tree, t: Token, r: Tree)
    requires WellGrouped(Joined(l, t, r)) && t != Equals
    requires Flat(l) == Print(ExprOf(l), Class(t) + 1) && Flat(r) == Print(ExprOf(r), Class(t) + 2)
    ensures Flat(Joined(l, t, r)) == Bare(ExprOf(Joined(l, t, r)))
  {
    AppliedIs(t, ExprOf(l), ExprOf(r));
  }

  lemma {:induction false} FlatIsPrinted(tree: Tree, min: nat)
    requires WellGrouped(tree) && min <= LevelOf(Rank(tree))
    ensures Flat(tree) == Print(ExprOf(tree), min)
    decreases tree
  {
    LevelIs(tree);
    match tree
    case Operand(_) =>
    case Negated(e) =>
      FlatIsPrinted(e, PREFIX);
    case Joined(l, t, r) =>
      if t == Equals {
        FlatIsPrinted(r, ASSIGNMENT);
      } else {
        FlatIsPrinted(l, Class(t) + 1);
        FlatIsPrinted(r, Class(t) + 2);
        JoinedIsPrinted(l, t, r);
      }
    case Called(f, args) =>
      FlatIsPrinted(f, CALL);
      FlatArgsArePrinted(args);
    case Grouped(e) =>
      FlatIsPrinted(e, 0);
  }

  lemma {:induction false} FlatArgsArePrinted(args: seq<Tree>)
    requires forall a | a in args :: WellGrouped(a)
    ensures FlatArgs(args) == PrintArgs(ExprsOf(args), Commas(|args|))
    decreases args
  {
    if args != [] {
      FlatIsPrinted(args[0], ASSIGNMENT);
      FlatArgsArePrinted(args[1..]);
      assert ExprsOf(args)[1..] == ExprsOf(args[1..]);
      assert AfterFlag(Commas(|args|)) == Commas(|args| - 1);
    }
  }

  // ---------------------------------------------------------------------------------------------
  // Grouping
  // ---------------------------------------------------------------------------------------------

  /** Nothing that follows carries the expression on. */
  predicate Ends(rest: seq<Token>) {
    rest == [] || (Class(rest[0]) == UNARY && rest[0] != LeftParen)
  }

  /** Reading `toks` emits the code of `e` and leaves `rest`. */
  predicate Emits(toks: seq<Token>, rest: seq<Token>, st: State, e: Expr) {
    ParseExpr(toks + rest, 0, st) == Parsed(EmitChunk(st, Gen(e, Names(st.locals), st.constants)), rest)
  }

  /** A tree whose operators nest by class is what the parser makes of its tokens. */
  lemma GroupsByClass(tree: Tree, rest: seq<Token>, st: State)
    requires WellGrouped(tree) && Ends(rest) && ExprFits(ExprOf(tree), Names(st.locals), st.constants)
    ensures Emits(Flat(tree), rest, st, ExprOf(tree))
  {
    var e := ExprOf(tree);
    LevelIs(tree);
    FlatIsPrinted(tree, 0);
    if rest != [] {
      ClassIs(rest[0]);
    }
    ExprParses(e, 0, 0, rest, st);
    ReadsWhole(Flat(tree) + rest, 0, st, rest, After(e, st));
  }

  /** `op` and a further operand after a tree: they take the part of it on the right that binds tighter than `op`. */
  function Extend(tree: Tree, op: Token, operand: Tree): Tree {
    if tree.Joined? && Class(tree.op) < Class(op) then Joined(tree.l, tree.op, Extend(tree.r, op, operand))
    else Joined(tree, op, operand)
  }

  lemma {:induction false} ExtendGroups(tree: Tree, op: Token, operand: Tree)
    requires WellGrouped(tree) && IsInfix(op) && WellGrouped(operand) && UNARY <= Rank(operand)
    ensures WellGrouped(Extend(tree, op, operand))
    ensures Flat(Extend(tree, op, operand)) == Flat(tree) + ([op] + Flat(operand))
    ensures Rank(Extend(tree, op, operand)) == if Rank(tree) < Class(op) then Rank(tree) else Class(op)
    decreases tree
  {
    if tree.Joined? && Class(tree.op) < Class(op) {
      ExtendGroups(tree.r, op, operand);
      Regroup(Flat(tree.l), [tree.op], Flat(tree.r), [op] + Flat(operand));
    }
  }

  datatype Link = Link(op: Token, operand: Tree)

  /** Operands joined by any infix operators. */
  predicate IsChain(first: Tree, links: seq<Link>) {
    && WellGrouped(first) && UNARY <= Rank(first)
    && forall k | k in links :: IsInfix(k.op) && WellGrouped(k.operand) && UNARY <= Rank(k.operand)
  }

  function ChainTokens(first: Tree, links: seq<Link>): seq<Token> {
    if links == [] then Flat(first)
    else
      var last := links[|links| - 1];
      ChainTokens(first, links[..|links| - 1]) + ([last.op] + Flat(last.operand))
  }

  /** Every chain has its tree. */
  function ChainTree(first: Tree, links: seq<Link>): (tree: Tree)
    requires IsChain(first, links)
    ensures WellGrouped(tree) && Flat(tree) == ChainTokens(first, links)
  {
    if links == [] then first
    else
      var last := links[|links| - 1];
      var before := ChainTree(first, links[..|links| - 1]);
      ExtendGroups(before, last.op, last.operand);
      Extend(before, last.op, last.operand)
  }

  /** And every chain is compiled as its tree. */
  lemma ChainGroups(first: Tree, links: seq<Link>, rest: seq<Token>, st: State)
    requires IsChain(first, links) && Ends(rest)
    requires ExprFits(ExprOf(ChainTree(first, links)), Names(st.locals), st.constants)
    ensures Emits(ChainTokens(first, links), rest, st, ExprOf(ChainTree(first, links)))
  {
    GroupsByClass(ChainTree(first, links), rest, st);
  }

  // ---------------------------------------------------------------------------------------------
  // The code of small trees
  // ---------------------------------------------------------------------------------------------

  ghost predicate AlwaysFits(e: Expr, n: nat) {
    forall names: seq<string>, constants: seq<Value> ::
      ExprFits(e, names, constants) && |Gen(e, names, constants).code| <= n
  }

  /**
    The tree fits, with code of at most `n` bytes, wherever it is compiled.
    (Here and below the bound variable keeps the verifier from unfolding the condition wherever it is mentioned.)
  */
  ghost predicate Small(e: Expr, n: nat) {
    forall x | x == e :: AlwaysFits(x, n)
  }

  /** The tree fits here and is compiled to `c`. */
  ghost predicate Yields(e: Expr, names: seq<string>, constants: seq<Value>, c: Chunk) {
    forall x | x == e :: ExprFits(x, names, constants) && Gen(x, names, constants) == c
  }

  lemma SmallHere(e: Expr, n: nat, names: seq<string>, constants: seq<Value>)
    requires Small(e, n)
    ensures ExprFits(e, names, constants) && |Gen(e, names, constants).code| <= n
    ensures Yields(e, names, constants, Gen(e, names, constants))
  {
    assert AlwaysFits(e, n);
  }

  lemma OperandIsSmall(t: Token)
    requires IsOperand(t)
    ensures Small(OperandExpr(t), 2)
  {
    assert AlwaysFits(OperandExpr(t), 2);
  }

  lemma NegIsSmall(e: Expr, n: nat)
    requires Small(e, n)
    ensures Small(Neg(e), n + 1)
  {
    forall names: seq<string>, constants: seq<Value>
      ensures ExprFits(Neg(e), names, constants) && |Gen(Neg(e), names, constants).code| <= n + 1
    {
      SmallHere(e, n, names, constants);
    }
  }

  lemma AssignIsSmall(name: string, e: Expr, n: nat)
    requires Small(e, n)
    ensures Small(Assign(name, e), n + 2)
  {
    forall names: seq<string>, constants: seq<Value>
      ensures ExprFits(Assign(name, e), names, constants) && |Gen(Assign(name, e), names, constants).code| <= n + 2
    {
      SmallHere(e, n, names, AssignTarget(name, names, constants).constants);
    }
  }

  /** The code of an operator, from the codes of its operands. */
  function Combined(t: Token, x: seq<Byte>, y: seq<Byte>): (code: seq<Byte>)
    requires IsInfix(t) && |y| + 1 <= MAX_JUMP
    ensures |x| + |y| + 1 <= |code| <= |x| + |y| + 4
  {
    if t == PipePipe then x + Skip(OpJumpIfTrue, y)
    else if t == AmpersandAmpersand then x + Skip(OpJumpIfFalse, y)
    else x + y + [OpByte(OpBinary(BinaryMeaning(t)))]
  }

  lemma BinaryYields(op: BinOp, l: Expr, r: Expr, names: seq<string>, constants: seq<Value>, c: Chunk, d: Chunk)
    requires Yields(l, names, constants, c) && Yields(r, names, c.constants, d)
    ensures Yields(Bin(op, l, r), names, constants, Chunk(c.code + d.code + [OpByte(OpBinary(op))], d.constants))
  {
    assert ExprFits(l, names, constants) && ExprFits(r, names, c.constants);
  }

  lemma OrYields(l: Expr, r: Expr, names: seq<string>, constants: seq<Value>, c: Chunk, d: Chunk)
    requires Yields(l, names, constants, c) && Yields(r, names, c.constants, d) && |d.code| <= 100
    ensures Yields(Or(l, r), names, constants, Chunk(c.code + Skip(OpJumpIfTrue, d.code), d.constants))
  {
    assert ExprFits(l, names, constants) && ExprFits(r, names, c.constants);
  }

  lemma AndYields(l: Expr, r: Expr, names: seq<string>, constants: seq<Value>, c: Chunk, d: Chunk)
    requires Yields(l, names, constants, c) && Yields(r, names, c.constants, d) && |d.code| <= 100
    ensures Yields(And(l, r), names, constants, Chunk(c.code + Skip(OpJumpIfFalse, d.code), d.constants))
  {
    assert ExprFits(l, names, constants) && ExprFits(r, names, c.constants);
  }

  lemma AppliedYields(t: Token, l: Expr, r: Expr, names: seq<string>, constants: seq<Value>, c: Chunk, d: Chunk)
    requires IsInfix(t) && Yields(l, names, constants, c) && Yields(r, names, c.constants, d) && |d.code| <= 100
    ensures Yields(Applied(t, l, r), names, constants, Chunk(Combined(t, c.code, d.code), d.constants))
  {
    if t == PipePipe {
      OrYields(l, r, names, constants, c, d);
    } else if t == AmpersandAmpersand {
      AndYields(l, r, names, constants, c, d);
    } else {
      BinaryYields(BinaryMeaning(t), l, r, names, constants, c, d);
    }
  }

  lemma AppliedIsSmall(t: Token, l: Expr, r: Expr, n: nat, m: nat)
    requires IsInfix(t) && Small(l, n) && Small(r, m) && m <= 100
    ensures Small(Applied(t, l, r), n + m + 4)
  {
    var e := Applied(t, l, r);
    forall names: seq<string>, constants: seq<Value>
      ensures ExprFits(e, names, constants) && |Gen(e, names, constants).code| <= n + m + 4
    {
      var c := Gen(l, names, constants);
      SmallHere(l, n, names, constants);
      SmallHere(r, m, names, c.constants);
      AppliedYields(t, l, r, names, constants, c, Gen(r, names, c.constants));
    }
  }

  /** The call of a named function with one operand. */
  function CallOf(f: string, x: Token): Expr
    requires IsOperand(x)
  {
    Call(Var(f), [OperandExpr(x)], [false])
  }

  lemma CallIsSmall(f: string, x: Token)
    requires IsOperand(x)
    ensures Small(CallOf(f, x), 6)
  {
    var e := OperandExpr(x);
    OperandIsSmall(Identifier(f));
    OperandIsSmall(x);
    forall names: seq<string>, constants: seq<Value>
      ensures ExprFits(CallOf(f, x), names, constants) && |Gen(CallOf(f, x), names, constants).code| <= 6
    {
      var pool := Gen(Var(f), names, constants).constants;
      SmallHere(OperandExpr(Identifier(f)), 2, names, constants);
      SmallHere(e, 2, names, pool);
      OneArgument(e, names, pool);
    }
  }

  lemma OneArgument(e: Expr, names: seq<string>, pool: seq<Value>)
    requires ExprFits(e, names, pool)
    ensures ArgsFit([e], names, pool) && GenArgs([e], names, pool).code == Gen(e, names, pool).code
  {
    assert [e][1..] == [];
    assert GenArgs([e], names, pool).code == Gen(e, names, pool).code + [];
  }

  // ---------------------------------------------------------------------------------------------
  // The other grouping emits other code
  // ---------------------------------------------------------------------------------------------

  /** Code that starts neither with an operator nor with a jump. */
  predicate StartsOperand(z: seq<Byte>) {
    z != [] &&
    var op := OpcodeOf(z[0]);
    op.Some? && !op.value.OpBinary? && !op.value.OpJumpIfTrue? && !op.value.OpJumpIfFalse?
  }

  /** After the code of the left operand there is no operator yet. */
  lemma NotYet(t: Token, op: BinOp, y: seq<Byte>, z: seq<Byte>)
    requires IsInfix(t) && |z| <= 100 && StartsOperand(z)
    ensures Combined(t, y, z)[|y|] != OpByte(OpBinary(op))
  {
    OpcodeRoundTrip(OpBinary(op));
    OpcodeRoundTrip(OpJumpIfTrue);
    OpcodeRoundTrip(OpJumpIfFalse);
  }

  /** The code of a short circuit holds the length of what it jumps over. */
  lemma HoldsLength(t: Token, x: seq<Byte>, y: seq<Byte>)
    requires IsInfix(t) && !IsBinary(t) && |y| <= 100
    ensures Combined(t, x, y)[|x| + 1] == |y| + 1
  {
  }

  lemma StartsLeft(t: Token, x: seq<Byte>, y: seq<Byte>, i: nat)
    requires IsInfix(t) && |y| <= 100 && i < |x|
    ensures Combined(t, x, y)[i] == x[i]
  {
  }

  /** Two operators over the same three codes nest in two ways that emit different code. */
  lemma NestingsDiffer(o1: Token, o2: Token, x: seq<Byte>, y: seq<Byte>, z: seq<Byte>)
    requires IsInfix(o1) && IsInfix(o2) && |y| <= 2 && |z| <= 2 && StartsOperand(z)
    ensures Combined(o2, Combined(o1, x, y), z) != Combined(o1, x, Combined(o2, y, z))
  {
    var inner, w := Combined(o1, x, y), Combined(o2, y, z);
    if IsBinary(o1) {
      var k := |x| + |y|;
      NotYet(o2, BinaryMeaning(o1), y, z);
      StartsLeft(o2, inner, z, k);
      assert (x + w + [OpByte(OpBinary(BinaryMeaning(o1)))])[k] == w[|y|];
    } else {
      HoldsLength(o1, x, y);
      HoldsLength(o1, x, w);
      StartsLeft(o2, inner, z, |x| + 1);
    }
  }

  lemma OperandCode(t: Token, names: seq<string>, constants: seq<Value>)
    requires IsOperand(t)
    ensures StartsOperand(Gen(OperandExpr(t), names, constants).code)
  {
  }

  lemma TreesDiffer(a: Token, o1: Token, b: Token, o2: Token, c: Token, names: seq<string>, constants: seq<Value>)
    requires IsOperand(a) && IsOperand(b) && IsOperand(c) && IsInfix(o1) && IsInfix(o2)
    ensures var e, f, g := OperandExpr(a), OperandExpr(b), OperandExpr(c);
            Gen(Applied(o2, Applied(o1, e, f), g), names, constants).code !=
            Gen(Applied(o1, e, Applied(o2, f, g)), names, constants).code
  {
    var e, f, g := OperandExpr(a), OperandExpr(b), OperandExpr(c);
    var x := Gen(e, names, constants);
    var y := Gen(f, names, x.constants);
    var z := Gen(g, names, y.constants);
    OperandIsSmall(a);
    OperandIsSmall(b);
    OperandIsSmall(c);
    SmallHere(e, 2, names, constants);
    SmallHere(f, 2, names, x.constants);
    SmallHere(g, 2, names, y.constants);
    OperandCode(c, names, y.constants);
    NestingsYield(o1, o2, e, f, g, names, constants, x, y, z);
    NestingsDiffer(o1, o2, x.code, y.code, z.code);
    YieldedCode(Applied(o2, Applied(o1, e, f), g), names, constants,
                Chunk(Combined(o2, Combined(o1, x.code, y.code), z.code), z.constants));
    YieldedCode(Applied(o1, e, Applied(o2, f, g)), names, constants,
                Chunk(Combined(o1, x.code, Combined(o2, y.code, z.code)), z.constants));
  }

  lemma YieldedCode(e: Expr, names: seq<string>, constants: seq<Value>, c: Chunk)
    requires Yields(e, names, constants, c)
    ensures Gen(e, names, constants).code == c.code
  {
  }

  lemma NestingsYield(o1: Token, o2: Token, e: Expr, f: Expr, g: Expr, names: seq<string>, constants: seq<Value>,
                      x: Chunk, y: Chunk, z: Chunk)
    requires IsInfix(o1) && IsInfix(o2) && |y.code| <= 2 && |z.code| <= 2
    requires Yields(e, names, constants, x) && Yields(f, names, x.constants, y) && Yields(g, names, y.constants, z)
    ensures Yields(Applied(o2, Applied(o1, e, f), g), names, constants,
                   Chunk(Combined(o2, Combined(o1, x.code, y.code), z.code), z.constants))
    ensures Yields(Applied(o1, e, Applied(o2, f, g)), names, constants,
                   Chunk(Combined(o1, x.code, Combined(o2, y.code, z.code)), z.constants))
  {
    AppliedYields(o1, e, f, names, constants, x, y);
    AppliedYields(o2, Applied(o1, e, f), g, names, constants, Chunk(Combined(o1, x.code, y.code), y.constants), z);
    AppliedYields(o2, f, g, names, x.constants, y, z);
    AppliedYields(o1, e, Applied(o2, f, g), names, constants, x, Chunk(Combined(o2, y.code, z.code), z.constants));
  }

  // ---------------------------------------------------------------------------------------------
  // Small trees
  // ---------------------------------------------------------------------------------------------

  /** The tree is well grouped, has these tokens and means this small expression. */
  ghost predicate Stands(tree: Tree, toks: seq<Token>, e: Expr, n: nat) {
    Small(e, n) && forall t | t == tree :: WellGrouped(t) && Flat(t) == toks && ExprOf(t) == e
  }

  lemma OperandStands(t: Token)
    requires IsOperand(t)
    ensures Stands(Operand(t), [t], OperandExpr(t), 2)
  {
    OperandIsSmall(t);
  }

  lemma MinusStands(tree: Tree, toks: seq<Token>, e: Expr, n: nat)
    requires Stands(tree, toks, e, n) && UNARY <= Rank(tree)
    ensures Stands(Negated(tree), [Minus] + toks, Neg(e), n + 1)
  {
    NegIsSmall(e, n);
    assert WellGrouped(tree);
  }

  lemma JoinStands(l: Tree, t: Token, r: Tree, toks: seq<Token>, others: seq<Token>, e: Expr, f: Expr, n: nat, m: nat)
    requires Stands(l, toks, e, n) && Stands(r, others, f, m) && m <= 100
    requires IsInfix(t) && Class(t) <= Rank(l) && Class(t) < Rank(r)
    ensures Stands(Joined(l, t, r), toks + ([t] + others), Applied(t, e, f), n + m + 4)
  {
    AppliedIsSmall(t, e, f, n, m);
    assert WellGrouped(l) && WellGrouped(r);
  }

  lemma AssignStands(name: string, tree: Tree, toks: seq<Token>, e: Expr, n: nat)
    requires Stands(tree, toks, e, n)
    ensures Stands(Joined(Operand(Identifier(name)), Equals, tree), [Identifier(name)] + ([Equals] + toks),
                   Assign(name, e), n + 2)
  {
    var whole := Joined(Operand(Identifier(name)), Equals, tree);
    AssignIsSmall(name, e, n);
    assert WellGrouped(tree);
    assert Flat(Operand(Identifier(name))) == [Identifier(name)];
    assert WellGrouped(whole) && Flat(whole) == [Identifier(name)] + ([Equals] + toks);
    assert ExprOf(whole) == Assign(name, e);
  }

  lemma CallStands(f: string, x: Token)
    requires IsOperand(x)
    ensures Stands(Called(Operand(Identifier(f)), [Operand(x)]), [Identifier(f), LeftParen, x, RightParen],
                   CallOf(f, x), 6)
  {
    CallIsSmall(f, x);
    CallTree(f, x);
  }

  lemma CallTree(f: string, x: Token)
    requires IsOperand(x)
    ensures var call := Called(Operand(Identifier(f)), [Operand(x)]);
            && WellGrouped(call) && ExprOf(call) == CallOf(f, x)
            && Flat(call) == [Identifier(f), LeftParen, x, RightParen]
  {
    var args := [Operand(x)];
    assert args[1..] == [];
    assert FlatArgs(args) == [x] + ([] + [RightParen]);
    assert ExprsOf(args) == [OperandExpr(x)];
    assert Commas(1) == [false];
  }

  lemma StandsEmits(tree: Tree, toks: seq<Token>, e: Expr, n: nat, written: seq<Token>, rest: seq<Token>, st: State)
    requires Stands(tree, toks, e, n) && Ends(rest) && written == toks
    ensures Emits(written, rest, st, e)
  {
    SmallHere(e, n, Names(st.locals), st.constants);
    assert WellGrouped(tree);
    GroupsByClass(tree, rest, st);
  }

  // ---------------------------------------------------------------------------------------------
  // Short chains, written out
  // ---------------------------------------------------------------------------------------------

  /** Of two operators the one of the later class takes the operand between them; of one class, the first. */
  lemma TwoOperators(a: Token, o1: Token, b: Token, o2: Token, c: Token, rest: seq<Token>, st: State)
    requires IsOperand(a) && IsOperand(b) && IsOperand(c) && IsInfix(o1) && IsInfix(o2) && Ends(rest)
    ensures var e, f, g := OperandExpr(a), OperandExpr(b), OperandExpr(c);
            && (Class(o1) < Class(o2) <==> Emits([a, o1, b, o2, c], rest, st, Applied(o1, e, Applied(o2, f, g))))
            && (Class(o2) <= Class(o1) <==> Emits([a, o1, b, o2, c], rest, st, Applied(o2, Applied(o1, e, f), g)))
  {
    var e, f, g := OperandExpr(a), OperandExpr(b), OperandExpr(c);
    if Class(o1) < Class(o2) {
      RightTakes(a, o1, b, o2, c, rest, st);
    } else {
      LeftTakes(a, o1, b, o2, c, rest, st);
    }
    TreesDiffer(a, o1, b, o2, c, Names(st.locals), st.constants);
    EmitsOnce([a, o1, b, o2, c], rest, st, Applied(o1, e, Applied(o2, f, g)), Applied(o2, Applied(o1, e, f), g));
  }

  lemma EmitsOnce(toks: seq<Token>, rest: seq<Token>, st: State, e: Expr, f: Expr)
    requires Gen(e, Names(st.locals), st.constants).code != Gen(f, Names(st.locals), st.constants).code
    ensures !(Emits(toks, rest, st, e) && Emits(toks, rest, st, f))
  {
    var c, d := Gen(e, Names(st.locals), st.constants).code, Gen(f, Names(st.locals), st.constants).code;
    assert (st.code + c)[|st.code|..] == c && (st.code + d)[|st.code|..] == d;
  }

  lemma RightTakes(a: Token, o1: Token, b: Token, o2: Token, c: Token, rest: seq<Token>, st: State)
    requires IsOperand(a) && IsOperand(b) && IsOperand(c) && IsInfix(o1) && IsInfix(o2) && Ends(rest)
    requires Class(o1) < Class(o2)
    ensures Emits([a, o1, b, o2, c], rest, st, Applied(o1, OperandExpr(a), Applied(o2, OperandExpr(b), OperandExpr(c))))
  {
    var e, f, g := OperandExpr(a), OperandExpr(b), OperandExpr(c);
    var right := Joined(Operand(b), o2, Operand(c));
    OperandStands(a);
    OperandStands(b);
    OperandStands(c);
    JoinStands(Operand(b), o2, Operand(c), [b], [c], f, g, 2, 2);
    JoinStands(Operand(a), o1, right, [a], [b] + ([o2] + [c]), e, Applied(o2, f, g), 2, 8);
    StandsEmits(Joined(Operand(a), o1, right), [a] + ([o1] + ([b] + ([o2] + [c]))), Applied(o1, e, Applied(o2, f, g)), 14,
                [a, o1, b, o2, c], rest, st);
  }

  lemma LeftTakes(a: Token, o1: Token, b: Token, o2: Token, c: Token, rest: seq<Token>, st: State)
    requires IsOperand(a) && IsOperand(b) && IsOperand(c) && IsInfix(o1) && IsInfix(o2) && Ends(rest)
    requires Class(o2) <= Class(o1)
    ensures Emits([a, o1, b, o2, c], rest, st, Applied(o2, Applied(o1, OperandExpr(a), OperandExpr(b)), OperandExpr(c)))
  {
    var e, f, g := OperandExpr(a), OperandExpr(b), OperandExpr(c);
    var left := Joined(Operand(a), o1, Operand(b));
    OperandStands(a);
    OperandStands(b);
    OperandStands(c);
    JoinStands(Operand(a), o1, Operand(b), [a], [b], e, f, 2, 2);
    JoinStands(left, o2, Operand(c), [a] + ([o1] + [b]), [c], Applied(o1, e, f), g, 8, 2);
    StandsEmits(Joined(left, o2, Operand(c)), [a] + ([o1] + [b]) + ([o2] + [c]), Applied(o2, Applied(o1, e, f), g), 14,
                [a, o1, b, o2, c], rest, st);
  }

  /** A minus sign takes the operand after it and no more. */
  lemma MinusTakesOperand(a: Token, o: Token, b: Token, rest: seq<Token>, st: State)
    requires IsOperand(a) && IsInfix(o) && IsOperand(b) && Ends(rest)
    ensures Emits([Minus, a, o, b], rest, st, Applied(o, Neg(OperandExpr(a)), OperandExpr(b)))
    ensures Emits([a, o, Minus, b], rest, st, Applied(o, OperandExpr(a), Neg(OperandExpr(b))))
  {
    var e, f := OperandExpr(a), OperandExpr(b);
    OperandStands(a);
    OperandStands(b);
    MinusStands(Operand(a), [a], e, 2);
    MinusStands(Operand(b), [b], f, 2);
    JoinStands(Negated(Operand(a)), o, Operand(b), [Minus] + [a], [b], Neg(e), f, 3, 2);
    JoinStands(Operand(a), o, Negated(Operand(b)), [a], [Minus] + [b], e, Neg(f), 2, 3);
    StandsEmits(Joined(Negated(Operand(a)), o, Operand(b)), [Minus] + [a] + ([o] + [b]), Applied(o, Neg(e), f), 9,
                [Minus, a, o, b], rest, st);
    StandsEmits(Joined(Operand(a), o, Negated(Operand(b))), [a] + ([o] + ([Minus] + [b])), Applied(o, e, Neg(f)), 9,
                [a, o, Minus, b], rest, st);
  }

  /** A call comes before any operator on either side of it, the minus sign included. */
  lemma CallTakesName(a: Token, o: Token, f: string, x: Token, rest: seq<Token>, st: State)
    requires IsOperand(a) && IsInfix(o) && IsOperand(x) && Ends(rest)
    ensures Emits([Minus, Identifier(f), LeftParen, x, RightParen], rest, st, Neg(CallOf(f, x)))
    ensures Emits([a, o, Identifier(f), LeftParen, x, RightParen], rest, st, Applied(o, OperandExpr(a), CallOf(f, x)))
    ensures Emits([Identifier(f), LeftParen, x, RightParen, o, a], rest, st, Applied(o, CallOf(f, x), OperandExpr(a)))
  {
    var call, toks := Called(Operand(Identifier(f)), [Operand(x)]), [Identifier(f), LeftParen, x, RightParen];
    var e, g := OperandExpr(a), CallOf(f, x);
    OperandStands(a);
    CallStands(f, x);
    MinusStands(call, toks, g, 6);
    JoinStands(Operand(a), o, call, [a], toks, e, g, 2, 6);
    JoinStands(call, o, Operand(a), toks, [a], g, e, 6, 2);
    StandsEmits(Negated(call), [Minus] + toks, Neg(g), 7, [Minus, Identifier(f), LeftParen, x, RightParen], rest, st);
    StandsEmits(Joined(Operand(a), o, call), [a] + ([o] + toks), Applied(o, e, g), 12,
                [a, o, Identifier(f), LeftParen, x, RightParen], rest, st);
    StandsEmits(Joined(call, o, Operand(a)), toks + ([o] + [a]), Applied(o, g, e), 12,
                [Identifier(f), LeftParen, x, RightParen, o, a], rest, st);
  }

  /** An assignment takes everything after it, further assignments included. */
  lemma AssignmentTakesAll(x: string, y: string, b: Token, o: Token, c: Token, rest: seq<Token>, st: State)
    requires IsOperand(b) && IsInfix(o) && IsOperand(c) && Ends(rest)
    ensures Emits([Identifier(x), Equals, b, o, c], rest, st, Assign(x, Applied(o, OperandExpr(b), OperandExpr(c))))
    ensures Emits([Identifier(x), Equals, Identifier(y), Equals, c], rest, st, Assign(x, Assign(y, OperandExpr(c))))
  {
    var e, f, sum := OperandExpr(b), OperandExpr(c), Joined(Operand(b), o, Operand(c));
    var inner := Joined(Operand(Identifier(y)), Equals, Operand(c));
    OperandStands(b);
    OperandStands(c);
    JoinStands(Operand(b), o, Operand(c), [b], [c], e, f, 2, 2);
    AssignStands(x, sum, [b] + ([o] + [c]), Applied(o, e, f), 8);
    AssignStands(y, Operand(c), [c], f, 2);
    AssignStands(x, inner, [Identifier(y)] + ([Equals] + [c]), Assign(y, f), 4);
    StandsEmits(Joined(Operand(Identifier(x)), Equals, sum), [Identifier(x)] + ([Equals] + ([b] + ([o] + [c]))),
                Assign(x, Applied(o, e, f)), 10, [Identifier(x), Equals, b, o, c], rest, st);
    StandsEmits(Joined(Operand(Identifier(x)), Equals, inner),
                [Identifier(x)] + ([Equals] + ([Identifier(y)] + ([Equals] + [c]))), Assign(x, Assign(y, f)), 6,
                [Identifier(x), Equals, Identifier(y), Equals, c], rest, st);
  }
}
