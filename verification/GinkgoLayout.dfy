/**
  Parentheses that precedences do not require and commas that calls do not need make no difference:
  programs that are the same without them compile to the same chunk.
*/
module GinkgoLayout {
  import opened Options
  import opened GinkgoValues
  import opened GinkgoCompile
  import opened GinkgoParse
  import opened GinkgoPrintStmts

  /** The tree without the parentheses and commas it was written with. */
  function Strip(e: Expr): Expr
    decreases e
  {
    match e
    case Neg(e1) => Neg(Strip(e1))
    case Bin(op, l, r) => Bin(op, Strip(l), Strip(r))
    case And(l, r) => And(Strip(l), Strip(r))
    case Or(l, r) => Or(Strip(l), Strip(r))
    case Assign(name, e1) => Assign(name, Strip(e1))
    case Call(f, args, _) => Call(Strip(f), StripArgs(args), [])
    case Paren(e1) => Strip(e1)
    case _ => e
  }

  function StripArgs(args: seq<Expr>): (r: seq<Expr>)
    ensures |r| == |args|
    decreases args
  {
    if args == [] then [] else [Strip(args[0])] + StripArgs(args[1..])
  }

  function StripStmt(s: Stmt): Stmt
    decreases s
  {
    match s
    case Let(name, e) => Let(name, Strip(e))
    case Block(body) => Block(StripAll(body))
    case If(cond, thn, els) => If(Strip(cond), StripAll(thn), StripBranch(els))
    case While(cond, body) => While(Strip(cond), StripAll(body))
    case Eval(e) => Eval(Strip(e))
  }

  function StripBranch(b: Branch): Branch
    decreases b
  {
    match b
    case NoElse => NoElse
    case Else(body) => Else(StripAll(body))
  }

  function StripAll(body: seq<Stmt>): seq<Stmt>
    decreases body
  {
    if body == [] then [] else [StripStmt(body[0])] + StripAll(body[1..])
  }

  // ---------------------------------------------------------------------------------------------
  // The code is the same
  // ---------------------------------------------------------------------------------------------

  ghost predicate SameExpr(d: Expr, e: Expr, names: seq<string>, constants: seq<Value>) {
    Gen(d, names, constants) == Gen(e, names, constants) && (ExprFits(d, names, constants) <==> ExprFits(e, names, constants))
  }

  lemma {:induction false} StripKeepsExpr(e: Expr, names: seq<string>, constants: seq<Value>)
    ensures SameExpr(Strip(e), e, names, constants)
    decreases e
  {
    match e
    case Neg(e1) => StripKeepsExpr(e1, names, constants);
    case Bin(_, l, r) =>
      StripKeepsExpr(l, names, constants);
      StripKeepsExpr(r, names, Gen(l, names, constants).constants);
    case And(l, r) =>
      StripKeepsExpr(l, names, constants);
      StripKeepsExpr(r, names, Gen(l, names, constants).constants);
    case Or(l, r) =>
      StripKeepsExpr(l, names, constants);
      StripKeepsExpr(r, names, Gen(l, names, constants).constants);
    case Assign(name, e1) => StripKeepsExpr(e1, names, AssignTarget(name, names, constants).constants);
    case Call(f, args, _) =>
      StripKeepsExpr(f, names, constants);
      StripKeepsArgs(args, names, Gen(f, names, constants).constants);
    case Paren(e1) => StripKeepsExpr(e1, names, constants);
    case _ =>
  }

  lemma {:induction false} StripKeepsArgs(args: seq<Expr>, names: seq<string>, constants: seq<Value>)
    ensures GenArgs(StripArgs(args), names, constants) == GenArgs(args, names, constants)
    ensures ArgsFit(StripArgs(args), names, constants) <==> ArgsFit(args, names, constants)
    decreases args
  {
    if args != [] {
      StripKeepsExpr(args[0], names, constants);
      StripKeepsArgs(args[1..], names, Gen(args[0], names, constants).constants);
      assert StripArgs(args)[1..] == StripArgs(args[1..]);
    }
  }

  lemma {:induction false} StripKeepsStmt(s: Stmt, top: bool, names: seq<string>, constants: seq<Value>)
    ensures GenStmt(StripStmt(s), top, names, constants) == GenStmt(s, top, names, constants)
    ensures StmtFits(StripStmt(s), top, names, constants) <==> StmtFits(s, top, names, constants)
    decreases s
  {
    match s
    case Let(name, e) => StripKeepsExpr(e, if top then names else names + [name], constants);
    case Block(body) => StripKeepsScope(body, names, constants);
    case If(cond, thn, els) =>
      var c := Gen(cond, names, constants);
      StripKeepsExpr(cond, names, constants);
      StripKeepsScope(thn, names, c.constants);
      StripKeepsBranch(els, names, GenScope(thn, names, c.constants).constants);
    case While(cond, body) =>
      StripKeepsExpr(cond, names, constants);
      StripKeepsScope(body, names, Gen(cond, names, constants).constants);
    case Eval(e) => StripKeepsExpr(e, names, constants);
  }

  lemma {:induction false} StripKeepsBranch(b: Branch, names: seq<string>, constants: seq<Value>)
    ensures GenBranch(StripBranch(b), names, constants) == GenBranch(b, names, constants)
    ensures BranchFits(StripBranch(b), names, constants) <==> BranchFits(b, names, constants)
    decreases b
  {
    if b.Else? {
      StripKeepsScope(b.body, names, constants);
    }
  }

  lemma {:induction false} StripKeepsScope(body: seq<Stmt>, names: seq<string>, constants: seq<Value>)
    ensures GenScope(StripAll(body), names, constants) == GenScope(body, names, constants)
    ensures StmtsFit(StripAll(body), false, names, constants) <==> StmtsFit(body, false, names, constants)
    decreases body, 1
  {
    StripKeepsAll(body, false, names, constants);
  }

  lemma {:induction false} StripKeepsAll(body: seq<Stmt>, top: bool, names: seq<string>, constants: seq<Value>)
    ensures GenStmts(StripAll(body), top, names, constants) == GenStmts(body, top, names, constants)
    ensures StmtsFit(StripAll(body), top, names, constants) <==> StmtsFit(body, top, names, constants)
    decreases body, 0
  {
    if body != [] {
      var c := GenStmt(body[0], top, names, constants);
      StripKeepsStmt(body[0], top, names, constants);
      StripKeepsAll(body[1..], top, c.names, c.constants);
      assert StripAll(body)[1..] == StripAll(body[1..]);
    }
  }

  /** Two ways to write the same program, with other parentheses and commas, parse to the same chunk. */
  lemma LayoutIsIrrelevant(body: seq<Stmt>, other: seq<Stmt>)
    requires StmtsFit(body, true, [], []) && StripAll(body) == StripAll(other)
    ensures ParseProgram(PrintProgram(body)) == Some(GenProgram(StripAll(body)))
    ensures ParseProgram(PrintProgram(other)) == Some(GenProgram(StripAll(body)))
  {
    StripKeepsAll(body, true, [], []);
    StripKeepsAll(other, true, [], []);
    ProgramParses(body);
    ProgramParses(other);
  }
}
