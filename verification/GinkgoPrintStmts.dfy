/** Statements and whole programs, printed and parsed back. */
module GinkgoPrintStmts {
  import opened Options
  import opened GinkgoValues
  import opened GinkgoCompile
  import opened GinkgoParse
  import opened GinkgoPrint

  // ---------------------------------------------------------------------------------------------
  // Printing
  // ---------------------------------------------------------------------------------------------

  function PrintStmt(s: Stmt): seq<Token> {
    match s
    case Let(name, e) => [LetToken, Identifier(name), Equals] + (Print(e, ASSIGNMENT) + [Semicolon])
    case Block(body) => [LeftBrace] + PrintScope(body)
    case If(cond, thn, els) =>
      [IfToken] + (Print(cond, ASSIGNMENT) + ([LeftBrace] + (PrintScope(thn) + PrintBranch(els))))
    case While(cond, body) => [WhileToken] + (Print(cond, ASSIGNMENT) + ([LeftBrace] + PrintScope(body)))
    case Eval(e) => Print(e, ASSIGNMENT) + [Semicolon]
  }

  function PrintBranch(b: Branch): seq<Token> {
    match b
    case NoElse => []
    case Else(body) => [ElseToken, LeftBrace] + PrintScope(body)
  }

  /** The statements and the closing brace. */
  function PrintScope(body: seq<Stmt>): seq<Token> {
    if body == [] then [RightBrace] else PrintStmt(body[0]) + PrintScope(body[1..])
  }

  function PrintProgram(body: seq<Stmt>): seq<Token> {
    if body == [] then [] else PrintStmt(body[0]) + PrintProgram(body[1..])
  }

  // ---------------------------------------------------------------------------------------------
  // The parser state after a statement
  // ---------------------------------------------------------------------------------------------

  function LocalsAfter(s: Stmt, st: State): seq<Local> {
    if s.Let? && st.depth > 0 then st.locals + [Local(s.name, st.depth)] else st.locals
  }

  function AfterStmt(s: Stmt, st: State): State {
    var c := GenStmt(s, st.depth == 0, Names(st.locals), st.constants);
    State(st.code + c.code, c.constants, LocalsAfter(s, st), st.depth)
  }

  function AfterStmts(body: seq<Stmt>, st: State): State {
    if body == [] then st else AfterStmts(body[1..], AfterStmt(body[0], st))
  }

  /** The state after a scope whose opening brace has been read. */
  function AfterScope(body: seq<Stmt>, st: State): State {
    EmitChunk(st, GenScope(body, Names(st.locals), st.constants))
  }

  lemma NamesAfter(s: Stmt, st: State)
    ensures Names(LocalsAfter(s, st)) == GenStmt(s, st.depth == 0, Names(st.locals), st.constants).names
  {
  }

  /** Statement after statement, the state agrees with the code of the whole sequence. */
  lemma {:induction false} AfterStmtsAgrees(body: seq<Stmt>, st: State)
    ensures var c := GenStmts(body, st.depth == 0, Names(st.locals), st.constants);
            var after := AfterStmts(body, st);
            after.code == st.code + c.code && after.constants == c.constants
            && Names(after.locals) == c.names && after.depth == st.depth
    decreases body
  {
    if body != [] {
      NamesAfter(body[0], st);
      AfterStmtsAgrees(body[1..], AfterStmt(body[0], st));
    }
  }

  /** Statements in a scope add locals of that depth at the end and touch no others. */
  lemma {:induction false} AddsLocals(body: seq<Stmt>, st: State) returns (added: seq<Local>)
    requires st.depth > 0
    ensures AfterStmts(body, st).locals == st.locals + added
    ensures forall l | l in added :: l.depth == st.depth
    decreases body
  {
    if body == [] {
      added := [];
    } else {
      var more := AddsLocals(body[1..], AfterStmt(body[0], st));
      added := (if body[0].Let? then [Local(body[0].name, st.depth)] else []) + more;
    }
  }

  /** No local belongs to a scope that is not open. */
  predicate InScope(locals: seq<Local>, depth: nat) {
    forall i | 0 <= i < |locals| :: locals[i].depth <= depth
  }

  /** The filter of `end_scope` counts exactly the locals added since the scope began. */
  lemma {:induction false} CountsAdded(locals: seq<Local>, added: seq<Local>, depth: nat)
    requires InScope(locals, depth) && forall l | l in added :: l.depth > depth
    ensures CountDeeper(locals + added, depth) == |added|
    decreases |locals| + |added|
  {
    var all := locals + added;
    if added != [] {
      assert all[|all| - 1] == added[|added| - 1];
      assert all[..|all| - 1] == locals + added[..|added| - 1];
      CountsAdded(locals, added[..|added| - 1], depth);
    } else if locals != [] {
      assert all == locals && locals[..|locals| - 1] + [] == locals[..|locals| - 1];
      CountsAdded(locals[..|locals| - 1], [], depth);
    }
  }

  lemma ScopeCount(body: seq<Stmt>, st: State, after: State)
    requires InScope(st.locals, st.depth) && after == AfterStmts(body, BeginScope(st))
    ensures |after.locals| >= |st.locals| && after.locals[..|st.locals|] == st.locals
    ensures CountDeeper(after.locals, st.depth) == |after.locals| - |st.locals|
  {
    var added := AddsLocals(body, BeginScope(st));
    CountsAdded(st.locals, added, st.depth);
  }

  /** Leaving the scope gives back the locals there were, and pops what `GenScope` pops. */
  lemma ScopeEnds(body: seq<Stmt>, st: State, rest: seq<Token>)
    requires InScope(st.locals, st.depth)
    ensures EndScope(Parsed(AfterStmts(body, BeginScope(st)), rest)) == Parsed(AfterScope(body, st), rest)
  {
    var after := AfterStmts(body, BeginScope(st));
    var c := GenStmts(body, false, Names(st.locals), st.constants);
    var n := |after.locals| - |st.locals|;
    ScopeCount(body, st, after);
    AfterStmtsAgrees(body, BeginScope(st));
    assert |c.names| == |after.locals|;
    Associate(st.code, c.code, Pops(n));
  }

  // ---------------------------------------------------------------------------------------------
  // Parsing back statements
  // ---------------------------------------------------------------------------------------------

  predicate Ready(s: Stmt, st: State) {
    InScope(st.locals, st.depth) && StmtFits(s, st.depth == 0, Names(st.locals), st.constants)
  }

  predicate ReadyAll(body: seq<Stmt>, st: State) {
    InScope(st.locals, st.depth) && StmtsFit(body, st.depth == 0, Names(st.locals), st.constants)
  }

  predicate NoElseNext(rest: seq<Token>) {
    rest == [] || rest[0] != ElseToken
  }

  lemma ReadyRest(body: seq<Stmt>, st: State)
    requires body != [] && ReadyAll(body, st)
    ensures Ready(body[0], st) && ReadyAll(body[1..], AfterStmt(body[0], st))
  {
    NamesAfter(body[0], st);
  }

  /** An expression up to a token that is no operator. */
  lemma ExprEnds(e: Expr, t: Token, rest: seq<Token>, st: State)
    requires Fits(e, st) && Precedence(t) == 0
    ensures ParseExpr(Print(e, ASSIGNMENT) + ([t] + rest), 0, st) == Parsed(After(e, st), [t] + rest)
  {
    ExprParses(e, ASSIGNMENT, 0, [t] + rest, st);
    ReadsWhole(Print(e, ASSIGNMENT) + ([t] + rest), 0, st, [t] + rest, After(e, st));
  }

  lemma {:induction false} StmtParses(s: Stmt, rest: seq<Token>, st: State)
    requires Ready(s, st) && NoElseNext(rest)
    ensures ParseStmt(PrintStmt(s) + rest, st) == Parsed(AfterStmt(s, st), rest)
    decreases s, 3
  {
    match s
    case Let(name, e) => LetParses(name, e, rest, st);
    case Block(body) =>
      ScopeParses(body, rest, st);
      BlockReads(body, rest, st);
    case If(cond, thn, els) => IfParses(cond, thn, els, rest, st);
    case While(cond, body) => WhileParses(cond, body, rest, st);
    case Eval(e) => EvalParses(e, rest, st);
  }

  lemma EvalParses(e: Expr, rest: seq<Token>, st: State)
    requires Ready(Eval(e), st)
    ensures ParseStmt(PrintStmt(Eval(e)) + rest, st) == Parsed(AfterStmt(Eval(e), st), rest)
  {
    var toks := Print(e, ASSIGNMENT) + ([Semicolon] + rest);
    ExprEnds(e, Semicolon, rest, st);
    FirstToken(e, ASSIGNMENT, [Semicolon] + rest);
    EvalDispatch(toks, rest, st, After(e, st));
    Associate(Print(e, ASSIGNMENT), [Semicolon], rest);
    assert Emit(After(e, st), [OpByte(OpPop)]) == AfterStmt(Eval(e), st);
  }

  lemma EvalDispatch(toks: seq<Token>, rest: seq<Token>, st: State, after: State)
    requires toks != [] && StartsExpr(toks[0]) && ParseExpr(toks, 0, st) == Parsed(after, [Semicolon] + rest)
    ensures ParseStmt(toks, st) == Parsed(Emit(after, [OpByte(OpPop)]), rest)
  {
    assert ([Semicolon] + rest)[1..] == rest;
  }

  lemma LetParses(name: string, e: Expr, rest: seq<Token>, st: State)
    requires Ready(Let(name, e), st)
    ensures ParseStmt(PrintStmt(Let(name, e)) + rest, st) == Parsed(AfterStmt(Let(name, e), st), rest)
  {
    var st' := st.(locals := LocalsAfter(Let(name, e), st));
    var toks := Print(e, ASSIGNMENT) + ([Semicolon] + rest);
    NamesAfter(Let(name, e), st);
    ExprEnds(e, Semicolon, rest, st');
    LetReads(name, e, toks, rest, st, st');
    LetDispatch([Identifier(name), Equals] + toks, st, Parsed(AfterStmt(Let(name, e), st), rest));
    LetTokens(name, e, rest);
  }

  lemma LetTokens(name: string, e: Expr, rest: seq<Token>)
    ensures PrintStmt(Let(name, e)) + rest
         == [LetToken] + ([Identifier(name), Equals] + (Print(e, ASSIGNMENT) + ([Semicolon] + rest)))
  {
    var toks := Print(e, ASSIGNMENT) + ([Semicolon] + rest);
    Regroup([LetToken, Identifier(name), Equals], Print(e, ASSIGNMENT), [Semicolon], rest);
    assert [LetToken] + ([Identifier(name), Equals] + toks) == [LetToken, Identifier(name), Equals] + toks;
  }

  ghost predicate LetGives(toks: seq<Token>, st: State, w: Parsed) {
    forall ts | ts == toks :: ParseLet(ts, st) == w
  }

  lemma LetDispatch(toks: seq<Token>, st: State, w: Parsed)
    requires LetGives(toks, st, w)
    ensures ParseStmt([LetToken] + toks, st) == w
  {
    assert ([LetToken] + toks)[1..] == toks;
  }

  lemma LetReads(name: string, e: Expr, toks: seq<Token>, rest: seq<Token>, st: State, st': State)
    requires st' == st.(locals := LocalsAfter(Let(name, e), st))
    requires ParseExpr(toks, 0, st') == Parsed(After(e, st'), [Semicolon] + rest)
    ensures LetGives([Identifier(name), Equals] + toks, st, Parsed(AfterStmt(Let(name, e), st), rest))
  {
    NamesAfter(Let(name, e), st);
    assert ([Identifier(name), Equals] + toks)[2..] == toks;
    assert ([Semicolon] + rest)[1..] == rest;
    if st.depth == 0 {
      var c := Gen(e, Names(st.locals), st.constants);
      var d := PushConstant(OpConstant, Str(name), c.constants);
      assert st.code + c.code + d.code + [OpByte(OpDefineGlobal)]
          == st.code + (c.code + d.code + [OpByte(OpDefineGlobal)]);
    }
  }

  ghost predicate ScopeGives(toks: seq<Token>, st: State, w: Parsed) {
    forall ts | ts == toks :: ParseScope(ts, st) == w
  }

  lemma BlockDispatch(toks: seq<Token>, st: State, w: Parsed)
    requires ScopeGives(toks, st, w)
    ensures ParseStmt([LeftBrace] + toks, st) == w
  {
    assert ([LeftBrace] + toks)[1..] == toks;
  }

  lemma BlockReads(body: seq<Stmt>, rest: seq<Token>, st: State)
    requires ScopeGives(PrintScope(body) + rest, st, Parsed(AfterScope(body, st), rest))
    ensures ParseStmt(PrintStmt(Block(body)) + rest, st) == Parsed(AfterStmt(Block(body), st), rest)
  {
    BlockDispatch(PrintScope(body) + rest, st, Parsed(AfterScope(body, st), rest));
    Associate([LeftBrace], PrintScope(body), rest);
    assert AfterStmt(Block(body), st) == AfterScope(body, st);
  }

  lemma {:induction false} ScopeParses(body: seq<Stmt>, rest: seq<Token>, st: State)
    requires InScope(st.locals, st.depth) && StmtsFit(body, false, Names(st.locals), st.constants)
    ensures ParseScope(PrintScope(body) + rest, st) == Parsed(AfterScope(body, st), rest)
    decreases body, 2
  {
    StmtsParse(body, rest, BeginScope(st));
    ScopeEnds(body, st, rest);
  }

  lemma {:induction false} StmtsParse(body: seq<Stmt>, rest: seq<Token>, st: State)
    requires ReadyAll(body, st)
    ensures ParseUntilBrace(PrintScope(body) + rest, st) == Parsed(AfterStmts(body, st), rest)
    decreases body, 1
  {
    if body == [] {
      assert ([RightBrace] + rest)[1..] == rest;
    } else {
      var more := PrintScope(body[1..]) + rest;
      ReadyRest(body, st);
      ScopeStarts(body[1..], rest);
      StmtParses(body[0], more, st);
      StmtsParse(body[1..], rest, AfterStmt(body[0], st));
      StmtStarts(body[0], more);
      assert PrintScope(body) + rest == PrintStmt(body[0]) + more;
    }
  }

  /** A printed statement starts with neither `else` nor a closing brace. */
  lemma StmtStarts(s: Stmt, rest: seq<Token>)
    ensures var t := PrintStmt(s) + rest; t != [] && t[0] != ElseToken && t[0] != RightBrace
  {
    if s.Eval? {
      FirstToken(s.e, ASSIGNMENT, []);
    }
  }

  lemma ScopeStarts(body: seq<Stmt>, rest: seq<Token>)
    ensures NoElseNext(PrintScope(body) + rest)
  {
    if body != [] {
      StmtStarts(body[0], PrintScope(body[1..]));
    }
  }

  // ---------------------------------------------------------------------------------------------
  // Conditionals
  // ---------------------------------------------------------------------------------------------

  /** The state after the condition, the open jump and the scope of the first branch. */
  function AfterThen(cond: Expr, thn: seq<Stmt>, st: State): State {
    AfterScope(thn, Jumping(After(cond, st), OpJumpIfFalse))
  }

  function AfterBranch(b: Branch, st: State): State {
    EmitChunk(st, GenBranch(b, Names(st.locals), st.constants))
  }

  /** The first branch is done: its jump is open and the jump to here is patched. */
  function AtElse(cond: Expr, thn: seq<Stmt>, st: State): State {
    var t := AfterThen(cond, thn, st);
    var c := After(cond, st);
    var scope := GenScope(thn, Names(st.locals), c.constants).code;
    t.(code := c.code + SkipOrNothing(OpJumpIfFalse, scope + [OpByte(OpJump), 0, 0]) + [OpByte(OpPop)])
  }

  lemma {:induction false} IfParses(cond: Expr, thn: seq<Stmt>, els: Branch, rest: seq<Token>, st: State)
    requires Ready(If(cond, thn, els), st) && NoElseNext(rest)
    ensures ParseStmt(PrintStmt(If(cond, thn, els)) + rest, st) == Parsed(AfterStmt(If(cond, thn, els), st), rest)
    decreases If(cond, thn, els), 1
  {
    var more := PrintBranch(els) + rest;
    var toks := Print(cond, ASSIGNMENT) + ([LeftBrace] + (PrintScope(thn) + more));
    ThenParses(cond, thn, els, more, st);
    ElseParses(cond, thn, els, more, rest, st);
    IfPieces(toks, st, |After(cond, st).code|, Parsed(AfterThen(cond, thn, st), more),
             Parsed(AtElse(cond, thn, st), more), Parsed(AfterStmt(If(cond, thn, els), st), rest));
    IfDispatch(toks, st, Parsed(AfterStmt(If(cond, thn, els), st), rest));
    IfTokens(cond, thn, els, rest);
  }

  /** The condition, ending at offset `n`, and the first branch are read, and the second branch is opened. */
  ghost predicate ThenDone(toks: seq<Token>, st: State, n: nat, t: Parsed, u: Parsed) {
    forall ts | ts == toks ::
      var c := ParseExpr(ts, 0, st);
      c.Parsed? && |c.state.code| == n && ParseThen(c) == t && t.Parsed? && OpenElse(t, n + 1) == u
  }

  /** The second branch is read, and the jump over it, whose opcode is at offset `n`, is patched. */
  ghost predicate ElseDone(u: Parsed, n: nat, w: Parsed) {
    forall v | v == u :: Patch(ParseElse(v), n + 1) == w
  }

  lemma {:induction false} ThenParses(cond: Expr, thn: seq<Stmt>, els: Branch, more: seq<Token>, st: State)
    requires Ready(If(cond, thn, els), st)
    ensures ThenDone(Print(cond, ASSIGNMENT) + ([LeftBrace] + (PrintScope(thn) + more)), st, |After(cond, st).code|,
                     Parsed(AfterThen(cond, thn, st), more), Parsed(AtElse(cond, thn, st), more))
    decreases If(cond, thn, els), 0
  {
    IfReady(cond, thn, els, st);
    ExprEnds(cond, LeftBrace, PrintScope(thn) + more, st);
    ScopeParses(thn, more, Jumping(After(cond, st), OpJumpIfFalse));
    ThenReads(thn, more, After(cond, st));
    ElseOpens(cond, thn, els, more, st);
  }

  lemma {:induction false} ElseParses(cond: Expr, thn: seq<Stmt>, els: Branch, more: seq<Token>, rest: seq<Token>,
                                      st: State)
    requires Ready(If(cond, thn, els), st) && NoElseNext(rest) && more == PrintBranch(els) + rest
    ensures ElseDone(Parsed(AtElse(cond, thn, st), more), |AfterThen(cond, thn, st).code|,
                     Parsed(AfterStmt(If(cond, thn, els), st), rest))
    decreases If(cond, thn, els), 0
  {
    IfReady(cond, thn, els, st);
    BranchParses(els, rest, AtElse(cond, thn, st));
    IfCloses(cond, thn, els, rest, st);
  }

  lemma IfReady(cond: Expr, thn: seq<Stmt>, els: Branch, st: State)
    requires Ready(If(cond, thn, els), st)
    ensures Fits(cond, st)
    ensures StmtsFit(thn, false, Names(st.locals), After(cond, st).constants)
    ensures BranchFits(els, Names(st.locals), AtElse(cond, thn, st).constants)
    ensures AtElse(cond, thn, st).locals == st.locals && AtElse(cond, thn, st).depth == st.depth
  {
  }

  ghost predicate IfGives(toks: seq<Token>, st: State, w: Parsed) {
    forall ts | ts == toks :: ParseIf(ts, st) == w
  }

  lemma IfDispatch(toks: seq<Token>, st: State, w: Parsed)
    requires IfGives(toks, st, w)
    ensures ParseStmt([IfToken] + toks, st) == w
  {
    assert ([IfToken] + toks)[1..] == toks;
  }

  lemma IfPieces(toks: seq<Token>, st: State, n: nat, t: Parsed, u: Parsed, w: Parsed)
    requires ThenDone(toks, st, n, t, u) && t.Parsed? && ElseDone(u, |t.state.code|, w)
    ensures IfGives(toks, st, w)
  {
  }

  lemma ThenReads(thn: seq<Stmt>, more: seq<Token>, st: State)
    requires var st' := Jumping(st, OpJumpIfFalse);
             ParseScope(PrintScope(thn) + more, st') == Parsed(AfterScope(thn, st'), more)
    ensures ParseThen(Parsed(st, [LeftBrace] + (PrintScope(thn) + more)))
         == Parsed(AfterScope(thn, Jumping(st, OpJumpIfFalse)), more)
  {
    var toks := PrintScope(thn) + more;
    assert ([LeftBrace] + toks)[1..] == toks;
  }

  lemma ElseOpens(cond: Expr, thn: seq<Stmt>, els: Branch, more: seq<Token>, st: State)
    requires StmtFits(If(cond, thn, els), st.depth == 0, Names(st.locals), st.constants)
    ensures OpenElse(Parsed(AfterThen(cond, thn, st), more), |After(cond, st).code| + 1)
         == Parsed(AtElse(cond, thn, st), more)
  {
    var c := After(cond, st);
    var scope := GenScope(thn, Names(st.locals), c.constants).code;
    var p := Parsed(Emit(AfterThen(cond, thn, st), [OpByte(OpJump), 0, 0]), more);
    assert p.state.code == c.code + [OpByte(OpJumpIfFalse), 0, 0, OpByte(OpPop)] + (scope + [OpByte(OpJump), 0, 0]);
    PatchSkips(c.code, OpJumpIfFalse, scope + [OpByte(OpJump), 0, 0], p);
  }

  lemma IfCloses(cond: Expr, thn: seq<Stmt>, els: Branch, rest: seq<Token>, st: State)
    requires StmtFits(If(cond, thn, els), st.depth == 0, Names(st.locals), st.constants)
    ensures Patch(Parsed(AfterBranch(els, AtElse(cond, thn, st)), rest), |AfterThen(cond, thn, st).code| + 1)
         == Parsed(AfterStmt(If(cond, thn, els), st), rest)
  {
    var names := Names(st.locals);
    var c := Gen(cond, names, st.constants);
    var t := GenScope(thn, names, c.constants);
    var f := GenBranch(els, names, t.constants);
    var p := Parsed(AfterBranch(els, AtElse(cond, thn, st)), rest);
    PatchesElse(st.code + c.code, t.code, f.code, p);
    Associate(st.code, c.code, ThenElse(t.code, f.code));
  }

  lemma PatchesElse(code: seq<Byte>, t: seq<Byte>, f: seq<Byte>, p: Parsed)
    requires |t| + 4 <= MAX_JUMP && |f| + 1 <= MAX_JUMP && p.Parsed?
    requires p.state.code == code + SkipOrNothing(OpJumpIfFalse, t + [OpByte(OpJump), 0, 0]) + [OpByte(OpPop)] + f
    ensures Patch(p, |code| + 4 + |t| + 1) == p.(state := p.state.(code := code + ThenElse(t, f)))
  {
    var before := code + Head(OpJumpIfFalse, |t| + 4) + t;
    ElseLayout(code, t, f, Head(OpJumpIfFalse, |t| + 4));
    PatchSkips(before, OpJump, f, p);
    ThenElseLayout(code, t, f);
  }

  /** A jump whose condition is popped if it is not taken. */
  function Head(op: Opcode, distance: nat): seq<Byte>
    requires distance <= MAX_JUMP
  {
    [OpByte(op)] + JumpBytes(distance) + [OpByte(OpPop)]
  }

  lemma ElseLayout(code: seq<Byte>, t: seq<Byte>, f: seq<Byte>, head: seq<Byte>)
    ensures code + (head + (t + [OpByte(OpJump), 0, 0])) + [OpByte(OpPop)] + f
         == code + head + t + [OpByte(OpJump), 0, 0, OpByte(OpPop)] + f
  {
  }

  lemma ThenElseLayout(code: seq<Byte>, t: seq<Byte>, f: seq<Byte>)
    requires |t| + 4 <= MAX_JUMP && |f| + 1 <= MAX_JUMP
    ensures code + Head(OpJumpIfFalse, |t| + 4) + t + SkipOrNothing(OpJump, f) == code + ThenElse(t, f)
  {
    RegroupBytes(code, Head(OpJumpIfFalse, |t| + 4), t, [OpByte(OpJump)], JumpBytes(|f| + 1), [OpByte(OpPop)], f);
  }

  lemma RegroupBytes(a: seq<Byte>, b: seq<Byte>, c: seq<Byte>, d: seq<Byte>, e: seq<Byte>, f: seq<Byte>, g: seq<Byte>)
    ensures a + b + c + (d + e + f + g) == a + (b + c + d + e + f + g)
  {
  }

  lemma IfTokens(cond: Expr, thn: seq<Stmt>, els: Branch, rest: seq<Token>)
    ensures PrintStmt(If(cond, thn, els)) + rest
         == [IfToken] + (Print(cond, ASSIGNMENT) + ([LeftBrace] + (PrintScope(thn) + (PrintBranch(els) + rest))))
  {
    Regroup([LeftBrace], PrintScope(thn), PrintBranch(els), rest);
    Regroup([IfToken], Print(cond, ASSIGNMENT), [LeftBrace] + (PrintScope(thn) + PrintBranch(els)), rest);
  }

  lemma {:induction false} BranchParses(b: Branch, rest: seq<Token>, st: State)
    requires InScope(st.locals, st.depth) && BranchFits(b, Names(st.locals), st.constants) && NoElseNext(rest)
    ensures ParseElse(Parsed(st, PrintBranch(b) + rest)) == Parsed(AfterBranch(b, st), rest)
    decreases b, 0
  {
    match b
    case NoElse =>
      assert PrintBranch(b) + rest == rest;
      assert AfterBranch(b, st) == st;
    case Else(body) =>
      ScopeParses(body, rest, st);
      ElseReads(PrintScope(body) + rest, st);
      Associate([ElseToken, LeftBrace], PrintScope(body), rest);
  }

  lemma ElseReads(toks: seq<Token>, st: State)
    ensures ParseElse(Parsed(st, [ElseToken, LeftBrace] + toks)) == ParseScope(toks, st)
  {
    assert ([ElseToken, LeftBrace] + toks)[1..] == [LeftBrace] + toks;
    assert ([LeftBrace] + toks)[1..] == toks;
  }

  // ---------------------------------------------------------------------------------------------
  // Loops
  // ---------------------------------------------------------------------------------------------

  ghost predicate WhileGives(toks: seq<Token>, st: State, w: Parsed) {
    forall ts | ts == toks :: ParseWhile(ts, st) == w
  }

  lemma WhileDispatch(toks: seq<Token>, st: State, w: Parsed)
    requires WhileGives(toks, st, w)
    ensures ParseStmt([WhileToken] + toks, st) == w
  {
    assert ([WhileToken] + toks)[1..] == toks;
  }

  /** The condition, ending at offset `n`, and the body are read. */
  ghost predicate BodyDone(toks: seq<Token>, st: State, n: nat, t: Parsed) {
    forall ts | ts == toks ::
      var c := ParseExpr(ts, 0, st); c.Parsed? && |c.state.code| == n && ParseThen(c) == t
  }

  lemma WhilePieces(toks: seq<Token>, st: State, n: nat, t: Parsed, w: Parsed)
    requires BodyDone(toks, st, n, t) && Closes(t, |st.code|, n + 1, w)
    ensures WhileGives(toks, st, w)
  {
  }

  /** The jump back and the patched exit. */
  ghost predicate Closes(t: Parsed, target: nat, exit: nat, w: Parsed) {
    forall u | u == t :: Patch(JumpBack(u, target), exit) == w
  }

  lemma LoopCloses(before: State, c: Chunk, t: Chunk, rest: seq<Token>)
    requires LoopFits(|c.code|, |t.code|)
    ensures Closes(Parsed(EmitChunk(Jumping(EmitChunk(before, c), OpJumpIfFalse), t), rest), |before.code|,
                   |before.code| + |c.code| + 1,
                   Parsed(EmitChunk(before, Chunk(c.code + LoopTail(|c.code|, t.code), t.constants)), rest))
  {
    var back := [OpByte(OpJump)] + BackBytes(|c.code| + |t.code| + 7);
    var open := EmitChunk(Jumping(EmitChunk(before, c), OpJumpIfFalse), t);
    var code := before.code + c.code;
    assert |open.code| + 3 - |before.code| == |c.code| + |t.code| + 7;
    Associate(code + [OpByte(OpJumpIfFalse), 0, 0, OpByte(OpPop)], t.code, back);
    PatchSkips(code, OpJumpIfFalse, t.code + back, Parsed(Emit(open, back), rest));
    TailLayout(before.code, c.code, [OpByte(OpJumpIfFalse)], JumpBytes(|t.code| + 4), [OpByte(OpPop)], t.code, back);
  }

  lemma TailLayout(a: seq<Byte>, b: seq<Byte>, c: seq<Byte>, d: seq<Byte>, e: seq<Byte>, f: seq<Byte>, g: seq<Byte>)
    ensures a + b + (c + d + e + (f + g)) == a + (b + ((c + d) + (e + (f + g))))
  {
  }

  /** Printing a loop and parsing it emits exactly the loop's code. */
  lemma {:induction false} WhileParses(cond: Expr, body: seq<Stmt>, rest: seq<Token>, st: State)
    requires Ready(While(cond, body), st)
    ensures ParseStmt(PrintStmt(While(cond, body)) + rest, st) == Parsed(AfterStmt(While(cond, body), st), rest)
    decreases While(cond, body), 2
  {
    var toks := Print(cond, ASSIGNMENT) + ([LeftBrace] + (PrintScope(body) + rest));
    WhileTokens(Print(cond, ASSIGNMENT), PrintScope(body), rest);
    WhileReads(cond, body, toks, rest, st, AfterStmt(While(cond, body), st));
    WhileDispatch(toks, st, Parsed(AfterStmt(While(cond, body), st), rest));
  }

  lemma {:induction false} WhileReads(cond: Expr, body: seq<Stmt>, toks: seq<Token>, rest: seq<Token>, st: State,
                                      after: State)
    requires Ready(While(cond, body), st) && after == AfterStmt(While(cond, body), st)
    requires toks == Print(cond, ASSIGNMENT) + ([LeftBrace] + (PrintScope(body) + rest))
    ensures WhileGives(toks, st, Parsed(after, rest))
    decreases While(cond, body), 1
  {
    BodyParses(cond, body, toks, rest, st);
    StateCloses(cond, body, rest, st);
    WhilePieces(toks, st, |After(cond, st).code|, Parsed(AfterThen(cond, body, st), rest), Parsed(after, rest));
  }

  lemma {:induction false} BodyParses(cond: Expr, body: seq<Stmt>, toks: seq<Token>, rest: seq<Token>, st: State)
    requires Ready(While(cond, body), st)
    requires toks == Print(cond, ASSIGNMENT) + ([LeftBrace] + (PrintScope(body) + rest))
    ensures BodyDone(toks, st, |After(cond, st).code|, Parsed(AfterThen(cond, body, st), rest))
    decreases While(cond, body), 0
  {
    WhileReady(cond, body, st);
    ExprEnds(cond, LeftBrace, PrintScope(body) + rest, st);
    ScopeParses(body, rest, Jumping(After(cond, st), OpJumpIfFalse));
    ThenReads(body, rest, After(cond, st));
  }

  lemma WhileReady(cond: Expr, body: seq<Stmt>, st: State)
    requires Ready(While(cond, body), st)
    ensures Fits(cond, st) && StmtsFit(body, false, Names(st.locals), After(cond, st).constants)
    ensures LoopFits(|Gen(cond, Names(st.locals), st.constants).code|,
                     |GenScope(body, Names(st.locals), After(cond, st).constants).code|)
  {
  }

  lemma StateCloses(cond: Expr, body: seq<Stmt>, rest: seq<Token>, st: State)
    requires Ready(While(cond, body), st)
    ensures Closes(Parsed(AfterThen(cond, body, st), rest), |st.code|, |After(cond, st).code| + 1,
                   Parsed(AfterStmt(While(cond, body), st), rest))
  {
    WhileReady(cond, body, st);
    var c := Gen(cond, Names(st.locals), st.constants);
    LoopCloses(st, c, GenScope(body, Names(st.locals), c.constants), rest);
  }

  lemma WhileTokens(a: seq<Token>, b: seq<Token>, rest: seq<Token>)
    ensures [WhileToken] + (a + ([LeftBrace] + b)) + rest == [WhileToken] + (a + ([LeftBrace] + (b + rest)))
  {
    Associate([LeftBrace], b, rest);
    Regroup([WhileToken], a, [LeftBrace] + b, rest);
  }

  // ---------------------------------------------------------------------------------------------
  // Whole programs
  // ---------------------------------------------------------------------------------------------

  lemma {:induction false} AllParse(body: seq<Stmt>, st: State)
    requires ReadyAll(body, st)
    ensures ParseAll(PrintProgram(body), st) == Parsed(AfterStmts(body, st), [])
    decreases body
  {
    if body != [] {
      ReadyRest(body, st);
      if body[1..] != [] {
        StmtStarts(body[1], PrintProgram(body[1..][1..]));
      }
      StmtParses(body[0], PrintProgram(body[1..]), st);
      AllParse(body[1..], AfterStmt(body[0], st));
      StmtStarts(body[0], PrintProgram(body[1..]));
    }
  }

  /** Printing a program and parsing the tokens gives exactly the chunk of the program. */
  lemma ProgramParses(body: seq<Stmt>)
    requires StmtsFit(body, true, [], [])
    ensures ParseProgram(PrintProgram(body)) == Some(GenProgram(body))
  {
    var st := State([], [], [], 0);
    assert Names(st.locals) == [];
    AllParse(body, st);
    AfterStmtsAgrees(body, st);
    var c := GenStmts(body, true, [], []);
    assert [] + c.code == c.code;
  }
}
