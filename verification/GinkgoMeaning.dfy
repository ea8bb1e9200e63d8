/**
  Programs that mean what they say. Where assignments are to globals, no initializer of a local names the
  local itself, and no local is declared where a loop may have ended before, the machine comes to the
  globals, or to the fault, of an interpreter that knows nothing of stacks, slots or jumps.
*/
module GinkgoMeaning {
  import opened Options
  import opened GinkgoValues
  import opened GinkgoCompile
  import opened GinkgoMachine
  import opened GinkgoSlots
  import opened GinkgoLexical
  import opened GinkgoInitializers
  import opened GinkgoStmts

  predicate HasLoop(s: Stmt)
    decreases s
  {
    match s
    case Block(body) => HasLoops(body)
    case If(_, thn, els) => HasLoops(thn) || (els.Else? && HasLoops(els.body))
    case While(_, _) => true
    case _ => false
  }

  predicate HasLoops(body: seq<Stmt>)
    decreases body
  {
    body != [] && (HasLoop(body[0]) || HasLoops(body[1..]))
  }

  /** `late` says that a loop may have ended before, since the stack last held the locals and nothing else. */
  predicate StmtOk(s: Stmt, top: bool, names: seq<string>, late: bool)
    decreases s
  {
    match s
    case Let(name, e) => AssignsGlobals(e, names) && (top || (!Mentions(e, name) && !late))
    case Block(body) => StmtsOk(body, false, names, late)
    case If(cond, thn, els) =>
      AssignsGlobals(cond, names) && StmtsOk(thn, false, names, late) && BranchOk(els, names, late)
    case While(cond, body) => AssignsGlobals(cond, names) && StmtsOk(body, false, names, late || HasLoops(body))
    case Eval(e) => AssignsGlobals(e, names)
  }

  predicate BranchOk(b: Branch, names: seq<string>, late: bool)
    decreases b
  {
    b.Else? ==> StmtsOk(b.body, false, names, late)
  }

  predicate StmtsOk(body: seq<Stmt>, top: bool, names: seq<string>, late: bool)
    decreases body
  {
    body != [] ==>
      && StmtOk(body[0], top, names, late)
      && StmtsOk(body[1..], top, NamesAfter(body[0], top, names), late || HasLoop(body[0]))
  }

  // ---------------------------------------------------------------------------------------------
  // Statements
  // ---------------------------------------------------------------------------------------------

  /**
    The interpreter's course and the course by slots are the same: the same globals and the same locals,
    which are at the bottom of the stack. Without loops nothing was left behind.
  */
  ghost predicate Agree(m: Course<Scene>, r: Course<Store>, env: Env, names: seq<string>, st: Store, loops: bool) {
    match m
    case Went(sc) =>
      && r.Went? && r.state.globals == sc.globals && OnStack(sc.env, names, r.state.stack) && Prefix(env, sc.env)
      && (!loops ==> r.state.left == st.left)
    case Failed(fault) => r == Failed(fault)
    case Unfinished => r == Unfinished
  }

  /** What a statement finds: the locals at the bottom of the stack, and nothing else there unless a loop has ended. */
  ghost predicate Finds(env: Env, names: seq<string>, st: Store, late: bool) {
    OnStack(env, names, st.stack) && (late || |st.stack| == |names|)
  }

  lemma {:induction false} StmtAgrees(s: Stmt, top: bool, names: seq<string>, env: Env, st: Store, natives: Natives,
                                      n: nat, late: bool)
    requires StmtOk(s, top, names, late) && Finds(env, names, st, late)
    ensures Agree(ExecStmt(s, top, env, st.globals, natives, n), SlotStmt(s, top, names, st, natives, n),
                  env, NamesAfter(s, top, names), st, HasLoop(s))
    decreases n, s, 2
  {
    match s
    case Let(name, e) => LetAgrees(name, e, top, names, env, st, natives, n, late);
    case Block(body) => ScopeAgrees(body, names, env, st, natives, n, late);
    case If(cond, thn, els) =>
      ExprAgrees(cond, names, env, st, natives);
      match EvalExpr(cond, env, st.globals, natives) {
        case Stop(_) =>
        case Done(v, g) =>
          PopPushed(st, v, g);
          ChosenAgrees(s, names, env, st.(globals := g), natives, n, late, v);
      }
    case While(_, _) => WhileAgrees(s, top, names, env, st, natives, n, late);
    case Eval(e) =>
      ExprAgrees(e, names, env, st, natives);
      match EvalExpr(e, env, st.globals, natives) {
        case Stop(_) =>
        case Done(v, g) => PopPushed(st, v, g);
      }
  }

  lemma LetAgrees(name: string, e: Expr, top: bool, names: seq<string>, env: Env, st: Store, natives: Natives, n: nat,
                  late: bool)
    requires StmtOk(Let(name, e), top, names, late) && Finds(env, names, st, late)
    ensures Agree(ExecStmt(Let(name, e), top, env, st.globals, natives, n),
                  SlotStmt(Let(name, e), top, names, st, natives, n), env, NamesAfter(Let(name, e), top, names), st, false)
  {
    if top {
      ExprAgrees(e, names, env, st, natives);
      match EvalExpr(e, env, st.globals, natives)
      case Stop(_) =>
      case Done(v, g) => PopPushed(st, v, g);
    } else {
      StillGlobal(e, name, names);
      InitMeans(e, name, names, env, st, natives);
      InitAgrees(e, name, env, st.globals, natives);
      match EvalExpr(e, env, st.globals, natives)
      case Stop(_) =>
      case Done(v, _) => FirstTemporary(env, name, names, st.stack, v);
    }
  }

  /** An assignment that does not name the new local is to a global as before. */
  lemma {:induction false} StillGlobal(e: Expr, name: string, names: seq<string>)
    requires AssignsGlobals(e, names) && !Mentions(e, name)
    ensures AssignsGlobals(e, names + [name])
    decreases e
  {
    match e
    case Neg(e1) => StillGlobal(e1, name, names);
    case Paren(e1) => StillGlobal(e1, name, names);
    case Bin(_, l, r) =>
      StillGlobal(l, name, names);
      StillGlobal(r, name, names);
    case And(l, r) =>
      StillGlobal(l, name, names);
      StillGlobal(r, name, names);
    case Or(l, r) =>
      StillGlobal(l, name, names);
      StillGlobal(r, name, names);
    case Assign(_, e1) => StillGlobal(e1, name, names);
    case Call(f, args, _) =>
      StillGlobal(f, name, names);
      forall a | a in args
        ensures AssignsGlobals(a, names + [name])
      {
        StillGlobal(a, name, names);
      }
    case _ =>
  }

  lemma {:induction false} ChosenAgrees(s: Stmt, names: seq<string>, env: Env, st: Store, natives: Natives, n: nat,
                                        late: bool, v: Value)
    requires s.If? && StmtsOk(s.thn, false, names, late) && BranchOk(s.els, names, late) && Finds(env, names, st, late)
    ensures v == Bool(true) ==>
              Agree(LeaveBraces(ExecStmts(s.thn, false, env, st.globals, natives, n), env),
                    SlotScope(s.thn, names, st, natives, n), env, names, st, HasLoop(s))
    ensures v == Bool(false) ==>
              Agree(LeaveBraces(ExecBranch(s.els, env, st.globals, natives, n), env),
                    SlotBranch(s.els, names, st, natives, n), env, names, st, HasLoop(s))
    decreases n, s, 1
  {
    if v == Bool(true) {
      ScopeAgrees(s.thn, names, env, st, natives, n, late);
    } else if s.els.Else? {
      ScopeAgrees(s.els.body, names, env, st, natives, n, late);
    }
  }

  lemma {:induction false} ScopeAgrees(body: seq<Stmt>, names: seq<string>, env: Env, st: Store, natives: Natives,
                                       n: nat, late: bool)
    requires StmtsOk(body, false, names, late) && Finds(env, names, st, late)
    ensures Agree(LeaveBraces(ExecStmts(body, false, env, st.globals, natives, n), env),
                  SlotScope(body, names, st, natives, n), env, names, st, HasLoops(body))
    decreases n, body, 3
  {
    StmtsAgree(body, false, names, env, st, natives, n, late);
    var r := SlotStmts(body, false, names, st, natives, n);
    if r.Went? {
      var sc := ExecStmts(body, false, env, st.globals, natives, n).state;
      BottomKept(env, sc.env, names, NamesAfterAll(body, false, names), r.state.stack);
    }
  }

  /** Popping a scope's locals leaves the outer locals where they are, whatever else is on the stack. */
  lemma BottomKept(env: Env, inner: Env, names: seq<string>, more: seq<string>, stack: seq<Value>)
    requires OnStack(inner, more, stack) && Prefix(env, inner) && |env| == |names| <= |more|
    requires forall i | 0 <= i < |env| :: env[i].name == names[i]
    ensures OnStack(env, names, Drop(stack, |more| - |names|))
  {
  }

  lemma {:induction false} StmtsAgree(body: seq<Stmt>, top: bool, names: seq<string>, env: Env, st: Store,
                                      natives: Natives,
                                      n: nat, late: bool)
    requires StmtsOk(body, top, names, late) && Finds(env, names, st, late)
    ensures Agree(ExecStmts(body, top, env, st.globals, natives, n), SlotStmts(body, top, names, st, natives, n),
                  env, NamesAfterAll(body, top, names), st, HasLoops(body))
    decreases n, body, 2
  {
    if body != [] {
      var names' := NamesAfter(body[0], top, names);
      StmtAgrees(body[0], top, names, env, st, natives, n, late);
      var r := SlotStmt(body[0], top, names, st, natives, n);
      if r.Went? {
        var sc := ExecStmt(body[0], top, env, st.globals, natives, n).state;
        StmtsAgree(body[1..], top, names', sc.env, r.state, natives, n, late || HasLoop(body[0]));
      }
    }
  }

  lemma {:induction false} WhileAgrees(s: Stmt, top: bool, names: seq<string>, env: Env, st: Store, natives: Natives,
                                       n: nat, late: bool)
    requires s.While? && StmtOk(s, top, names, late) && Finds(env, names, st, late)
    ensures Agree(ExecStmt(s, top, env, st.globals, natives, n), SlotStmt(s, top, names, st, natives, n),
                  env, names, st, true)
    decreases n, s, 1
  {
    if n > 0 {
      ExprAgrees(s.cond, names, env, st, natives);
      match EvalExpr(s.cond, env, st.globals, natives)
      case Stop(_) =>
      case Done(v, g) =>
        PopPushed(st, v, g);
        if v == Bool(true) {
          RoundAgrees(s, top, names, env, st.(globals := g), natives, n - 1, late);
        } else {
          OnStackPushed(env, names, st.stack, [v]);
        }
    }
  }

  /** One round by the interpreter, and the rounds after it. */
  function NextRound(s: Stmt, top: bool, env: Env, globals: Globals, natives: Natives, n: nat): Course<Scene>
    requires s.While?
  {
    match ExecStmts(s.body, false, env, globals, natives, n)
    case Went(sc) => ExecStmt(s, top, env, sc.globals, natives, n)
    case other => other
  }

  lemma {:induction false} RoundAgrees(s: Stmt, top: bool, names: seq<string>, env: Env, st: Store, natives: Natives,
                                       n: nat, late: bool)
    requires s.While? && StmtOk(s, top, names, late) && Finds(env, names, st, late)
    ensures Agree(NextRound(s, top, env, st.globals, natives, n),
                  Again(s, top, names, SlotScope(s.body, names, st, natives, n), natives, n), env, names, st, true)
    decreases n, s, 3
  {
    ScopeAgrees(s.body, names, env, st, natives, n, late || HasLoops(s.body));
    var r := SlotScope(s.body, names, st, natives, n);
    if r.Went? {
      StmtAgrees(s, top, names, env, r.state, natives, n, late || HasLoops(s.body));
    }
  }

  // ---------------------------------------------------------------------------------------------
  // Programs
  // ---------------------------------------------------------------------------------------------

  /** A program that means what it says. */
  predicate Lexical(body: seq<Stmt>) {
    StmtsOk(body, true, [], false)
  }

  function Meaning(body: seq<Stmt>, globals: Globals, natives: Natives, n: nat): Course<Scene> {
    ExecStmts(body, true, [], globals, natives, n)
  }

  /** The two courses of a program come to the same. */
  ghost predicate SameEnd(m: Course<Scene>, r: Course<Store>, loops: bool) {
    match m
    case Went(sc) => r.Went? && r.state.globals == sc.globals && (!loops ==> r.state.stack == [])
    case Failed(fault) => r == Failed(fault)
    case Unfinished => r == Unfinished
  }

  /**
    Such a program, started with an empty stack: the machine halts with exactly the globals the interpreter
    computes, and with an empty stack if there are no loops; or it stops with exactly the interpreter's
    fault; and where the interpreter needs more than `n` rounds, it is still running after `n` steps.
  */
  lemma ProgramMeans(body: seq<Stmt>, globals: Globals, natives: Natives, n: nat)
    requires Compilable(body) && Lexical(body)
    ensures Performs(body, globals, natives, SlotProgram(body, globals, natives, n), n)
    ensures SameEnd(Meaning(body, globals, natives, n), SlotProgram(body, globals, natives, n), HasLoops(body))
  {
    ProgramRuns(body, globals, natives, n);
    StmtsAgree(body, true, [], [], Store([], globals, 0), natives, n, false);
  }
}
