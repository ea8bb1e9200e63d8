/**
  Why the meaning of programs asks what it asks: what the machine does with an assignment to a local, with
  a local declared after a loop, and with a loop inside a loop.
*/
module GinkgoLimits {
  import opened Options
  import opened GinkgoValues
  import opened GinkgoCompile
  import opened GinkgoMachine
  import opened GinkgoSlots
  import opened GinkgoExprs
  import opened GinkgoStmts
  import opened GinkgoLexical
  import opened GinkgoMeaning

  // ---------------------------------------------------------------------------------------------
  // Assignments to locals
  // ---------------------------------------------------------------------------------------------

  /** The store after `name = e;`, with the value of `e` on top: for a local, the value has been inserted at its slot. */
  function Assigned(name: string, names: seq<string>, st: Store): Store
    requires st.stack != []
  {
    var below, v := Pop(st).stack, Top(st.stack);
    match Resolve(names, name)
    case Some(i) => if i <= |below| then Store(below[..i] + [v] + below[i..], st.globals, st.left + 1) else Pop(st)
    case None => Pop(st).(globals := st.globals[name := v])
  }

  /** After an assignment statement the stack is what it was exactly if the target is a global. */
  lemma AssignmentKeepsStackIffGlobal(name: string, e: Expr, names: seq<string>, constants: seq<Value>, c: Emitted,
                                      ck: Chunk, natives: Natives, ip: nat, st: Store, s1: Store)
    requires ExprFits(Assign(name, e), names, constants) && |names| <= 256 && |names| <= |st.stack|
    requires c == GenStmt(Eval(Assign(name, e)), false, names, constants) && Loaded(ck, ip, c.code, c.constants)
    requires SlotExpr(e, names, st, natives) == Went(s1) && (name in names || name in s1.globals)
    ensures Reaches(ck, natives, At(ip, st), Running(At(ip + |c.code|, Assigned(name, names, s1))))
    ensures Assigned(name, names, s1).stack == Pop(s1).stack <==> name !in names
  {
    AssignedIs(name, names, s1);
    StmtGoes(Eval(Assign(name, e)), names, constants, c, ck, natives, ip, st, Assigned(name, names, s1));
  }

  lemma StmtGoes(s: Stmt, names: seq<string>, constants: seq<Value>, c: Emitted, ck: Chunk, natives: Natives, ip: nat,
                 st: Store, s1: Store)
    requires StmtFits(s, false, names, constants) && FewLocals(s, false, names)
    requires c == GenStmt(s, false, names, constants) && Loaded(ck, ip, c.code, c.constants)
    requires SlotStmt(s, false, names, st, natives, 0) == Went(s1)
    ensures Reaches(ck, natives, At(ip, st), Running(At(ip + |c.code|, s1)))
  {
    StmtComes(s, false, names, constants, c, ck, natives, ip, st, 0);
    assert Comes(ck, natives, ip, st, SlotStmt(s, false, names, st, natives, 0), ip + |c.code|, 0);
  }

  lemma AssignedIs(name: string, names: seq<string>, st: Store)
    requires |names| < |st.stack| && (name in names || name in st.globals)
    ensures SlotAssign(name, names, st).Went? && Pop(SlotAssign(name, names, st).state) == Assigned(name, names, st)
    ensures Assigned(name, names, st).stack == Pop(st).stack <==> name !in names
  {
    if name in names {
      Inserted(st.stack, Resolve(names, name).value);
    }
  }

  lemma Inserted(stack: seq<Value>, i: nat)
    requires i < |stack|
    ensures Drop(stack[..i] + [Top(stack)] + stack[i..], 1)
         == Drop(stack, 1)[..i] + [Top(stack)] + Drop(stack, 1)[i..]
  {
  }

  // ---------------------------------------------------------------------------------------------
  // Locals declared after a loop
  // ---------------------------------------------------------------------------------------------

  lemma SameBottom(env: Env, names: seq<string>, a: seq<Value>, b: seq<Value>)
    requires OnStack(env, names, a) && OnStack(env, names, b) && |a| == |names| == |b|
    ensures a == b
  {
  }

  /** A loop with no loop inside leaves exactly the condition that ended it. */
  lemma {:induction false} LoopLeavesCondition(s: Stmt, top: bool, names: seq<string>, env: Env, st: Store,
                                               natives: Natives, n: nat)
    requires s.While? && !HasLoops(s.body) && StmtOk(s, top, names, false) && Finds(env, names, st, false)
    requires SlotStmt(s, top, names, st, natives, n).Went?
    ensures SlotStmt(s, top, names, st, natives, n).state.stack == st.stack + [Bool(false)]
    decreases n
  {
    ExprAgrees(s.cond, names, env, st, natives);
    var c := EvalExpr(s.cond, env, st.globals, natives);
    PopPushed(st, c.value, c.globals);
    if c.value == Bool(true) {
      var s1 := st.(globals := c.globals);
      BodyLeavesNothing(s.body, names, env, s1, natives, n - 1);
      LoopLeavesCondition(s, top, names, env, SlotScope(s.body, names, s1, natives, n - 1).state, natives, n - 1);
    }
  }

  lemma BodyLeavesNothing(body: seq<Stmt>, names: seq<string>, env: Env, st: Store, natives: Natives, n: nat)
    requires !HasLoops(body) && StmtsOk(body, false, names, false) && Finds(env, names, st, false)
    ensures var r := SlotScope(body, names, st, natives, n); r.Went? ==> r.state.stack == st.stack
  {
    ScopeAgrees(body, names, env, st, natives, n, false);
    var r := SlotScope(body, names, st, natives, n);
    if r.Went? {
      SameBottom(env, names, st.stack, r.state.stack);
    }
  }

  /** Where the machine is after an expression. */
  function Outgoing(result: Result<Value>, ip: nat, stack: seq<Value>): Status {
    match result
    case Done(v, g) => Running(Vm(ip, stack + [v], g))
    case Stop(fault) => Faulted(fault)
  }

  /** The code of the statements sits at `ip`, followed by the code of `e`, in which `more` are the locals. */
  ghost predicate CodeOf(body: seq<Stmt>, e: Expr, names: seq<string>, more: seq<string>, constants: seq<Value>,
                         c: Emitted, d: Chunk, ck: Chunk, ip: nat) {
    && StmtsFit(body, false, names, constants) && AllFewLocals(body, false, names) && |more| <= 256
    && c == GenStmts(body, false, names, constants)
    && ExprFits(e, more, c.constants) && d == Gen(e, more, c.constants)
    && Loaded(ck, ip, c.code + d.code, d.constants)
  }

  /** (The bound variable keeps the verifier from unfolding this wherever it is mentioned.) */
  ghost predicate CodeStands(body: seq<Stmt>, e: Expr, names: seq<string>, more: seq<string>, constants: seq<Value>,
                             c: Emitted, d: Chunk, ck: Chunk, ip: nat) {
    forall k | k == ck :: CodeOf(body, e, names, more, constants, c, d, k, ip)
  }

  /**
    A loop, then `let x = init;`, then any expression, in a scope: `x` reads the condition that ended the loop,
    in its own initializer and from then on, whatever value it was given.
  */
  lemma NextLocalReadsCondition(loop: Stmt, x: string, init: Expr, e: Expr, names: seq<string>, constants: seq<Value>,
                                c: Emitted, d: Chunk, ck: Chunk, natives: Natives, ip: nat, env: Env, st: Store,
                                n: nat, g: Globals, v: Value, h: Globals)
    requires loop.While? && !HasLoops(loop.body) && StmtOk(loop, false, names, false) && Finds(env, names, st, false)
    requires AssignsGlobals(init, names + [x]) && AssignsGlobals(e, names + [x])
    requires CodeStands([loop, Let(x, init)], e, names, names + [x], constants, c, d, ck, ip)
    requires ExecStmt(loop, false, env, st.globals, natives, n) == Went(Scene(env, g))
    requires EvalExpr(init, env + [Binding(x, Bool(false))], g, natives) == Done(v, h)
    ensures Reaches(ck, natives, At(ip, st),
                    Outgoing(EvalExpr(e, env + [Binding(x, Bool(false))], h, natives), ip + |c.code| + |d.code|,
                             st.stack + [Bool(false)] + [v]))
  {
    var s2 := LoopThenLet(loop, x, init, names, env, st, natives, n, g, v, h);
    ReadsCondition(e, x, names, env, s2, st.stack, [v], natives);
    GoesThen([loop, Let(x, init)], e, names, names + [x], constants, c, d, ck, natives, ip, st, s2,
             EvalExpr(e, env + [Binding(x, Bool(false))], h, natives), n);
  }

  lemma GoesThen(body: seq<Stmt>, e: Expr, names: seq<string>, more: seq<string>, constants: seq<Value>, c: Emitted,
                 d: Chunk, ck: Chunk, natives: Natives, ip: nat, st: Store, s2: Store, r: Result<Value>, n: nat)
    requires CodeStands(body, e, names, more, constants, c, d, ck, ip)
    requires SlotStmts(body, false, names, st, natives, n) == Went(s2)
    requires SlotExpr(e, more, s2, natives) == Pushed(r, s2)
    ensures Reaches(ck, natives, At(ip, st), Outgoing(r, ip + |c.code| + |d.code|, s2.stack))
  {
    BodyGoes(body, e, names, more, constants, c, d, ck, natives, ip, st, s2, n);
    assert CodeOf(body, e, names, more, constants, c, d, ck, ip);
    ThenExpr(e, more, c.constants, d, ck, natives, ip, st, ip + |c.code|, s2, r);
  }

  /** The statements lead to the code after them. */
  lemma BodyGoes(body: seq<Stmt>, e: Expr, names: seq<string>, more: seq<string>, constants: seq<Value>, c: Emitted,
                 d: Chunk, ck: Chunk, natives: Natives, ip: nat, st: Store, s2: Store, n: nat)
    requires CodeStands(body, e, names, more, constants, c, d, ck, ip)
    requires SlotStmts(body, false, names, st, natives, n) == Went(s2)
    ensures Loaded(ck, ip + |c.code|, d.code, d.constants)
    ensures Reaches(ck, natives, At(ip, st), Running(At(ip + |c.code|, s2)))
  {
    assert CodeOf(body, e, names, more, constants, c, d, ck, ip);
    LoadedParts(ck, ip, c.code, d.code, c.constants, d.constants);
    StmtsCome(body, false, names, constants, c, ck, natives, ip, st, n);
  }

  lemma ThenExpr(e: Expr, names: seq<string>, constants: seq<Value>, d: Chunk, ck: Chunk, natives: Natives, ip: nat,
                 st: Store, ip1: nat, s1: Store, r: Result<Value>)
    requires ExprFits(e, names, constants) && |names| <= 256 && d == Gen(e, names, constants)
    requires Loaded(ck, ip1, d.code, d.constants) && Reaches(ck, natives, At(ip, st), Running(At(ip1, s1)))
    requires SlotExpr(e, names, s1, natives) == Pushed(r, s1)
    ensures Reaches(ck, natives, At(ip, st), Outgoing(r, ip1 + |d.code|, s1.stack))
  {
    ExprComes(e, names, constants, ck, natives, ip1, s1, 0);
    ThenPushed(ck, natives, ip, st, ip1, s1, r, ip1 + |d.code|);
  }

  lemma ThenPushed(ck: Chunk, natives: Natives, ip: nat, st: Store, ip1: nat, s1: Store, r: Result<Value>, end: nat)
    requires Reaches(ck, natives, At(ip, st), Running(At(ip1, s1)))
    requires Comes(ck, natives, ip1, s1, Pushed(r, s1), end, 0)
    ensures Reaches(ck, natives, At(ip, st), Outgoing(r, end, s1.stack))
  {
    ComesOn(ck, natives, ip, st, ip1, s1, Pushed(r, s1), end, 0);
  }

  lemma LoopThenLet(loop: Stmt, x: string, init: Expr, names: seq<string>, env: Env, st: Store, natives: Natives,
                    n: nat,
                    g: Globals, v: Value, h: Globals) returns (s2: Store)
    requires loop.While? && !HasLoops(loop.body) && StmtOk(loop, false, names, false) && Finds(env, names, st, false)
    requires AssignsGlobals(init, names + [x])
    requires ExecStmt(loop, false, env, st.globals, natives, n) == Went(Scene(env, g))
    requires EvalExpr(init, env + [Binding(x, Bool(false))], g, natives) == Done(v, h)
    ensures SlotStmts([loop, Let(x, init)], false, names, st, natives, n) == Went(s2)
    ensures s2.stack == st.stack + [Bool(false)] + [v] && s2.globals == h
  {
    StmtAgrees(loop, false, names, env, st, natives, n, false);
    LoopLeavesCondition(loop, false, names, env, st, natives, n);
    var s1 := SlotStmt(loop, false, names, st, natives, n).state;
    ReadsCondition(init, x, names, env, s1, st.stack, [], natives);
    s2 := Push(s1, v).(globals := h);
    assert SlotStmt(Let(x, init), false, names, s1, natives, n) == Went(s2);
    TwoStmts(loop, Let(x, init), names, st, s1, s2, natives, n);
  }

  lemma TwoStmts(a: Stmt, b: Stmt, names: seq<string>, st: Store, s1: Store, s2: Store, natives: Natives, n: nat)
    requires !a.Let? && SlotStmt(a, false, names, st, natives, n) == Went(s1)
    requires SlotStmt(b, false, names, s1, natives, n) == Went(s2)
    ensures SlotStmts([a, b], false, names, st, natives, n) == Went(s2)
  {
    assert [a, b][1..] == [b] && [b][1..] == [];
    assert SlotStmts([b], false, names, s1, natives, n) == SlotStmts([], false, NamesAfter(b, false, names), s2, natives, n);
  }

  lemma ReadsCondition(e: Expr, x: string, names: seq<string>, env: Env, st: Store, bottom: seq<Value>, vs: seq<Value>,
                       natives: Natives)
    requires AssignsGlobals(e, names + [x]) && OnStack(env, names, bottom) && |bottom| == |names|
    requires st.stack == bottom + [Bool(false)] + vs
    ensures SlotExpr(e, names + [x], st, natives) == Pushed(EvalExpr(e, env + [Binding(x, Bool(false))], st.globals, natives), st)
  {
    ExprAgrees(e, names + [x], env + [Binding(x, Bool(false))], st, natives);
  }

  // ---------------------------------------------------------------------------------------------
  // Loops inside loops
  // ---------------------------------------------------------------------------------------------

  /** One round of a loop that goes on brings the machine back to its start, with all the body has left behind. */
  lemma RoundReturns(s: Stmt, top: bool, names: seq<string>, constants: seq<Value>, ck: Chunk, natives: Natives,
                     ip: nat,
                     back: nat, length: nat, st: Store, s1: Store, s2: Store, n: nat)
    requires s.While? && LoopStands(s, top, names, constants, ck, ip, back, length)
    requires SlotExpr(s.cond, names, st, natives) == Went(s1) && Top(s1.stack) == Bool(true)
    requires SlotScope(s.body, names, Pop(s1), natives, n) == Went(s2)
    ensures Reaches(ck, natives, At(ip, st), Running(At(ip, s2)))
  {
    LoopParts(s, top, names, constants, ck, ip, back, length);
    CondComes(s, top, names, constants, ck, natives, ip, back, length, st, n);
    ExitComes(ck, natives, ip + back, back, length, s1);
    BodyComes(s.body, names, Gen(s.cond, names, constants).constants, ck, natives, ip + back + 4, length, Pop(s1), n);
    ReturnComes(ck, natives, ip + back, back, length, s2);
    Chain(ck, natives, At(ip, st), At(ip + back, s1), Running(At(ip + back + 4, Pop(s1))));
    Chain(ck, natives, At(ip, st), At(ip + back + 4, Pop(s1)), Running(At(ip + back + 4 + length, s2)));
    Chain(ck, natives, At(ip, st), At(ip + back + 4 + length, s2), Running(At(ip, s2)));
  }

  const INNER: Stmt := While(BoolLit(false), [])

  /** `while true { while false { } }` */
  const NESTED: Stmt := While(BoolLit(true), [INNER])

  function Conditions(k: nat): seq<Value> {
    seq(k, _ => Bool(false))
  }

  lemma InnerLeavesOne(names: seq<string>, st: Store, natives: Natives)
    ensures SlotScope([INNER], names, st, natives, 1) == Went(Push(st, Bool(false)).(left := st.left + 1))
  {
    var r := SlotStmt(INNER, false, names, st, natives, 1);
    assert r == Went(Push(st, Bool(false)).(left := st.left + 1));
    assert [INNER][1..] == [];
    assert SlotStmts([], false, names, r.state, natives, 1) == r;
    assert Drop(r.state.stack, 0) == r.state.stack;
  }

  /** Every round leaves one more value: after `k` rounds there are `k` of them, and the machine is back at the start. */
  lemma {:induction false} NestedLoopFillsStack(names: seq<string>, constants: seq<Value>, ck: Chunk, natives: Natives,
                                                ip: nat, back: nat, length: nat, st: Store, k: nat)
    requires LoopStands(NESTED, false, names, constants, ck, ip, back, length)
    ensures Reaches(ck, natives, At(ip, st), Running(Vm(ip, st.stack + Conditions(k), st.globals)))
    decreases k
  {
    if k == 0 {
      assert st.stack + Conditions(0) == st.stack;
      ReachesHere(ck, natives, At(ip, st));
    } else {
      var s1 := Push(st, Bool(true));
      var s2 := Push(st, Bool(false)).(left := st.left + 1);
      assert Pop(s1) == st;
      InnerLeavesOne(names, st, natives);
      RoundReturns(NESTED, false, names, constants, ck, natives, ip, back, length, st, s1, s2, 1);
      NestedLoopFillsStack(names, constants, ck, natives, ip, back, length, s2, k - 1);
      assert st.stack + [Bool(false)] + Conditions(k - 1) == st.stack + Conditions(k);
      Chain(ck, natives, At(ip, st), At(ip, s2), Running(Vm(ip, st.stack + Conditions(k), st.globals)));
    }
  }
}
