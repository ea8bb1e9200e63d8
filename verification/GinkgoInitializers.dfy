/**
  Initializers in a scope (ginkgo/src/parse.rs): `let` makes its name a local before the initializer is
  compiled. What every initializer is worth when the stack holds the locals and nothing else, whether it
  names its own variable or not.
*/
module GinkgoInitializers {
  import opened Options
  import opened GinkgoValues
  import opened GinkgoCompile
  import opened GinkgoMachine
  import opened GinkgoSlots
  import opened GinkgoExprs
  import opened GinkgoStmts
  import opened GinkgoLexical

  function Combine(op: BinOp, a: Value, right: Result<Value>): Result<Value> {
    match right
    case Stop(fault) => Stop(fault)
    case Done(b, h) => Lift(ApplyBinary(op, a, b), h)
  }

  function CallResult(callee: Value, args: Result<seq<Value>>, natives: Natives): Result<Value> {
    match args
    case Stop(fault) => Stop(fault)
    case Done(vs, h) => if callee.NativeFn? then Done(natives(callee.id, vs), h) else Stop(ValueNotCallable)
  }

  /**
    What an initializer is worth inside a scope. The name is already resolved to the slot the new local
    will have, the first one above the locals. While nothing is there, reading it is a panic; once the
    left part of the expression has left a value there, the name reads that value.
  */
  function EvalInit(e: Expr, name: string, env: Env, globals: Globals, natives: Natives): Result<Value>
    decreases e
  {
    match e
    case Var(x) => if x == name then Stop(Panic) else EvalExpr(e, env, globals, natives)
    case Neg(e1) =>
      (match EvalInit(e1, name, env, globals, natives)
       case Stop(fault) => Stop(fault)
       case Done(v, g) => Lift(ApplyNegate(v), g))
    case Bin(op, l, r) =>
      (match EvalInit(l, name, env, globals, natives)
       case Stop(fault) => Stop(fault)
       case Done(a, g) => Combine(op, a, EvalExpr(r, env + [Binding(name, a)], g, natives)))
    case And(l, r) =>
      (match EvalInit(l, name, env, globals, natives)
       case Stop(fault) => Stop(fault)
       case Done(v, g) =>
         if !v.Bool? then Stop(WrongTypeForOperation)
         else if !v.b then Done(v, g)
         else EvalInit(r, name, env, g, natives))
    case Or(l, r) =>
      (match EvalInit(l, name, env, globals, natives)
       case Stop(fault) => Stop(fault)
       case Done(v, g) =>
         if !v.Bool? then Stop(WrongTypeForOperation)
         else if v.b then Done(v, g)
         else EvalInit(r, name, env, g, natives))
    case Paren(e1) => EvalInit(e1, name, env, globals, natives)
    case Assign(x, e1) =>
      (match EvalInit(e1, name, env, globals, natives)
       case Stop(fault) => Stop(fault)
       case Done(v, g) => if x in g then Done(v, g[x := v]) else Stop(AssignToUndefined(x)))
    case Call(f, args, _) =>
      (match EvalInit(f, name, env, globals, natives)
       case Stop(fault) => Stop(fault)
       case Done(callee, g) => CallResult(callee, EvalArgs(args, env + [Binding(name, callee)], g, natives), natives))
    case _ => EvalExpr(e, env, globals, natives)
  }

  /** The first value above the locals is what the name stands for from then on. */
  lemma FirstTemporary(env: Env, name: string, names: seq<string>, stack: seq<Value>, v: Value)
    requires OnStack(env, names, stack) && |stack| == |names|
    ensures OnStack(env + [Binding(name, v)], names + [name], stack + [v])
  {
  }

  /** An initializer of `name`, with the locals before it as the whole stack. */
  ghost predicate InitPlain(e: Expr, name: string, names: seq<string>, env: Env, st: Store) {
    AssignsGlobals(e, names + [name]) && OnStack(env, names, st.stack) && |st.stack| == |names|
  }

  /** For every initializer: by slots it is worth exactly what `EvalInit` says. */
  lemma {:induction false} InitMeans(e: Expr, name: string, names: seq<string>, env: Env, st: Store, natives: Natives)
    requires InitPlain(e, name, names, env, st)
    ensures SlotExpr(e, names + [name], st, natives) == Pushed(EvalInit(e, name, env, st.globals, natives), st)
    decreases e, 1
  {
    match e
    case Var(x) => InitVarMeans(x, name, names, env, st, natives);
    case Paren(e1) => InitMeans(e1, name, names, env, st, natives);
    case Neg(e1) =>
      InitMeans(e1, name, names, env, st, natives);
      match EvalInit(e1, name, env, st.globals, natives) {
        case Stop(_) =>
        case Done(v, g) => ReplaceOne(st, v, g, ApplyNegate(v));
      }
    case Bin(_, _, _) => InitBinMeans(e, name, names, env, st, natives);
    case And(l, r) => InitShortCircuitMeans(e, l, r, name, names, env, st, natives);
    case Or(l, r) => InitShortCircuitMeans(e, l, r, name, names, env, st, natives);
    case Assign(_, e1) => InitMeans(e1, name, names, env, st, natives);
    case Call(_, _, _) => InitCallMeans(e, name, names, env, st, natives);
    case _ =>
  }

  lemma InitVarMeans(x: string, name: string, names: seq<string>, env: Env, st: Store, natives: Natives)
    requires InitPlain(Var(x), name, names, env, st)
    ensures SlotVar(x, names + [name], st) == Pushed(EvalInit(Var(x), name, env, st.globals, natives), st)
  {
    assert (names + [name])[..|names|] == names;
    ResolveIsLookup(env, names, st.stack, x);
  }

  lemma {:induction false} InitBinMeans(e: Expr, name: string, names: seq<string>, env: Env, st: Store,
                                        natives: Natives)
    requires e.Bin? && InitPlain(e, name, names, env, st)
    ensures SlotExpr(e, names + [name], st, natives) == Pushed(EvalInit(e, name, env, st.globals, natives), st)
    decreases e, 0
  {
    InitMeans(e.l, name, names, env, st, natives);
    match EvalInit(e.l, name, env, st.globals, natives)
    case Stop(_) =>
    case Done(a, g) =>
      FirstTemporary(env, name, names, st.stack, a);
      ExprAgrees(e.r, names + [name], env + [Binding(name, a)], Push(st, a).(globals := g), natives);
      match EvalExpr(e.r, env + [Binding(name, a)], g, natives) {
        case Stop(_) =>
        case Done(b, h) => BinaryAgrees(e.op, st, a, b, h);
      }
  }

  lemma {:induction false} InitShortCircuitMeans(e: Expr, l: Expr, r: Expr, name: string, names: seq<string>, env: Env,
                                                 st: Store, natives: Natives)
    requires (e == And(l, r) || e == Or(l, r)) && InitPlain(e, name, names, env, st)
    ensures SlotExpr(e, names + [name], st, natives) == Pushed(EvalInit(e, name, env, st.globals, natives), st)
    decreases e, 0
  {
    InitMeans(l, name, names, env, st, natives);
    match EvalInit(l, name, env, st.globals, natives)
    case Stop(_) =>
    case Done(v, g) =>
      PopPushed(st, v, g);
      InitMeans(r, name, names, env, st.(globals := g), natives);
  }

  lemma {:induction false} InitCallMeans(e: Expr, name: string, names: seq<string>, env: Env, st: Store,
                                         natives: Natives)
    requires e.Call? && InitPlain(e, name, names, env, st)
    ensures SlotExpr(e, names + [name], st, natives) == Pushed(EvalInit(e, name, env, st.globals, natives), st)
    decreases e, 0
  {
    InitMeans(e.f, name, names, env, st, natives);
    match EvalInit(e.f, name, env, st.globals, natives)
    case Stop(_) =>
    case Done(callee, g) =>
      var env' := env + [Binding(name, callee)];
      FirstTemporary(env, name, names, st.stack, callee);
      ArgsAgree(e.args, names + [name], env', Push(st, callee).(globals := g), natives);
      match EvalArgs(e.args, env', g, natives) {
        case Stop(_) =>
        case Done(vs, h) => CallAgrees(st, callee, vs, h, natives);
      }
  }

  // ---------------------------------------------------------------------------------------------
  // What follows for `let` in a scope
  // ---------------------------------------------------------------------------------------------

  lemma LookupOther(env: Env, name: string, v: Value, x: string)
    requires x != name
    ensures Lookup(env + [Binding(name, v)], x) == Lookup(env, x)
  {
    assert (env + [Binding(name, v)])[..|env|] == env;
  }

  lemma {:induction false} EvalIgnores(e: Expr, name: string, v: Value, env: Env, globals: Globals, natives: Natives)
    requires !Mentions(e, name)
    ensures EvalExpr(e, env + [Binding(name, v)], globals, natives) == EvalExpr(e, env, globals, natives)
    decreases e, 1
  {
    match e
    case Var(x) => LookupOther(env, name, v, x);
    case Neg(e1) => EvalIgnores(e1, name, v, env, globals, natives);
    case Paren(e1) => EvalIgnores(e1, name, v, env, globals, natives);
    case Bin(_, _, _) => EvalIgnoresTwo(e, name, v, env, globals, natives);
    case And(_, _) => EvalIgnoresTwo(e, name, v, env, globals, natives);
    case Or(_, _) => EvalIgnoresTwo(e, name, v, env, globals, natives);
    case Assign(_, e1) => EvalIgnores(e1, name, v, env, globals, natives);
    case Call(f, args, _) =>
      EvalIgnores(f, name, v, env, globals, natives);
      match EvalExpr(f, env, globals, natives) {
        case Stop(_) =>
        case Done(_, g) => ArgsEvalIgnore(args, name, v, env, g, natives);
      }
    case _ =>
  }

  lemma {:induction false} EvalIgnoresTwo(e: Expr, name: string, v: Value, env: Env, globals: Globals, natives: Natives)
    requires (e.Bin? || e.And? || e.Or?) && !Mentions(e, name)
    ensures EvalExpr(e.l, env + [Binding(name, v)], globals, natives) == EvalExpr(e.l, env, globals, natives)
    ensures var left := EvalExpr(e.l, env, globals, natives);
            left.Done? ==>
              EvalExpr(e.r, env + [Binding(name, v)], left.globals, natives) == EvalExpr(e.r, env, left.globals, natives)
    decreases e, 0
  {
    EvalIgnores(e.l, name, v, env, globals, natives);
    var left := EvalExpr(e.l, env, globals, natives);
    if left.Done? {
      EvalIgnores(e.r, name, v, env, left.globals, natives);
    }
  }

  lemma {:induction false} ArgsEvalIgnore(args: seq<Expr>, name: string, v: Value, env: Env, globals: Globals,
                                          natives: Natives)
    requires forall a | a in args :: !Mentions(a, name)
    ensures EvalArgs(args, env + [Binding(name, v)], globals, natives) == EvalArgs(args, env, globals, natives)
    decreases args
  {
    if args != [] {
      EvalIgnores(args[0], name, v, env, globals, natives);
      match EvalExpr(args[0], env, globals, natives)
      case Stop(_) =>
      case Done(_, g) => ArgsEvalIgnore(args[1..], name, v, env, g, natives);
    }
  }

  /** An initializer that does not name its variable is worth what it says. */
  lemma {:induction false} InitAgrees(e: Expr, name: string, env: Env, globals: Globals, natives: Natives)
    requires !Mentions(e, name)
    ensures EvalInit(e, name, env, globals, natives) == EvalExpr(e, env, globals, natives)
    decreases e
  {
    match e
    case Neg(e1) => InitAgrees(e1, name, env, globals, natives);
    case Paren(e1) => InitAgrees(e1, name, env, globals, natives);
    case Bin(_, l, r) =>
      InitAgrees(l, name, env, globals, natives);
      match EvalExpr(l, env, globals, natives) {
        case Stop(_) =>
        case Done(a, g) => EvalIgnores(r, name, a, env, g, natives);
      }
    case And(l, r) =>
      InitAgrees(l, name, env, globals, natives);
      match EvalExpr(l, env, globals, natives) {
        case Stop(_) =>
        case Done(_, g) => InitAgrees(r, name, env, g, natives);
      }
    case Or(l, r) =>
      InitAgrees(l, name, env, globals, natives);
      match EvalExpr(l, env, globals, natives) {
        case Stop(_) =>
        case Done(_, g) => InitAgrees(r, name, env, g, natives);
      }
    case Assign(_, e1) => InitAgrees(e1, name, env, globals, natives);
    case Call(f, args, _) =>
      InitAgrees(f, name, env, globals, natives);
      match EvalExpr(f, env, globals, natives) {
        case Stop(_) =>
        case Done(callee, g) => ArgsEvalIgnore(args, name, callee, env, g, natives);
      }
    case _ =>
  }

  /** Every `let` in a scope: the machine pushes what `EvalInit` says as the new local, or stops with its fault. */
  lemma LetRuns(name: string, e: Expr, names: seq<string>, constants: seq<Value>, ck: Chunk, natives: Natives, ip: nat,
                env: Env, st: Store)
    requires ExprFits(e, names + [name], constants) && |names| < 256 && InitPlain(e, name, names, env, st)
    requires var c := GenStmt(Let(name, e), false, names, constants); Loaded(ck, ip, c.code, c.constants)
    ensures Comes(ck, natives, ip, st, Pushed(EvalInit(e, name, env, st.globals, natives), st),
                  ip + |GenStmt(Let(name, e), false, names, constants).code|, 0)
  {
    ExprComes(e, names + [name], constants, ck, natives, ip, st, 0);
    InitMeans(e, name, names, env, st, natives);
  }

  /** `let x = x;` is a panic, whatever an outer `x` holds. */
  lemma InitializerNamingItselfPanics(name: string, names: seq<string>, constants: seq<Value>, ck: Chunk,
                                      natives: Natives, ip: nat, env: Env, st: Store)
    requires |names| < 256 && OnStack(env, names, st.stack) && |st.stack| == |names|
    requires var c := GenStmt(Let(name, Var(name)), false, names, constants); Loaded(ck, ip, c.code, c.constants)
    ensures Reaches(ck, natives, At(ip, st), Faulted(Panic))
  {
    LetRuns(name, Var(name), names, constants, ck, natives, ip, env, st);
  }

  /** `let x = k + x;` makes `x` twice `k`, whatever an outer `x` holds. */
  lemma InitializerReadsItsOwnLeftSide(k: nat, name: string, names: seq<string>, constants: seq<Value>, ck: Chunk,
                                       natives: Natives, ip: nat, env: Env, st: Store)
    requires |names| < 256 && OnStack(env, names, st.stack) && |st.stack| == |names| && IsI64(2 * LiteralValue(k))
    requires var c := GenStmt(Let(name, Bin(Add, IntLit(k), Var(name))), false, names, constants);
             Loaded(ck, ip, c.code, c.constants)
    ensures Reaches(ck, natives, At(ip, st),
                    Running(At(ip + |GenStmt(Let(name, Bin(Add, IntLit(k), Var(name))), false, names, constants).code|,
                               Push(st, Integer(2 * LiteralValue(k))))))
  {
    var e := Bin(Add, IntLit(k), Var(name));
    var v := Integer(LiteralValue(k));
    LetRuns(name, e, names, constants, ck, natives, ip, env, st);
    assert Lookup(env + [Binding(name, v)], name) == Some(v);
    assert EvalInit(IntLit(k), name, env, st.globals, natives) == Done(v, st.globals);
    assert EvalExpr(Var(name), env + [Binding(name, v)], st.globals, natives) == Done(v, st.globals);
  }
}
