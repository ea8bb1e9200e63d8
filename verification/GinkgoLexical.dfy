/**
  Where names mean what they say: with the locals at the bottom of the stack and assignments to globals
  only, an expression is worth by slots what the interpreter of trees says.
*/
module GinkgoLexical {
  import opened Options
  import opened GinkgoValues
  import opened GinkgoCompile
  import opened GinkgoMachine
  import opened GinkgoSlots

  /** The locals, by name and value, are the bottom of the stack. */
  ghost predicate OnStack(env: Env, names: seq<string>, stack: seq<Value>) {
    && |env| == |names| <= |stack|
    && forall i | 0 <= i < |env| :: env[i].name == names[i] && env[i].value == stack[i]
  }

  /** No assignment in the expression is to a name that is a local. */
  predicate AssignsGlobals(e: Expr, names: seq<string>) {
    match e
    case Neg(e1) => AssignsGlobals(e1, names)
    case Paren(e1) => AssignsGlobals(e1, names)
    case Bin(_, l, r) => AssignsGlobals(l, names) && AssignsGlobals(r, names)
    case And(l, r) => AssignsGlobals(l, names) && AssignsGlobals(r, names)
    case Or(l, r) => AssignsGlobals(l, names) && AssignsGlobals(r, names)
    case Assign(name, e1) => name !in names && AssignsGlobals(e1, names)
    case Call(f, args, _) => AssignsGlobals(f, names) && forall a | a in args :: AssignsGlobals(a, names)
    case _ => true
  }

  /** The expression reads or assigns the name. */
  predicate Mentions(e: Expr, name: string) {
    match e
    case Var(x) => x == name
    case Neg(e1) => Mentions(e1, name)
    case Paren(e1) => Mentions(e1, name)
    case Bin(_, l, r) => Mentions(l, name) || Mentions(r, name)
    case And(l, r) => Mentions(l, name) || Mentions(r, name)
    case Or(l, r) => Mentions(l, name) || Mentions(r, name)
    case Assign(x, e1) => x == name || Mentions(e1, name)
    case Call(f, args, _) => Mentions(f, name) || exists a | a in args :: Mentions(a, name)
    case _ => false
  }

  /** The slot the compiler resolves a name to holds the value the interpreter looks up. */
  lemma {:induction false} ResolveIsLookup(env: Env, names: seq<string>, stack: seq<Value>, name: string)
    requires OnStack(env, names, stack)
    ensures Resolve(names, name).Some? <==> Lookup(env, name).Some?
    ensures Resolve(names, name).Some? ==> Lookup(env, name).value == stack[Resolve(names, name).value]
    decreases |env|
  {
    if env != [] {
      var last := |env| - 1;
      if names[last] != name {
        assert OnStack(env[..last], names[..last], stack);
        ResolveIsLookup(env[..last], names[..last], stack, name);
      }
    }
  }

  lemma OnStackPushed(env: Env, names: seq<string>, stack: seq<Value>, vs: seq<Value>)
    requires OnStack(env, names, stack)
    ensures OnStack(env, names, stack + vs)
  {
  }

  // ---------------------------------------------------------------------------------------------
  // Expressions
  // ---------------------------------------------------------------------------------------------

  /** The value is pushed and nothing is left behind. */
  function Pushed(result: Result<Value>, st: Store): Course<Store> {
    match result
    case Done(v, g) => Went(Push(st, v).(globals := g))
    case Stop(fault) => Failed(fault)
  }

  function PushedAll(result: Result<seq<Value>>, st: Store): Course<Store> {
    match result
    case Done(vs, g) => Went(Store(st.stack + vs, g, st.left))
    case Stop(fault) => Failed(fault)
  }

  lemma PopPushed(st: Store, v: Value, g: Globals)
    ensures var s1 := Push(st, v).(globals := g);
            s1.stack != [] && Top(s1.stack) == v && Pop(s1) == st.(globals := g)
  {
  }

  lemma ReplaceOne(st: Store, v: Value, g: Globals, o: Outcome<Value>)
    ensures Replace(Push(st, v).(globals := g), 1, o) == Pushed(Lift(o, g), st)
  {
    assert Drop(st.stack + [v], 1) == st.stack;
  }

  lemma BinaryAgrees(op: BinOp, st: Store, a: Value, b: Value, g: Globals)
    ensures SlotBinary(op, Store(st.stack + [a] + [b], g, st.left)) == Pushed(Lift(ApplyBinary(op, a, b), g), st)
  {
    assert Drop(st.stack + [a] + [b], 2) == st.stack;
  }

  lemma CallAgrees(st: Store, callee: Value, vs: seq<Value>, g: Globals, natives: Natives)
    ensures SlotCall(|vs|, Store(st.stack + [callee] + vs, g, st.left), natives)
         == Pushed(if callee.NativeFn? then Done(natives(callee.id, vs), g) else Stop(ValueNotCallable), st)
  {
    var stack := st.stack + [callee] + vs;
    assert stack[|stack| - |vs| - 1] == callee && stack[|stack| - |vs|..] == vs;
    assert Drop(stack, |vs| + 1) == st.stack;
  }

  /** What it takes for an expression to mean by slots what it says. */
  ghost predicate Plain(e: Expr, names: seq<string>, env: Env, st: Store) {
    AssignsGlobals(e, names) && OnStack(env, names, st.stack)
  }

  lemma {:induction false} ExprAgrees(e: Expr, names: seq<string>, env: Env, st: Store, natives: Natives)
    requires Plain(e, names, env, st)
    ensures SlotExpr(e, names, st, natives) == Pushed(EvalExpr(e, env, st.globals, natives), st)
    decreases e, 1
  {
    match e
    case Var(name) => ResolveIsLookup(env, names, st.stack, name);
    case Paren(e1) => ExprAgrees(e1, names, env, st, natives);
    case Neg(e1) =>
      ExprAgrees(e1, names, env, st, natives);
      match EvalExpr(e1, env, st.globals, natives) {
        case Stop(_) =>
        case Done(v, g) => ReplaceOne(st, v, g, ApplyNegate(v));
      }
    case Bin(_, _, _) => BinAgrees(e, names, env, st, natives);
    case And(l, r) => ShortCircuitAgrees(e, l, r, names, env, st, natives);
    case Or(l, r) => ShortCircuitAgrees(e, l, r, names, env, st, natives);
    case Assign(name, e1) => ExprAgrees(e1, names, env, st, natives);
    case Call(_, _, _) => CallExprAgrees(e, names, env, st, natives);
    case _ =>
  }

  lemma {:induction false} BinAgrees(e: Expr, names: seq<string>, env: Env, st: Store, natives: Natives)
    requires e.Bin? && Plain(e, names, env, st)
    ensures SlotExpr(e, names, st, natives) == Pushed(EvalExpr(e, env, st.globals, natives), st)
    decreases e, 0
  {
    ExprAgrees(e.l, names, env, st, natives);
    match EvalExpr(e.l, env, st.globals, natives)
    case Stop(_) =>
    case Done(a, g) =>
      var s1 := Push(st, a).(globals := g);
      OnStackPushed(env, names, st.stack, [a]);
      ExprAgrees(e.r, names, env, s1, natives);
      match EvalExpr(e.r, env, g, natives) {
        case Stop(_) =>
        case Done(b, h) => BinaryAgrees(e.op, st, a, b, h);
      }
  }

  lemma {:induction false} ShortCircuitAgrees(e: Expr, l: Expr, r: Expr, names: seq<string>, env: Env, st: Store,
                                              natives: Natives)
    requires (e == And(l, r) || e == Or(l, r)) && Plain(e, names, env, st)
    ensures SlotExpr(e, names, st, natives) == Pushed(EvalExpr(e, env, st.globals, natives), st)
    decreases e, 0
  {
    ExprAgrees(l, names, env, st, natives);
    match EvalExpr(l, env, st.globals, natives)
    case Stop(_) =>
    case Done(v, g) =>
      PopPushed(st, v, g);
      ExprAgrees(r, names, env, st.(globals := g), natives);
  }

  lemma {:induction false} CallExprAgrees(e: Expr, names: seq<string>, env: Env, st: Store, natives: Natives)
    requires e.Call? && Plain(e, names, env, st)
    ensures SlotExpr(e, names, st, natives) == Pushed(EvalExpr(e, env, st.globals, natives), st)
    decreases e, 0
  {
    ExprAgrees(e.f, names, env, st, natives);
    match EvalExpr(e.f, env, st.globals, natives)
    case Stop(_) =>
    case Done(callee, g) =>
      var s1 := Push(st, callee).(globals := g);
      OnStackPushed(env, names, st.stack, [callee]);
      ArgsAgree(e.args, names, env, s1, natives);
      match EvalArgs(e.args, env, g, natives) {
        case Stop(_) =>
        case Done(vs, h) => CallAgrees(st, callee, vs, h, natives);
      }
  }

  lemma {:induction false} ArgsAgree(args: seq<Expr>, names: seq<string>, env: Env, st: Store, natives: Natives)
    requires (forall a | a in args :: AssignsGlobals(a, names)) && OnStack(env, names, st.stack)
    ensures SlotArgs(args, names, st, natives) == PushedAll(EvalArgs(args, env, st.globals, natives), st)
    ensures var r := EvalArgs(args, env, st.globals, natives); r.Done? ==> |r.value| == |args|
    decreases args, 0
  {
    if args == [] {
      assert st.stack + [] == st.stack;
    } else {
      ExprAgrees(args[0], names, env, st, natives);
      match EvalExpr(args[0], env, st.globals, natives)
      case Stop(_) =>
      case Done(v, g) =>
        OnStackPushed(env, names, st.stack, [v]);
        ArgsAgree(args[1..], names, env, Push(st, v).(globals := g), natives);
        match EvalArgs(args[1..], env, g, natives) {
          case Stop(_) =>
          case Done(vs, _) => assert st.stack + [v] + vs == st.stack + ([v] + vs);
        }
    }
  }
}
