/**
  Operands are never confused. While an expression is evaluated, values may be inserted below (by an
  assignment to a local), but never between the values that wait on the stack for the rest of a larger
  expression; so every operator gets its own operands and every call its own callee.
*/
module GinkgoOperands {
  import opened GinkgoValues
  import opened GinkgoCompile
  import opened GinkgoMachine
  import opened GinkgoSlots

  function FromTop(stack: seq<Value>, i: nat): Value
    requires i < |stack|
  {
    stack[|stack| - 1 - i]
  }

  /** The topmost `k` values of `a` are in `b` in the same order, below `count` others. */
  ghost predicate Kept(a: seq<Value>, b: seq<Value>, k: nat, count: nat) {
    && k <= |a| && k + count <= |b|
    && forall i | 0 <= i < k :: FromTop(b, count + i) == FromTop(a, i)
  }

  ghost predicate Keeps(r: Course<Store>, st: Store, k: nat, count: nat) {
    r.Went? ==> Kept(st.stack, r.state.stack, k, count)
  }

  /** No slot a name stands for is above the lowest of the topmost `k` values. */
  predicate Above(names: seq<string>, st: Store, k: nat) {
    k <= |st.stack| && |names| + k <= |st.stack| + 1
  }

  lemma KeptOn(a: seq<Value>, b: seq<Value>, c: seq<Value>, k: nat, m: nat, n: nat)
    requires Kept(a, b, k, m) && Kept(b, c, k + m, n)
    ensures Kept(a, c, k, m + n)
  {
    forall i | 0 <= i < k
      ensures FromTop(c, m + n + i) == FromTop(a, i)
    {
      assert FromTop(c, n + (m + i)) == FromTop(b, m + i);
    }
  }

  /** The topmost of the others may be replaced. */
  lemma KeptReplaced(a: seq<Value>, b: seq<Value>, k: nat, m: nat, drop: nat, vs: seq<Value>)
    requires Kept(a, b, k, m) && drop <= m
    ensures Kept(a, Drop(b, drop) + vs, k, m - drop + |vs|)
  {
    var c := Drop(b, drop) + vs;
    forall i | 0 <= i < k
      ensures FromTop(c, m - drop + |vs| + i) == FromTop(a, i)
    {
      assert FromTop(c, m - drop + |vs| + i) == FromTop(b, m + i);
    }
  }

  lemma KeptInserted(stack: seq<Value>, i: nat, v: Value, k: nat)
    requires i + k <= |stack|
    ensures Kept(stack, stack[..i] + [v] + stack[i..], k, 0)
  {
  }

  lemma ReplaceKeeps(a: seq<Value>, st: Store, k: nat, m: nat, drop: nat, o: Outcome<Value>)
    requires Kept(a, st.stack, k, m) && drop <= m && drop <= |st.stack|
    ensures var r := Replace(st, drop, o); r.Went? ==> Kept(a, r.state.stack, k, m - drop + 1)
  {
    if o.Ok? {
      KeptReplaced(a, st.stack, k, m, drop, [o.value]);
    }
  }

  lemma AssignKeeps(name: string, names: seq<string>, st: Store, k: nat)
    requires st.stack != [] && Above(names, st, k)
    ensures Keeps(SlotAssign(name, names, st), st, k, 0)
  {
    if name in names {
      KeptInserted(st.stack, Resolve(names, name).value, Top(st.stack), k);
    }
  }

  /** Whatever waits on the stack still waits there, just below the value of the expression. */
  lemma {:induction false} OperandsSurvive(e: Expr, names: seq<string>, st: Store, natives: Natives, k: nat)
    requires Above(names, st, k)
    ensures Keeps(SlotExpr(e, names, st, natives), st, k, 1)
    decreases e, 1
  {
    match e
    case Paren(e1) => OperandsSurvive(e1, names, st, natives, k);
    case Neg(e1) =>
      OperandsSurvive(e1, names, st, natives, k);
      match SlotExpr(e1, names, st, natives) {
        case Went(s1) => ReplaceKeeps(st.stack, s1, k, 1, 1, ApplyNegate(Top(s1.stack)));
        case _ =>
      }
    case Bin(_, _, _) => BinSurvives(e, names, st, natives, k);
    case And(l, r) => RightSurvives(e, l, r, names, st, natives, k);
    case Or(l, r) => RightSurvives(e, l, r, names, st, natives, k);
    case Assign(name, e1) =>
      OperandsSurvive(e1, names, st, natives, k);
      match SlotExpr(e1, names, st, natives) {
        case Went(s1) =>
          AssignKeeps(name, names, s1, k + 1);
          AssignOn(name, names, st.stack, s1, k);
        case _ =>
      }
    case Call(_, _, _) => CallSurvives(e, names, st, natives, k);
    case _ =>
  }

  lemma AssignOn(name: string, names: seq<string>, a: seq<Value>, st: Store, k: nat)
    requires st.stack != [] && Kept(a, st.stack, k, 1) && Keeps(SlotAssign(name, names, st), st, k + 1, 0)
    ensures var r := SlotAssign(name, names, st); r.Went? ==> Kept(a, r.state.stack, k, 1)
  {
    var r := SlotAssign(name, names, st);
    if r.Went? {
      KeptOn(a, st.stack, r.state.stack, k, 1, 0);
    }
  }

  lemma {:induction false} BinSurvives(e: Expr, names: seq<string>, st: Store, natives: Natives, k: nat)
    requires e.Bin? && Above(names, st, k)
    ensures Keeps(SlotExpr(e, names, st, natives), st, k, 1)
    decreases e, 0
  {
    OperandsSurvive(e.l, names, st, natives, k);
    match SlotExpr(e.l, names, st, natives)
    case Went(s1) =>
      OperandsSurvive(e.r, names, s1, natives, k + 1);
      match SlotExpr(e.r, names, s1, natives) {
        case Went(s2) =>
          KeptOn(st.stack, s1.stack, s2.stack, k, 1, 1);
          ReplaceKeeps(st.stack, s2, k, 2, 2, ApplyBinary(e.op, s2.stack[|s2.stack| - 2], Top(s2.stack)));
        case _ =>
      }
    case _ =>
  }

  lemma {:induction false} RightSurvives(e: Expr, l: Expr, r: Expr, names: seq<string>, st: Store, natives: Natives,
                                         k: nat)
    requires (e == And(l, r) || e == Or(l, r)) && Above(names, st, k)
    ensures Keeps(SlotExpr(e, names, st, natives), st, k, 1)
    decreases e, 0
  {
    OperandsSurvive(l, names, st, natives, k);
    match SlotExpr(l, names, st, natives)
    case Went(s1) =>
      RightKept(r, names, st.stack, s1, natives, k);
    case _ =>
  }

  lemma {:induction false} RightKept(r: Expr, names: seq<string>, a: seq<Value>, st: Store, natives: Natives, k: nat)
    requires st.stack != [] && Kept(a, st.stack, k, 1) && Above(names, Pop(st), k)
    ensures var c := SlotExpr(r, names, Pop(st), natives); c.Went? ==> Kept(a, c.state.stack, k, 1)
    decreases r, 2
  {
    KeptReplaced(a, st.stack, k, 1, 1, []);
    assert Drop(st.stack, 1) + [] == Pop(st).stack;
    OperandsSurvive(r, names, Pop(st), natives, k);
    match SlotExpr(r, names, Pop(st), natives)
    case Went(s2) => KeptOn(a, Pop(st).stack, s2.stack, k, 0, 1);
    case _ =>
  }

  lemma {:induction false} CallSurvives(e: Expr, names: seq<string>, st: Store, natives: Natives, k: nat)
    requires e.Call? && Above(names, st, k)
    ensures Keeps(SlotExpr(e, names, st, natives), st, k, 1)
    decreases e, 0
  {
    OperandsSurvive(e.f, names, st, natives, k);
    match SlotExpr(e.f, names, st, natives)
    case Went(s1) =>
      ArgsSurvive(e.args, names, s1, natives, k + 1);
      match SlotArgs(e.args, names, s1, natives) {
        case Went(s2) =>
          KeptOn(st.stack, s1.stack, s2.stack, k, 1, |e.args|);
          CallKeeps(st.stack, s2, k, |e.args|, natives);
        case _ =>
      }
    case _ =>
  }

  lemma CallKeeps(a: seq<Value>, st: Store, k: nat, count: nat, natives: Natives)
    requires Kept(a, st.stack, k, count + 1)
    ensures var r := SlotCall(count, st, natives); r.Went? ==> Kept(a, r.state.stack, k, 1)
  {
    var callee := st.stack[|st.stack| - count - 1];
    if callee.NativeFn? {
      KeptReplaced(a, st.stack, k, count + 1, count + 1, [natives(callee.id, st.stack[|st.stack| - count..])]);
    }
  }

  lemma {:induction false} ArgsSurvive(args: seq<Expr>, names: seq<string>, st: Store, natives: Natives, k: nat)
    requires Above(names, st, k)
    ensures Keeps(SlotArgs(args, names, st, natives), st, k, |args|)
    decreases args, 0
  {
    if args != [] {
      OperandsSurvive(args[0], names, st, natives, k);
      match SlotExpr(args[0], names, st, natives)
      case Went(s1) =>
        ArgsSurvive(args[1..], names, s1, natives, k + 1);
        match SlotArgs(args[1..], names, s1, natives) {
          case Went(s2) => KeptOn(st.stack, s1.stack, s2.stack, k, 1, |args| - 1);
          case _ =>
        }
      case _ =>
    }
  }

  /** A binary operator gets the value of its own left operand. */
  lemma OperatorGetsItsOperand(l: Expr, r: Expr, names: seq<string>, st: Store, natives: Natives, s1: Store, s2: Store)
    requires |names| <= |st.stack| + 1
    requires SlotExpr(l, names, st, natives) == Went(s1) && SlotExpr(r, names, s1, natives) == Went(s2)
    ensures s2.stack[|s2.stack| - 2] == Top(s1.stack)
  {
    OperandsSurvive(r, names, s1, natives, 1);
    assert FromTop(s2.stack, 1 + 0) == FromTop(s1.stack, 0);
  }

  /** A call gets its own callee. */
  lemma CallGetsItsCallee(f: Expr, args: seq<Expr>, names: seq<string>, st: Store, natives: Natives, s1: Store,
                          s2: Store)
    requires |names| <= |st.stack| + 1
    requires SlotExpr(f, names, st, natives) == Went(s1) && SlotArgs(args, names, s1, natives) == Went(s2)
    ensures s2.stack[|s2.stack| - |args| - 1] == Top(s1.stack)
  {
    ArgsSurvive(args, names, s1, natives, 1);
    assert FromTop(s2.stack, |args| + 0) == FromTop(s1.stack, 0);
  }
}
