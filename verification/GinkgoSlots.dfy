/**
  What every program means to the machine, without code, constants, jumps or instructions: names stand
  for slots of one stack, counted from its bottom. Where this differs from what the names say, it is
  because a value was left behind: the compiler expects the stack to hold the locals and nothing else,
  but an assignment to a local inserts a value (ginkgo/src/vm.rs:330-334), and the exit of a loop leaves
  its condition there (ginkgo/src/parse.rs:120-134).
*/
module GinkgoSlots {
  import opened Options
  import opened GinkgoValues
  import opened GinkgoCompile
  import opened GinkgoMachine

  /** The stack, the globals, and how many values have been left behind on the stack so far. */
  datatype Store = Store(stack: seq<Value>, globals: Globals, left: nat)

  function Push(st: Store, v: Value): Store {
    st.(stack := st.stack + [v])
  }

  function Pop(st: Store): Store
    requires st.stack != []
  {
    st.(stack := Drop(st.stack, 1))
  }

  /** The stack has grown by `count` values and by those left behind meanwhile. */
  predicate Grows(r: Course<Store>, st: Store, count: int) {
    r.Went? ==> st.left <= r.state.left && |r.state.stack| - r.state.left == |st.stack| + count - st.left
  }

  // ---------------------------------------------------------------------------------------------
  // Expressions
  // ---------------------------------------------------------------------------------------------

  function SlotVar(name: string, names: seq<string>, st: Store): Course<Store> {
    match Resolve(names, name)
    case Some(i) => if i < |st.stack| then Went(Push(st, st.stack[i])) else Failed(Panic)
    case None => if name in st.globals then Went(Push(st, st.globals[name])) else Failed(NoSuchGlobal(name))
  }

  /** The value on top is assigned: to a global, or by inserting it at the local's slot. */
  function SlotAssign(name: string, names: seq<string>, st: Store): (r: Course<Store>)
    requires st.stack != []
    ensures Grows(r, st, 0)
  {
    match Resolve(names, name)
    case Some(i) =>
      if i <= |st.stack| then
        Went(st.(stack := st.stack[..i] + [Top(st.stack)] + st.stack[i..], left := st.left + 1))
      else Failed(Panic)
    case None =>
      if name in st.globals then Went(st.(globals := st.globals[name := Top(st.stack)]))
      else Failed(AssignToUndefined(name))
  }

  /** The result of an operator takes the place of its `count` operands. */
  function Replace(st: Store, count: nat, o: Outcome<Value>): (r: Course<Store>)
    requires count <= |st.stack|
    ensures Grows(r, st, 1 - count)
  {
    match o
    case Ok(v) => Went(st.(stack := Drop(st.stack, count) + [v]))
    case Fail(fault) => Failed(fault)
  }

  function SlotBinary(op: BinOp, st: Store): (r: Course<Store>)
    requires 2 <= |st.stack|
    ensures Grows(r, st, 0 - 1)
  {
    Replace(st, 2, ApplyBinary(op, st.stack[|st.stack| - 2], Top(st.stack)))
  }

  function SlotCall(count: nat, st: Store, natives: Natives): (r: Course<Store>)
    requires count < |st.stack|
    ensures Grows(r, st, 0 - count)
  {
    var callee := st.stack[|st.stack| - count - 1];
    Replace(st, count + 1, if callee.NativeFn? then Ok(natives(callee.id, st.stack[|st.stack| - count..]))
                           else Fail(ValueNotCallable))
  }

  /** An expression pushes its value, and may leave values behind below it. */
  function SlotExpr(e: Expr, names: seq<string>, st: Store, natives: Natives): (r: Course<Store>)
    ensures Grows(r, st, 1)
    decreases e
  {
    match e
    case IntLit(k) => Went(Push(st, Integer(LiteralValue(k))))
    case StrLit(s) => Went(Push(st, Str(s)))
    case BoolLit(b) => Went(Push(st, Bool(b)))
    case Var(name) => SlotVar(name, names, st)
    case Paren(e1) => SlotExpr(e1, names, st, natives)
    case Neg(e1) =>
      (match SlotExpr(e1, names, st, natives)
       case Went(s1) => Replace(s1, 1, ApplyNegate(Top(s1.stack)))
       case other => other)
    case Bin(op, l, r) =>
      (match SlotExpr(l, names, st, natives)
       case Went(s1) =>
         (match SlotExpr(r, names, s1, natives)
          case Went(s2) => SlotBinary(op, s2)
          case other => other)
       case other => other)
    case And(l, r) =>
      (match SlotExpr(l, names, st, natives)
       case Went(s1) =>
         if !Top(s1.stack).Bool? then Failed(WrongTypeForOperation)
         else if !Top(s1.stack).b then Went(s1)
         else SlotExpr(r, names, Pop(s1), natives)
       case other => other)
    case Or(l, r) =>
      (match SlotExpr(l, names, st, natives)
       case Went(s1) =>
         if !Top(s1.stack).Bool? then Failed(WrongTypeForOperation)
         else if Top(s1.stack).b then Went(s1)
         else SlotExpr(r, names, Pop(s1), natives)
       case other => other)
    case Assign(name, e1) =>
      (match SlotExpr(e1, names, st, natives)
       case Went(s1) => SlotAssign(name, names, s1)
       case other => other)
    case Call(f, args, _) =>
      match SlotExpr(f, names, st, natives)
      case Went(s1) =>
        (match SlotArgs(args, names, s1, natives)
         case Went(s2) => SlotCall(|args|, s2, natives)
         case other => other)
      case other => other
  }

  function SlotArgs(args: seq<Expr>, names: seq<string>, st: Store, natives: Natives): (r: Course<Store>)
    ensures Grows(r, st, |args|)
    decreases args
  {
    if args == [] then Went(st)
    else
      match SlotExpr(args[0], names, st, natives)
      case Went(s1) => SlotArgs(args[1..], names, s1, natives)
      case other => other
  }

  // ---------------------------------------------------------------------------------------------
  // Statements
  // ---------------------------------------------------------------------------------------------

  /** The names in scope after a statement. */
  function NamesAfter(s: Stmt, top: bool, names: seq<string>): (r: seq<string>)
    ensures |names| <= |r|
  {
    if s.Let? && !top then names + [s.name] else names
  }

  function NamesAfterAll(body: seq<Stmt>, top: bool, names: seq<string>): (r: seq<string>)
    ensures |names| <= |r|
    decreases body
  {
    if body == [] then names else NamesAfterAll(body[1..], top, NamesAfter(body[0], top, names))
  }

  /**
    A statement, with at most `n` rounds for every loop. Whatever it does, the stack ends up as high as
    the names in scope and the values left behind make it.
  */
  function SlotStmt(s: Stmt, top: bool, names: seq<string>, st: Store, natives: Natives, n: nat): (r: Course<Store>)
    ensures Grows(r, st, |NamesAfter(s, top, names)| - |names|)
    decreases n, s
  {
    match s
    case Let(name, e) =>
      (match SlotExpr(e, if top then names else names + [name], st, natives)
       case Went(s1) => if top then Went(Pop(s1).(globals := s1.globals[name := Top(s1.stack)])) else Went(s1)
       case other => other)
    case Block(body) => SlotScope(body, names, st, natives, n)
    case If(cond, thn, els) =>
      (match SlotExpr(cond, names, st, natives)
       case Went(s1) =>
         if !Top(s1.stack).Bool? then Failed(WrongTypeForOperation)
         else if Top(s1.stack).b then SlotScope(thn, names, Pop(s1), natives, n)
         else SlotBranch(els, names, Pop(s1), natives, n)
       case other => other)
    case While(cond, body) =>
      if n == 0 then Unfinished
      else
        (match SlotExpr(cond, names, st, natives)
         case Went(s1) =>
           if !Top(s1.stack).Bool? then Failed(WrongTypeForOperation)
           else if !Top(s1.stack).b then Went(s1.(left := s1.left + 1))
           else
             (match SlotScope(body, names, Pop(s1), natives, n - 1)
              case Went(s2) => SlotStmt(s, top, names, s2, natives, n - 1)
              case other => other)
         case other => other)
    case Eval(e) =>
      match SlotExpr(e, names, st, natives)
      case Went(s1) => Went(Pop(s1))
      case other => other
  }

  function SlotBranch(b: Branch, names: seq<string>, st: Store, natives: Natives, n: nat): (r: Course<Store>)
    ensures Grows(r, st, 0)
    decreases n, b
  {
    match b
    case NoElse => Went(st)
    case Else(body) => SlotScope(body, names, st, natives, n)
  }

  /** At the closing brace as many values are popped as the scope has locals, whichever they are. */
  function SlotScope(body: seq<Stmt>, names: seq<string>, st: Store, natives: Natives, n: nat): (r: Course<Store>)
    ensures Grows(r, st, 0)
    decreases n, body, 1
  {
    match SlotStmts(body, false, names, st, natives, n)
    case Went(s1) => Went(s1.(stack := Drop(s1.stack, |NamesAfterAll(body, false, names)| - |names|)))
    case other => other
  }

  function SlotStmts(body: seq<Stmt>, top: bool, names: seq<string>, st: Store, natives: Natives,
                     n: nat): (r: Course<Store>)
    ensures Grows(r, st, |NamesAfterAll(body, top, names)| - |names|)
    decreases n, body, 0
  {
    if body == [] then Went(st)
    else
      match SlotStmt(body[0], top, names, st, natives, n)
      case Went(s1) => SlotStmts(body[1..], top, NamesAfter(body[0], top, names), s1, natives, n)
      case other => other
  }

  // ---------------------------------------------------------------------------------------------
  // The number of rounds is only a bound
  // ---------------------------------------------------------------------------------------------

  /** Once a course is run with some number of rounds, more rounds make no difference. */
  lemma {:induction false} MoreRounds(s: Stmt, top: bool, names: seq<string>, st: Store, natives: Natives, n: nat,
                                      m: nat)
    requires n <= m && !SlotStmt(s, top, names, st, natives, n).Unfinished?
    ensures SlotStmt(s, top, names, st, natives, m) == SlotStmt(s, top, names, st, natives, n)
    decreases n, s
  {
    match s
    case Let(_, _) =>
    case Eval(_) =>
    case Block(body) => MoreRoundsScope(body, names, st, natives, n, m);
    case If(cond, thn, els) =>
      var c := SlotExpr(cond, names, st, natives);
      if c.Went? && Top(c.state.stack).Bool? {
        if Top(c.state.stack).b {
          MoreRoundsScope(thn, names, Pop(c.state), natives, n, m);
        } else if els.Else? {
          MoreRoundsScope(els.body, names, Pop(c.state), natives, n, m);
        }
      }
    case While(cond, body) =>
      var c := SlotExpr(cond, names, st, natives);
      if c.Went? && Top(c.state.stack) == Bool(true) {
        MoreRoundsScope(body, names, Pop(c.state), natives, n - 1, m - 1);
        var b := SlotScope(body, names, Pop(c.state), natives, n - 1);
        if b.Went? {
          MoreRounds(s, top, names, b.state, natives, n - 1, m - 1);
        }
      }
  }

  lemma {:induction false} MoreRoundsScope(body: seq<Stmt>, names: seq<string>, st: Store, natives: Natives, n: nat,
                                           m: nat)
    requires n <= m && !SlotScope(body, names, st, natives, n).Unfinished?
    ensures SlotScope(body, names, st, natives, m) == SlotScope(body, names, st, natives, n)
    decreases n, body, 1
  {
    MoreRoundsAll(body, false, names, st, natives, n, m);
  }

  lemma {:induction false} MoreRoundsAll(body: seq<Stmt>, top: bool, names: seq<string>, st: Store, natives: Natives,
                                         n: nat, m: nat)
    requires n <= m && !SlotStmts(body, top, names, st, natives, n).Unfinished?
    ensures SlotStmts(body, top, names, st, natives, m) == SlotStmts(body, top, names, st, natives, n)
    decreases n, body, 0
  {
    if body != [] {
      MoreRounds(body[0], top, names, st, natives, n, m);
      var r := SlotStmt(body[0], top, names, st, natives, n);
      if r.Went? {
        MoreRoundsAll(body[1..], top, NamesAfter(body[0], top, names), r.state, natives, n, m);
      }
    }
  }
}
