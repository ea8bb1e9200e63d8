/**
  Running the code of statements and programs: whatever they are, the machine does exactly what they do
  by slots.
*/
module GinkgoStmts {
  import opened Options
  import opened GinkgoValues
  import opened GinkgoCompile
  import opened GinkgoMachine
  import opened GinkgoSlots
  import opened GinkgoExprs

  /** At most 256 locals are ever in scope, so that every slot fits the operand of an instruction. */
  predicate FewLocals(s: Stmt, top: bool, names: seq<string>)
    decreases s
  {
    && |NamesAfter(s, top, names)| <= 256
    && match s
       case Block(body) => AllFewLocals(body, false, names)
       case If(_, thn, els) => AllFewLocals(thn, false, names) && BranchFewLocals(els, names)
       case While(_, body) => AllFewLocals(body, false, names)
       case _ => true
  }

  predicate BranchFewLocals(b: Branch, names: seq<string>)
    decreases b
  {
    b.Else? ==> AllFewLocals(b.body, false, names)
  }

  predicate AllFewLocals(body: seq<Stmt>, top: bool, names: seq<string>)
    decreases body
  {
    body != [] ==> FewLocals(body[0], top, names) && AllFewLocals(body[1..], top, NamesAfter(body[0], top, names))
  }

  /** The names the compiler keeps are the names in scope. */
  lemma {:induction false} NamesMove(body: seq<Stmt>, top: bool, names: seq<string>, constants: seq<Value>)
    ensures GenStmts(body, top, names, constants).names == NamesAfterAll(body, top, names)
    decreases body
  {
    if body != [] {
      var c := GenStmt(body[0], top, names, constants);
      NamesMove(body[1..], top, c.names, c.constants);
    }
  }

  // ---------------------------------------------------------------------------------------------
  // Courses and jumps
  // ---------------------------------------------------------------------------------------------

  lemma JumpComes(ck: Chunk, natives: Natives, ip: nat, distance: nat, st: Store)
    requires distance <= MAX_JUMP && CodeAt(ck, ip, [OpByte(OpJump)] + JumpBytes(distance))
    ensures Reaches(ck, natives, At(ip, st), Running(At(ip + 3 + distance, st)))
  {
    JumpAt(ck, natives, At(ip, st), OpJump, distance);
  }

  lemma BackComes(ck: Chunk, natives: Natives, ip: nat, distance: nat, st: Store)
    requires 1 <= distance <= MAX_BACK && distance <= ip + 3
    requires CodeAt(ck, ip, [OpByte(OpJump)] + BackBytes(distance))
    ensures Reaches(ck, natives, At(ip, st), Running(At(ip + 3 - distance, st)))
  {
    var code := [OpByte(OpJump)] + BackBytes(distance);
    assert ck.code[ip + 0] == code[0] && ck.code[ip + 1] == code[1] && ck.code[ip + 2] == code[2];
    OpcodeRoundTrip(OpJump);
    BackRoundTrip(distance);
    StepsJump(ck, natives, At(ip, st), OpJump);
    StepReaches(ck, natives, At(ip, st), Running(At(ip + 3 - distance, st)));
  }

  /** The end of a course leads on to `target`. */
  lemma ComesTo(ck: Chunk, natives: Natives, ip: nat, st: Store, r: Course<Store>, end: nat, target: nat, n: nat)
    requires Comes(ck, natives, ip, st, r, end, n)
    requires r.Went? ==> Reaches(ck, natives, At(end, r.state), Running(At(target, r.state)))
    ensures Comes(ck, natives, ip, st, r, target, n)
  {
    if r.Went? {
      ComesOn(ck, natives, ip, st, end, r.state, r, target, n);
    }
  }

  /** With a step in between, one more step is sure to pass. */
  lemma ComesLater(ck: Chunk, natives: Natives, ip: nat, st: Store, ip1: nat, st1: Store, r: Course<Store>, end: nat,
                   n: nat)
    requires Reaches(ck, natives, At(ip, st), Running(At(ip1, st1))) && At(ip, st) != At(ip1, st1)
    requires Comes(ck, natives, ip1, st1, r, end, n)
    ensures Comes(ck, natives, ip, st, r, end, n + 1)
  {
    if r.Unfinished? {
      LastsAfter(ck, natives, At(ip, st), At(ip1, st1), n);
    } else {
      ComesOn(ck, natives, ip, st, ip1, st1, r, end, n);
    }
  }

  lemma LastsNow(ck: Chunk, natives: Natives, vm: Vm)
    ensures Lasts(ck, natives, vm, 0)
  {
  }

  /** The pops at the end of a scope remove as many values as the scope has locals. */
  lemma {:induction false} PopsCome(ck: Chunk, natives: Natives, ip: nat, count: nat, st: Store)
    requires count <= |st.stack| && CodeAt(ck, ip, Pops(count))
    ensures Reaches(ck, natives, At(ip, st), Running(At(ip + count, st.(stack := Drop(st.stack, count)))))
    decreases count
  {
    if count == 0 {
      assert Drop(st.stack, 0) == st.stack;
      ReachesHere(ck, natives, At(ip, st));
    } else {
      assert Pops(count) == [OpByte(OpPop)] + Pops(count - 1);
      CodeAtParts(ck, ip, [OpByte(OpPop)], Pops(count - 1));
      PopComes(ck, natives, ip, st);
      PopsCome(ck, natives, ip + 1, count - 1, Pop(st));
      assert Drop(Pop(st).stack, count - 1) == Drop(st.stack, count);
      Chain(ck, natives, At(ip, st), At(ip + 1, Pop(st)),
            Running(At(ip + count, st.(stack := Drop(st.stack, count)))));
    }
  }

  // ---------------------------------------------------------------------------------------------
  // Statements
  // ---------------------------------------------------------------------------------------------

  /**
    The machine does what the statement does by slots. (The bound variable keeps the verifier from unfolding
    the statement wherever this is mentioned.)
  */
  ghost predicate StmtRight(s: Stmt, top: bool, names: seq<string>, ck: Chunk, natives: Natives, ip: nat, st: Store,
                            end: nat, n: nat) {
    forall x | x == st :: Comes(ck, natives, ip, x, SlotStmt(s, top, names, x, natives, n), end, n)
  }

  /** Every statement, with any number of rounds allowed. */
  lemma {:induction false} StmtComes(s: Stmt, top: bool, names: seq<string>, constants: seq<Value>, c: Emitted,
                                     ck: Chunk, natives: Natives, ip: nat, st: Store, n: nat)
    requires StmtFits(s, top, names, constants) && FewLocals(s, top, names)
    requires c == GenStmt(s, top, names, constants) && Loaded(ck, ip, c.code, c.constants)
    ensures StmtRight(s, top, names, ck, natives, ip, st, ip + |c.code|, n)
    decreases n, s, 5
  {
    match s
    case Let(_, _) => LetComes(s, top, names, constants, c, ck, natives, ip, st, n);
    case Block(_) => BlockComes(s, top, names, constants, c, ck, natives, ip, st, n);
    case If(_, _, _) => IfComes(s, top, names, constants, ck, natives, ip, st, n);
    case While(_, _) => LoopComes(s, top, names, constants, c, ck, natives, ip, st, n);
    case Eval(_) => EvalStmtComes(s, top, names, constants, c, ck, natives, ip, st, n);
  }

  lemma LetComes(s: Stmt, top: bool, names: seq<string>, constants: seq<Value>, c: Emitted, ck: Chunk, natives: Natives,
                 ip: nat, st: Store, n: nat)
    requires s.Let? && StmtFits(s, top, names, constants) && FewLocals(s, top, names)
    requires c == GenStmt(s, top, names, constants) && Loaded(ck, ip, c.code, c.constants)
    ensures StmtRight(s, top, names, ck, natives, ip, st, ip + |c.code|, n)
  {
    if top {
      DefineComes(s.name, s.e, names, constants, ck, natives, ip, st, n);
    } else {
      ExprComes(s.e, names + [s.name], constants, ck, natives, ip, st, n);
    }
  }

  lemma {:induction false} BlockComes(s: Stmt, top: bool, names: seq<string>, constants: seq<Value>, c: Emitted,
                                      ck: Chunk,
                                      natives: Natives, ip: nat, st: Store, n: nat)
    requires s.Block? && StmtFits(s, top, names, constants) && FewLocals(s, top, names)
    requires c == GenStmt(s, top, names, constants) && Loaded(ck, ip, c.code, c.constants)
    ensures StmtRight(s, top, names, ck, natives, ip, st, ip + |c.code|, n)
    decreases n, s, 4
  {
    ScopeComes(s.body, names, constants, ck, natives, ip, st, n);
  }

  lemma EvalStmtComes(s: Stmt, top: bool, names: seq<string>, constants: seq<Value>, c: Emitted, ck: Chunk,
                      natives: Natives, ip: nat, st: Store, n: nat)
    requires s.Eval? && StmtFits(s, top, names, constants) && FewLocals(s, top, names)
    requires c == GenStmt(s, top, names, constants) && Loaded(ck, ip, c.code, c.constants)
    ensures StmtRight(s, top, names, ck, natives, ip, st, ip + |c.code|, n)
  {
    EvalComes(s.e, names, constants, ck, natives, ip, st, n);
  }

  lemma EvalComes(e: Expr, names: seq<string>, constants: seq<Value>, ck: Chunk, natives: Natives, ip: nat, st: Store,
                  n: nat)
    requires ExprFits(e, names, constants) && |names| <= 256
    requires var c := Gen(e, names, constants); Loaded(ck, ip, c.code + [OpByte(OpPop)], c.constants)
    ensures Comes(ck, natives, ip, st, SlotStmt(Eval(e), false, names, st, natives, n),
                  ip + |Gen(e, names, constants).code| + 1, n)
  {
    var c := Gen(e, names, constants);
    LoadedParts(ck, ip, c.code, [OpByte(OpPop)], c.constants, c.constants);
    ExprComes(e, names, constants, ck, natives, ip, st, n);
    match SlotExpr(e, names, st, natives)
    case Went(s1) =>
      PopComes(ck, natives, ip + |c.code|, s1);
      Chain(ck, natives, At(ip, st), At(ip + |c.code|, s1), Running(At(ip + |c.code| + 1, Pop(s1))));
    case _ =>
  }

  lemma DefineComes(name: string, e: Expr, names: seq<string>, constants: seq<Value>, ck: Chunk, natives: Natives,
                    ip: nat, st: Store, n: nat)
    requires ExprFits(e, names, constants) && |names| <= 256
    requires var c := GenStmt(Let(name, e), true, names, constants); Loaded(ck, ip, c.code, c.constants)
    ensures Comes(ck, natives, ip, st, SlotStmt(Let(name, e), true, names, st, natives, n),
                  ip + |GenStmt(Let(name, e), true, names, constants).code|, n)
  {
    var c := Gen(e, names, constants);
    var d := PushConstant(OpConstant, Str(name), c.constants);
    Associate(c.code, d.code, [OpByte(OpDefineGlobal)]);
    LoadedParts(ck, ip, c.code, d.code + [OpByte(OpDefineGlobal)], c.constants, d.constants);
    ExprComes(e, names, constants, ck, natives, ip, st, n);
    match SlotExpr(e, names, st, natives)
    case Went(s1) =>
      Defines(name, c.constants, ck, natives, ip + |c.code|, s1);
      Chain(ck, natives, At(ip, st), At(ip + |c.code|, s1), Running(At(ip + |c.code| + 3, Defined(name, s1))));
    case _ =>
  }

  function Defined(name: string, st: Store): Store
    requires st.stack != []
  {
    Pop(st).(globals := st.globals[name := Top(st.stack)])
  }

  lemma Defines(name: string, constants: seq<Value>, ck: Chunk, natives: Natives, ip: nat, st: Store)
    requires st.stack != []
    requires var d := PushConstant(OpConstant, Str(name), constants);
             Loaded(ck, ip, d.code + [OpByte(OpDefineGlobal)], d.constants)
    ensures Reaches(ck, natives, At(ip, st), Running(At(ip + 3, Defined(name, st))))
  {
    var d := PushConstant(OpConstant, Str(name), constants);
    var s1 := Push(st, Str(name));
    LoadedParts(ck, ip, d.code, [OpByte(OpDefineGlobal)], d.constants, d.constants);
    ConstantComes(Str(name), constants, ck, natives, ip, st);
    PlainAt(ck, natives, At(ip + 2, s1), OpDefineGlobal);
    assert Drop(s1.stack, 2) == Pop(st).stack && s1.stack[|s1.stack| - 2] == Top(st.stack);
    Chain(ck, natives, At(ip, st), At(ip + 2, s1), Running(At(ip + 3, Defined(name, st))));
  }

  lemma {:induction false} ScopeComes(body: seq<Stmt>, names: seq<string>, constants: seq<Value>, ck: Chunk,
                                      natives: Natives, ip: nat, st: Store, n: nat)
    requires StmtsFit(body, false, names, constants) && AllFewLocals(body, false, names)
    requires var c := GenScope(body, names, constants); Loaded(ck, ip, c.code, c.constants)
    ensures Comes(ck, natives, ip, st, SlotScope(body, names, st, natives, n), ip + |GenScope(body, names, constants).code|, n)
    decreases n, body, 3
  {
    var c := GenStmts(body, false, names, constants);
    var count := |c.names| - |names|;
    NamesMove(body, false, names, constants);
    LoadedParts(ck, ip, c.code, Pops(count), c.constants, c.constants);
    StmtsCome(body, false, names, constants, c, ck, natives, ip, st, n);
    match SlotStmts(body, false, names, st, natives, n)
    case Went(s1) =>
      PopsCome(ck, natives, ip + |c.code|, count, s1);
      Chain(ck, natives, At(ip, st), At(ip + |c.code|, s1),
            Running(At(ip + |c.code| + count, s1.(stack := Drop(s1.stack, count)))));
    case _ =>
  }

  lemma {:induction false} StmtsCome(body: seq<Stmt>, top: bool, names: seq<string>, constants: seq<Value>,
                                     code: Emitted,
                                     ck: Chunk, natives: Natives, ip: nat, st: Store, n: nat)
    requires StmtsFit(body, top, names, constants) && AllFewLocals(body, top, names)
    requires code == GenStmts(body, top, names, constants) && Loaded(ck, ip, code.code, code.constants)
    ensures Comes(ck, natives, ip, st, SlotStmts(body, top, names, st, natives, n), ip + |code.code|, n)
    decreases n, body, 2
  {
    if body == [] {
      ReachesHere(ck, natives, At(ip, st));
    } else {
      var c := GenStmt(body[0], top, names, constants);
      var d := GenStmts(body[1..], top, c.names, c.constants);
      assert c.names == NamesAfter(body[0], top, names);
      LoadedParts(ck, ip, c.code, d.code, c.constants, d.constants);
      StmtComes(body[0], top, names, constants, c, ck, natives, ip, st, n);
      RestComes(body, top, c, d, ck, natives, ip, names, st, n);
    }
  }

  /** The first statement is done; now the others. */
  lemma {:induction false} RestComes(body: seq<Stmt>, top: bool, c: Emitted, d: Emitted, ck: Chunk, natives: Natives,
                                     ip: nat,
                                     names: seq<string>, st: Store, n: nat)
    requires body != [] && c.names == NamesAfter(body[0], top, names)
    requires StmtRight(body[0], top, names, ck, natives, ip, st, ip + |c.code|, n)
    requires StmtsFit(body[1..], top, c.names, c.constants) && AllFewLocals(body[1..], top, c.names)
    requires d == GenStmts(body[1..], top, c.names, c.constants) && Loaded(ck, ip + |c.code|, d.code, d.constants)
    ensures Comes(ck, natives, ip, st, SlotStmts(body, top, names, st, natives, n), ip + |c.code| + |d.code|, n)
    decreases n, body, 1
  {
    var r := SlotStmt(body[0], top, names, st, natives, n);
    assert Comes(ck, natives, ip, st, r, ip + |c.code|, n);
    match r
    case Went(s1) =>
      StmtsCome(body[1..], top, c.names, c.constants, d, ck, natives, ip + |c.code|, s1, n);
      ComesOn(ck, natives, ip, st, ip + |c.code|, s1, SlotStmts(body[1..], top, c.names, s1, natives, n),
              ip + |c.code| + |d.code|, n);
    case _ =>
  }

  // ---------------------------------------------------------------------------------------------
  // Conditionals
  // ---------------------------------------------------------------------------------------------

  lemma Regroup(a: seq<Byte>, b: seq<Byte>, c: seq<Byte>, t: seq<Byte>, d: seq<Byte>, e: seq<Byte>, f: seq<Byte>)
    ensures a + b + c + t + d + e + c + f == (a + b) + (c + (t + ((d + e) + (c + f))))
  {
  }

  lemma FiveParts(ck: Chunk, at: nat, j: seq<Byte>, pop: seq<Byte>, t: seq<Byte>, k: seq<Byte>, f: seq<Byte>)
    requires CodeAt(ck, at, j + (pop + (t + (k + (pop + f)))))
    ensures CodeAt(ck, at, j) && CodeAt(ck, at + |j|, pop) && CodeAt(ck, at + |j| + |pop|, t)
    ensures CodeAt(ck, at + |j| + |pop| + |t|, k) && CodeAt(ck, at + |j| + |pop| + |t| + |k|, pop)
    ensures CodeAt(ck, at + |j| + |pop| + |t| + |k| + |pop|, f)
  {
    CodeAtParts(ck, at, j, pop + (t + (k + (pop + f))));
    CodeAtParts(ck, at + |j|, pop, t + (k + (pop + f)));
    CodeAtParts(ck, at + |j| + |pop|, t, k + (pop + f));
    CodeAtParts(ck, at + |j| + |pop| + |t|, k, pop + f);
    CodeAtParts(ck, at + |j| + |pop| + |t| + |k|, pop, f);
  }

  /** Where the pieces of an `if` sit. */
  lemma IfLayout(ck: Chunk, at: nat, t: seq<Byte>, f: seq<Byte>)
    requires |t| + 4 <= MAX_JUMP && |f| + 1 <= MAX_JUMP && CodeAt(ck, at, ThenElse(t, f))
    ensures CodeAt(ck, at, [OpByte(OpJumpIfFalse)] + JumpBytes(|t| + 4))
    ensures CodeAt(ck, at + 3, [OpByte(OpPop)]) && CodeAt(ck, at + 4, t)
    ensures CodeAt(ck, at + 4 + |t|, [OpByte(OpJump)] + JumpBytes(|f| + 1))
    ensures CodeAt(ck, at + 7 + |t|, [OpByte(OpPop)]) && CodeAt(ck, at + 8 + |t|, f)
  {
    IfPieces(ck, at, [OpByte(OpJumpIfFalse)], JumpBytes(|t| + 4), [OpByte(OpPop)], t,
             [OpByte(OpJump)], JumpBytes(|f| + 1), f);
  }

  lemma IfPieces(ck: Chunk, at: nat, a: seq<Byte>, b: seq<Byte>, pop: seq<Byte>, t: seq<Byte>, d: seq<Byte>,
                 e: seq<Byte>, f: seq<Byte>)
    requires |a| == 1 && |b| == 2 && |pop| == 1 && |d| == 1 && |e| == 2
    requires CodeAt(ck, at, a + b + pop + t + d + e + pop + f)
    ensures CodeAt(ck, at, a + b) && CodeAt(ck, at + 3, pop) && CodeAt(ck, at + 4, t)
    ensures CodeAt(ck, at + 4 + |t|, d + e) && CodeAt(ck, at + 7 + |t|, pop) && CodeAt(ck, at + 8 + |t|, f)
  {
    Regroup(a, b, pop, t, d, e, f);
    FiveParts(ck, at, a + b, pop, t, d + e, f);
  }

  /** Where an `if` leads once the value of its condition is on top. */
  function Chosen(s: Stmt, names: seq<string>, st: Store, natives: Natives, n: nat): Course<Store>
    requires s.If? && st.stack != []
  {
    if !Top(st.stack).Bool? then Failed(WrongTypeForOperation)
    else if Top(st.stack).b then SlotScope(s.thn, names, Pop(st), natives, n)
    else SlotBranch(s.els, names, Pop(st), natives, n)
  }

  lemma {:induction false} IfComes(s: Stmt, top: bool, names: seq<string>, constants: seq<Value>, ck: Chunk,
                                   natives: Natives, ip: nat, st: Store, n: nat)
    requires s.If? && StmtFits(s, top, names, constants) && FewLocals(s, top, names)
    requires var c := GenStmt(s, top, names, constants); Loaded(ck, ip, c.code, c.constants)
    ensures StmtRight(s, top, names, ck, natives, ip, st, ip + |GenStmt(s, top, names, constants).code|, n)
    decreases n, s, 3
  {
    var c := Gen(s.cond, names, constants);
    var t := GenScope(s.thn, names, c.constants);
    var f := GenBranch(s.els, names, t.constants);
    PrefixTransitive(c.constants, t.constants, f.constants);
    LoadedParts(ck, ip, c.code, ThenElse(t.code, f.code), c.constants, f.constants);
    ExprComes(s.cond, names, constants, ck, natives, ip, st, n);
    match SlotExpr(s.cond, names, st, natives)
    case Went(s1) =>
      BranchesCome(s, names, c.constants, t, f, ck, natives, ip + |c.code|, s1, n);
      ComesOn(ck, natives, ip, st, ip + |c.code|, s1, Chosen(s, names, s1, natives, n),
              ip + |c.code| + 8 + |t.code| + |f.code|, n);
    case _ =>
  }

  /** The code of an `if` after its condition, and everything the compiler requires of it. */
  ghost predicate IfReady(s: Stmt, names: seq<string>, constants: seq<Value>, t: Chunk, f: Chunk, ck: Chunk, ip: nat) {
    && s.If? && AllFewLocals(s.thn, false, names) && BranchFewLocals(s.els, names)
    && t == GenScope(s.thn, names, constants) && f == GenBranch(s.els, names, t.constants)
    && StmtsFit(s.thn, false, names, constants) && BranchFits(s.els, names, t.constants)
    && |t.code| + 4 <= MAX_JUMP && |f.code| + 1 <= MAX_JUMP && Loaded(ck, ip, ThenElse(t.code, f.code), f.constants)
  }

  /** (The bound variable keeps the verifier from unfolding this wherever it is mentioned.) */
  ghost predicate IfStands(s: Stmt, names: seq<string>, constants: seq<Value>, t: Chunk, f: Chunk, ck: Chunk, ip: nat) {
    forall k | k == ck :: IfReady(s, names, constants, t, f, k, ip)
  }

  lemma {:induction false} BranchesCome(s: Stmt, names: seq<string>, constants: seq<Value>, t: Chunk, f: Chunk,
                                        ck: Chunk, natives: Natives, ip: nat, st: Store, n: nat)
    requires s.If? && IfStands(s, names, constants, t, f, ck, ip) && st.stack != []
    ensures Comes(ck, natives, ip, st, Chosen(s, names, st, natives, n), ip + 8 + |t.code| + |f.code|, n)
    decreases n, s, 2
  {
    IfTest(s, names, constants, t, f, ck, natives, ip, st);
    if Top(st.stack).Bool? {
      var ip1 := ip + if Top(st.stack).b then 4 else 8 + |t.code|;
      if Top(st.stack).b {
        TakesThen(s, names, constants, t, f, ck, natives, ip, Pop(st), n);
      } else {
        TakesElse(s, names, constants, t, f, ck, natives, ip, Pop(st), n);
      }
      ComesOn(ck, natives, ip, st, ip1, Pop(st), Chosen(s, names, st, natives, n), ip + 8 + |t.code| + |f.code|, n);
    }
  }

  lemma IfTest(s: Stmt, names: seq<string>, constants: seq<Value>, t: Chunk, f: Chunk, ck: Chunk, natives: Natives,
               ip: nat, st: Store)
    requires IfStands(s, names, constants, t, f, ck, ip) && st.stack != []
    ensures Reaches(ck, natives, At(ip, st),
                    if !Top(st.stack).Bool? then Faulted(WrongTypeForOperation)
                    else Running(At(ip + (if Top(st.stack).b then 4 else 8 + |t.code|), Pop(st))))
  {
    assert IfReady(s, names, constants, t, f, ck, ip);
    ConditionComes(ck, natives, ip, t.code, f.code, st);
  }

  /** The jump of an `if`: into the branch the condition selects, with the condition popped. */
  lemma ConditionComes(ck: Chunk, natives: Natives, ip: nat, t: seq<Byte>, f: seq<Byte>, st: Store)
    requires |t| + 4 <= MAX_JUMP && |f| + 1 <= MAX_JUMP && CodeAt(ck, ip, ThenElse(t, f)) && st.stack != []
    ensures Reaches(ck, natives, At(ip, st),
                    if !Top(st.stack).Bool? then Faulted(WrongTypeForOperation)
                    else Running(At(ip + (if Top(st.stack).b then 4 else 8 + |t|), Pop(st))))
  {
    IfLayout(ck, ip, t, f);
    TestThenPop(ck, natives, ip, |t| + 4, st);
  }

  lemma TestThenPop(ck: Chunk, natives: Natives, ip: nat, distance: nat, st: Store)
    requires distance <= MAX_JUMP && CodeAt(ck, ip, [OpByte(OpJumpIfFalse)] + JumpBytes(distance)) && st.stack != []
    requires CodeAt(ck, ip + 3, [OpByte(OpPop)]) && CodeAt(ck, ip + 3 + distance, [OpByte(OpPop)])
    ensures Reaches(ck, natives, At(ip, st),
                    if !Top(st.stack).Bool? then Faulted(WrongTypeForOperation)
                    else Running(At(ip + 4 + (if Top(st.stack).b then 0 else distance), Pop(st))))
  {
    TestComes(ck, natives, ip, OpJumpIfFalse, distance, st);
    if Top(st.stack).Bool? {
      var ip1 := ip + 3 + if Top(st.stack).b then 0 else distance;
      PopComes(ck, natives, ip1, st);
      Chain(ck, natives, At(ip, st), At(ip1, st), Running(At(ip1 + 1, Pop(st))));
    }
  }

  /** The then-branch, and the jump over the else-branch. */
  lemma {:induction false} TakesThen(s: Stmt, names: seq<string>, constants: seq<Value>, t: Chunk, f: Chunk,
                                     ck: Chunk, natives: Natives, ip: nat, st: Store, n: nat)
    requires s.If? && IfStands(s, names, constants, t, f, ck, ip)
    ensures Comes(ck, natives, ip + 4, st, SlotScope(s.thn, names, st, natives, n), ip + 8 + |t.code| + |f.code|, n)
    decreases n, s, 1
  {
    assert IfReady(s, names, constants, t, f, ck, ip);
    IfLayout(ck, ip, t.code, f.code);
    PrefixTransitive(t.constants, f.constants, ck.constants);
    ScopeComes(s.thn, names, constants, ck, natives, ip + 4, st, n);
    var r := SlotScope(s.thn, names, st, natives, n);
    if r.Went? {
      JumpComes(ck, natives, ip + 4 + |t.code|, |f.code| + 1, r.state);
    }
    ComesTo(ck, natives, ip + 4, st, r, ip + 4 + |t.code|, ip + 8 + |t.code| + |f.code|, n);
  }

  lemma {:induction false} TakesElse(s: Stmt, names: seq<string>, constants: seq<Value>, t: Chunk, f: Chunk,
                                     ck: Chunk, natives: Natives, ip: nat, st: Store, n: nat)
    requires s.If? && IfStands(s, names, constants, t, f, ck, ip)
    ensures Comes(ck, natives, ip + 8 + |t.code|, st, SlotBranch(s.els, names, st, natives, n),
                  ip + 8 + |t.code| + |f.code|, n)
    decreases n, s, 1
  {
    assert IfReady(s, names, constants, t, f, ck, ip);
    IfLayout(ck, ip, t.code, f.code);
    match s.els
    case NoElse => ReachesHere(ck, natives, At(ip + 8 + |t.code|, st));
    case Else(body) => ScopeComes(body, names, t.constants, ck, natives, ip + 8 + |t.code|, st, n);
  }

  // ---------------------------------------------------------------------------------------------
  // Loops
  // ---------------------------------------------------------------------------------------------

  /** Where a loop leads once the value of its condition is on top. */
  function RoundOn(s: Stmt, top: bool, names: seq<string>, st: Store, natives: Natives, n: nat): Course<Store>
    requires s.While? && st.stack != []
  {
    if !Top(st.stack).Bool? then Failed(WrongTypeForOperation)
    else if !Top(st.stack).b then Went(st.(left := st.left + 1))
    else Again(s, top, names, SlotScope(s.body, names, Pop(st), natives, n), natives, n)
  }

  function Again(s: Stmt, top: bool, names: seq<string>, r: Course<Store>, natives: Natives, n: nat): Course<Store> {
    match r
    case Went(s2) => SlotStmt(s, top, names, s2, natives, n)
    case other => other
  }

  /** Where the jumps of a loop sit: after a condition of `back` bytes, and around a body of `length` bytes. */
  ghost predicate JumpsOf(ck: Chunk, ip: nat, back: nat, length: nat) {
    && LoopFits(back, length)
    && CodeAt(ck, ip, [OpByte(OpJumpIfFalse)] + JumpBytes(length + 4)) && CodeAt(ck, ip + 3, [OpByte(OpPop)])
    && CodeAt(ck, ip + 4 + length, [OpByte(OpJump)] + BackBytes(back + length + 7))
  }

  /** (Here and below, the bound variable keeps the verifier from unfolding the predicate wherever it is mentioned.) */
  ghost predicate JumpsStand(ck: Chunk, ip: nat, back: nat, length: nat) {
    forall k | k == ck :: JumpsOf(k, ip, back, length)
  }

  ghost predicate ScopeReady(body: seq<Stmt>, names: seq<string>, constants: seq<Value>, ck: Chunk, ip: nat,
                             length: nat) {
    && StmtsFit(body, false, names, constants) && AllFewLocals(body, false, names)
    && var c := GenScope(body, names, constants); Loaded(ck, ip, c.code, c.constants) && |c.code| == length
  }

  ghost predicate ScopeStands(body: seq<Stmt>, names: seq<string>, constants: seq<Value>, ck: Chunk, ip: nat,
                              length: nat) {
    forall k | k == ck :: ScopeReady(body, names, constants, k, ip, length)
  }

  /** The code of a loop sits at `ip`, and it is one the compiler's limits allow. */
  ghost predicate LoopReady(s: Stmt, top: bool, names: seq<string>, constants: seq<Value>, ck: Chunk, ip: nat,
                            back: nat, length: nat) {
    && s.While? && StmtFits(s, top, names, constants) && FewLocals(s, top, names)
    && (var g := GenStmt(s, top, names, constants); Loaded(ck, ip, g.code, g.constants))
    && var c := Gen(s.cond, names, constants);
       back == |c.code| && length == |GenScope(s.body, names, c.constants).code|
  }

  ghost predicate LoopStands(s: Stmt, top: bool, names: seq<string>, constants: seq<Value>, ck: Chunk, ip: nat,
                             back: nat, length: nat) {
    forall k | k == ck :: LoopReady(s, top, names, constants, k, ip, back, length)
  }

  lemma LoopParts(s: Stmt, top: bool, names: seq<string>, constants: seq<Value>, ck: Chunk, ip: nat, back: nat,
                  length: nat)
    requires s.While? && LoopStands(s, top, names, constants, ck, ip, back, length)
    ensures JumpsStand(ck, ip + back, back, length)
    ensures ScopeStands(s.body, names, Gen(s.cond, names, constants).constants, ck, ip + back + 4, length)
  {
    assert LoopReady(s, top, names, constants, ck, ip, back, length);
    var c := Gen(s.cond, names, constants);
    var t := GenScope(s.body, names, c.constants);
    LoadedParts(ck, ip, c.code, LoopTail(back, t.code), c.constants, t.constants);
    FourParts(ck, ip + back, [OpByte(OpJumpIfFalse)] + JumpBytes(length + 4), [OpByte(OpPop)], t.code,
              [OpByte(OpJump)] + BackBytes(back + length + 7));
  }

  lemma FourParts(ck: Chunk, at: nat, a: seq<Byte>, b: seq<Byte>, c: seq<Byte>, d: seq<Byte>)
    requires CodeAt(ck, at, a + (b + (c + d)))
    ensures CodeAt(ck, at, a) && CodeAt(ck, at + |a|, b)
    ensures CodeAt(ck, at + |a| + |b|, c) && CodeAt(ck, at + |a| + |b| + |c|, d)
  {
    CodeAtParts(ck, at, a, b + (c + d));
    CodeAtParts(ck, at + |a|, b, c + d);
    CodeAtParts(ck, at + |a| + |b|, c, d);
  }

  lemma CondComes(s: Stmt, top: bool, names: seq<string>, constants: seq<Value>, ck: Chunk, natives: Natives, ip: nat,
                  back: nat, length: nat, st: Store, n: nat)
    requires s.While? && LoopStands(s, top, names, constants, ck, ip, back, length)
    ensures Comes(ck, natives, ip, st, SlotExpr(s.cond, names, st, natives), ip + back, n)
  {
    assert LoopReady(s, top, names, constants, ck, ip, back, length);
    var c := Gen(s.cond, names, constants);
    var t := GenScope(s.body, names, c.constants);
    LoadedParts(ck, ip, c.code, LoopTail(back, t.code), c.constants, t.constants);
    ExprComes(s.cond, names, constants, ck, natives, ip, st, n);
  }

  /** The exit jump: past the loop with the condition, or into the body without it. */
  lemma ExitComes(ck: Chunk, natives: Natives, ip: nat, back: nat, length: nat, st: Store)
    requires JumpsStand(ck, ip, back, length) && st.stack != []
    ensures Reaches(ck, natives, At(ip, st),
                    if !Top(st.stack).Bool? then Faulted(WrongTypeForOperation)
                    else if Top(st.stack).b then Running(At(ip + 4, Pop(st)))
                    else Running(At(ip + length + 7, st)))
  {
    assert JumpsOf(ck, ip, back, length);
    TestComes(ck, natives, ip, OpJumpIfFalse, length + 4, st);
    if Top(st.stack) == Bool(true) {
      PopComes(ck, natives, ip + 3, st);
      Chain(ck, natives, At(ip, st), At(ip + 3, st), Running(At(ip + 4, Pop(st))));
    }
  }

  lemma ReturnComes(ck: Chunk, natives: Natives, ip: nat, back: nat, length: nat, st: Store)
    requires JumpsStand(ck, ip, back, length) && back <= ip
    ensures Reaches(ck, natives, At(ip + 4 + length, st), Running(At(ip - back, st)))
  {
    assert JumpsOf(ck, ip, back, length);
    BackComes(ck, natives, ip + 4 + length, back + length + 7, st);
  }

  lemma {:induction false} LoopComes(s: Stmt, top: bool, names: seq<string>, constants: seq<Value>, g: Emitted,
                                     ck: Chunk, natives: Natives, ip: nat, st: Store, n: nat)
    requires s.While? && StmtFits(s, top, names, constants) && FewLocals(s, top, names)
    requires g == GenStmt(s, top, names, constants) && Loaded(ck, ip, g.code, g.constants)
    ensures StmtRight(s, top, names, ck, natives, ip, st, ip + |g.code|, n)
    decreases n, s, 4
  {
    var c := Gen(s.cond, names, constants);
    var t := GenScope(s.body, names, c.constants);
    assert |LoopTail(|c.code|, t.code)| == |t.code| + 7;
    assert LoopReady(s, top, names, constants, ck, ip, |c.code|, |t.code|);
    WhileComes(s, top, names, constants, ck, natives, ip, |c.code|, |t.code|, st, n);
  }

  /** Every loop, around whatever body: round by round the machine keeps in step with it. */
  lemma {:induction false} WhileComes(s: Stmt, top: bool, names: seq<string>, constants: seq<Value>, ck: Chunk,
                                      natives: Natives, ip: nat, back: nat, length: nat, st: Store, n: nat)
    requires s.While? && LoopStands(s, top, names, constants, ck, ip, back, length)
    ensures StmtRight(s, top, names, ck, natives, ip, st, ip + back + length + 7, n)
    decreases n, s, 2
  {
    if n == 0 {
      LastsNow(ck, natives, At(ip, st));
    } else {
      CondComes(s, top, names, constants, ck, natives, ip, back, length, st, n);
      RoundComes(s, top, names, constants, ck, natives, ip, back, length, st, SlotExpr(s.cond, names, st, natives), n);
    }
  }

  /** The condition has come to `r`; now the rest of the round and the rounds after it. */
  lemma {:induction false} RoundComes(s: Stmt, top: bool, names: seq<string>, constants: seq<Value>, ck: Chunk,
                                      natives: Natives, ip: nat, back: nat, length: nat, st: Store, r: Course<Store>, n: nat)
    requires n > 0 && s.While? && LoopStands(s, top, names, constants, ck, ip, back, length)
    requires r == SlotExpr(s.cond, names, st, natives) && Comes(ck, natives, ip, st, r, ip + back, n)
    ensures StmtRight(s, top, names, ck, natives, ip, st, ip + back + length + 7, n)
    decreases n, s, 1
  {
    match r
    case Went(s1) =>
      TailComes(s, top, names, constants, ck, natives, ip, back, length, s1, n - 1);
      ComesLater(ck, natives, ip, st, ip + back, s1, RoundOn(s, top, names, s1, natives, n - 1),
                 ip + back + length + 7, n - 1);
    case _ =>
  }

  lemma {:induction false} TailComes(s: Stmt, top: bool, names: seq<string>, constants: seq<Value>, ck: Chunk,
                                     natives: Natives, ip: nat, back: nat, length: nat, st: Store, n: nat)
    requires s.While? && st.stack != [] && LoopStands(s, top, names, constants, ck, ip, back, length)
    ensures Comes(ck, natives, ip + back, st, RoundOn(s, top, names, st, natives, n), ip + back + length + 7, n)
    decreases n, s, 5
  {
    LoopParts(s, top, names, constants, ck, ip, back, length);
    ExitComes(ck, natives, ip + back, back, length, st);
    if Top(st.stack) == Bool(true) {
      EntersBody(s, top, names, constants, ck, natives, ip, back, length, st, Pop(st), n);
    }
  }

  lemma {:induction false} EntersBody(s: Stmt, top: bool, names: seq<string>, constants: seq<Value>, ck: Chunk,
                                      natives: Natives, ip: nat, back: nat, length: nat, st: Store, s1: Store, n: nat)
    requires s.While? && LoopStands(s, top, names, constants, ck, ip, back, length)
    requires JumpsStand(ck, ip + back, back, length)
    requires ScopeStands(s.body, names, Gen(s.cond, names, constants).constants, ck, ip + back + 4, length)
    requires Reaches(ck, natives, At(ip + back, st), Running(At(ip + back + 4, s1)))
    ensures Comes(ck, natives, ip + back, st, Again(s, top, names, SlotScope(s.body, names, s1, natives, n), natives, n),
                  ip + back + length + 7, n)
    decreases n, s, 4
  {
    var r := SlotScope(s.body, names, s1, natives, n);
    BodyComes(s.body, names, Gen(s.cond, names, constants).constants, ck, natives, ip + back + 4, length, s1, n);
    NextRounds(s, top, names, constants, ck, natives, ip, back, length, s1, r, n);
    ComesOn(ck, natives, ip + back, st, ip + back + 4, s1, Again(s, top, names, r, natives, n),
            ip + back + length + 7, n);
  }

  lemma {:induction false} BodyComes(body: seq<Stmt>, names: seq<string>, constants: seq<Value>, ck: Chunk,
                                     natives: Natives, ip: nat, length: nat, st: Store, n: nat)
    requires ScopeStands(body, names, constants, ck, ip, length)
    ensures Comes(ck, natives, ip, st, SlotScope(body, names, st, natives, n), ip + length, n)
    decreases n, body, 4
  {
    assert ScopeReady(body, names, constants, ck, ip, length);
    ScopeComes(body, names, constants, ck, natives, ip, st, n);
  }

  /** The body has come to `r`; now the jump back and the rounds after it. */
  lemma {:induction false} NextRounds(s: Stmt, top: bool, names: seq<string>, constants: seq<Value>, ck: Chunk,
                                      natives: Natives, ip: nat, back: nat, length: nat, st: Store, r: Course<Store>, n: nat)
    requires s.While? && LoopStands(s, top, names, constants, ck, ip, back, length)
    requires JumpsStand(ck, ip + back, back, length)
    requires Comes(ck, natives, ip + back + 4, st, r, ip + back + 4 + length, n)
    ensures Comes(ck, natives, ip + back + 4, st, Again(s, top, names, r, natives, n), ip + back + length + 7, n)
    decreases n, s, 3
  {
    if r.Went? {
      ReturnComes(ck, natives, ip + back, back, length, r.state);
      WhileComes(s, top, names, constants, ck, natives, ip, back, length, r.state, n);
    }
    AgainComes(s, top, names, ck, natives, ip + back + 4, st, r, ip + back + 4 + length, ip, ip + back + length + 7, n);
  }

  lemma AgainComes(s: Stmt, top: bool, names: seq<string>, ck: Chunk, natives: Natives, ip: nat, st: Store,
                   r: Course<Store>, bottom: nat, start: nat, end: nat, n: nat)
    requires Comes(ck, natives, ip, st, r, bottom, n)
    requires r.Went? ==> Reaches(ck, natives, At(bottom, r.state), Running(At(start, r.state)))
    requires r.Went? ==> StmtRight(s, top, names, ck, natives, start, r.state, end, n)
    ensures Comes(ck, natives, ip, st, Again(s, top, names, r, natives, n), end, n)
  {
    if r.Went? {
      var next := SlotStmt(s, top, names, r.state, natives, n);
      assert Comes(ck, natives, start, r.state, next, end, n);
      ComesOn(ck, natives, bottom, r.state, start, r.state, next, end, n);
      ComesOn(ck, natives, ip, st, bottom, r.state, next, end, n);
    }
  }

  // ---------------------------------------------------------------------------------------------
  // Programs
  // ---------------------------------------------------------------------------------------------

  /** A program within the compiler's limits: short enough jumps, at most 256 constants and locals. */
  predicate Compilable(body: seq<Stmt>) {
    StmtsFit(body, true, [], []) && AllFewLocals(body, true, []) && |GenProgram(body).constants| <= 256
  }

  function SlotProgram(body: seq<Stmt>, globals: Globals, natives: Natives, n: nat): Course<Store> {
    SlotStmts(body, true, [], Store([], globals, 0), natives, n)
  }

  /** The machine, started on the program, comes to what `r` says. */
  ghost predicate Performs(body: seq<Stmt>, globals: Globals, natives: Natives, r: Course<Store>, n: nat) {
    var ck, vm := GenProgram(body), Vm(0, [], globals);
    match r
    case Went(st) => RunsTo(ck, natives, vm, Halted(At(|ck.code|, st)))
    case Failed(fault) => RunsTo(ck, natives, vm, Faulted(fault))
    case Unfinished => Run(ck, natives, vm, n).Running?
  }

  /**
    Every program: started with an empty stack, the machine halts with exactly the stack and the globals
    the program leaves by slots, or stops with exactly its fault. Where `n` rounds are not enough for the
    loops, the machine is still running after `n` steps. And at the end there is one value on the stack
    for each value that was left behind.
  */
  lemma ProgramRuns(body: seq<Stmt>, globals: Globals, natives: Natives, n: nat)
    requires Compilable(body)
    ensures Performs(body, globals, natives, SlotProgram(body, globals, natives, n), n)
    ensures var r := SlotProgram(body, globals, natives, n); r.Went? ==> |r.state.stack| == r.state.left
  {
    var ck := GenProgram(body);
    var c := GenStmts(body, true, [], []);
    var st := Store([], globals, 0);
    LoadedParts(ck, 0, c.code, [OpByte(OpReturn)], c.constants, c.constants);
    StmtsCome(body, true, [], [], c, ck, natives, 0, st, n);
    TopLevelKeepsNoLocals(body, []);
    match SlotProgram(body, globals, natives, n)
    case Went(s1) =>
      PlainAt(ck, natives, At(|c.code|, s1), OpReturn);
      Chain(ck, natives, At(0, st), At(|c.code|, s1), Halted(At(|c.code| + 1, s1)));
      assert RunsTo(ck, natives, At(0, st), Halted(At(|c.code| + 1, s1)));
    case Failed(fault) => assert RunsTo(ck, natives, At(0, st), Faulted(fault));
    case Unfinished => assert Run(ck, natives, At(0, st), n).Running?;
  }

  /** The machine stops, by halting or by a fault. */
  ghost predicate MachineStops(body: seq<Stmt>, globals: Globals, natives: Natives) {
    exists k: nat :: !Run(GenProgram(body), natives, Vm(0, [], globals), k).Running?
  }

  /** Some number of rounds is enough for the loops. */
  ghost predicate RoundsSuffice(body: seq<Stmt>, globals: Globals, natives: Natives) {
    exists n: nat :: !SlotProgram(body, globals, natives, n).Unfinished?
  }

  lemma StopsIffRoundsSuffice(body: seq<Stmt>, globals: Globals, natives: Natives)
    requires Compilable(body)
    ensures MachineStops(body, globals, natives) <==> RoundsSuffice(body, globals, natives)
  {
    if MachineStops(body, globals, natives) {
      var k: nat :| !Run(GenProgram(body), natives, Vm(0, [], globals), k).Running?;
      ProgramRuns(body, globals, natives, k);
      assert !SlotProgram(body, globals, natives, k).Unfinished?;
    }
    if RoundsSuffice(body, globals, natives) {
      var n: nat :| !SlotProgram(body, globals, natives, n).Unfinished?;
      ProgramRuns(body, globals, natives, n);
    }
  }

  /** At the top level nothing is a local. */
  lemma {:induction false} TopLevelKeepsNoLocals(body: seq<Stmt>, names: seq<string>)
    ensures NamesAfterAll(body, true, names) == names
    decreases body
  {
    if body != [] {
      TopLevelKeepsNoLocals(body[1..], names);
    }
  }
}
