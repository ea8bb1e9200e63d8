/**
  Where instructions start, and where jumps land: in generated code every jump leads to the start of an
  instruction, so the machine never executes an operand as an opcode.
*/
module GinkgoJumps {
  import opened Options
  import opened GinkgoValues
  import opened GinkgoCompile
  import opened GinkgoMachine

  function Length(op: Opcode): nat {
    1 + OperandBytes(op)
  }

  /** Reading instruction after instruction from `i` comes to exactly `j`. */
  predicate Sweep(code: seq<Byte>, i: nat, j: nat)
    decreases j - i
  {
    i <= j <= |code|
    && (i == j || (OpcodeOf(code[i]).Some? && Sweep(code, i + Length(OpcodeOf(code[i]).value), j)))
  }

  /** Instructions start at the offsets a reader comes to from the beginning. */
  predicate Starts(code: seq<Byte>, i: nat) {
    Sweep(code, 0, i)
  }

  predicate JumpAt(code: seq<Byte>, i: nat) {
    i < |code| && OpcodeOf(code[i]).Some? && OperandBytes(OpcodeOf(code[i]).value) == 2
  }

  function Target(code: seq<Byte>, i: nat): int
    requires i + 3 <= |code|
  {
    i + 3 + JumpDistance(code[i + 1], code[i + 2])
  }

  /** The jump at `i` is complete and leads to the start of an instruction, or to the end. */
  predicate Lands(code: seq<Byte>, i: nat) {
    i + 3 <= |code| && 0 <= Target(code, i) && Starts(code, Target(code, i))
  }

  /** A whole number of instructions, with every jump leading to the start of one. */
  ghost predicate Sound(code: seq<Byte>) {
    Starts(code, |code|) && forall i: nat | Starts(code, i) && JumpAt(code, i) :: Lands(code, i)
  }

  // ---------------------------------------------------------------------------------------------
  // Sweeping
  // ---------------------------------------------------------------------------------------------

  /** A piece of code reads the same wherever it stands. */
  lemma {:induction false} SweepShift(before: seq<Byte>, piece: seq<Byte>, after: seq<Byte>, i: nat, j: nat)
    requires j <= |piece|
    ensures Sweep(piece, i, j) <==> Sweep(before + piece + after, |before| + i, |before| + j)
    decreases j - i
  {
    var all := before + piece + after;
    if i < j {
      assert all[|before| + i] == piece[i];
      if OpcodeOf(piece[i]).Some? {
        var n := Length(OpcodeOf(piece[i]).value);
        SweepShift(before, piece, after, i + n, j);
        assert |before| + i + n == |before| + (i + n);
      }
    }
  }

  lemma {:induction false} SweepJoins(code: seq<Byte>, i: nat, j: nat, k: nat)
    requires Sweep(code, i, j) && Sweep(code, j, k)
    ensures Sweep(code, i, k)
    decreases j - i
  {
    if i < j {
      SweepJoins(code, i + Length(OpcodeOf(code[i]).value), j, k);
    }
  }

  /** Two sweeps from the same place are one sweep. */
  lemma {:induction false} SweepSplits(code: seq<Byte>, i: nat, j: nat, k: nat)
    requires Sweep(code, i, j) && Sweep(code, i, k) && j <= k
    ensures Sweep(code, j, k)
    decreases j - i
  {
    if i < j {
      SweepSplits(code, i + Length(OpcodeOf(code[i]).value), j, k);
    }
  }

  // ---------------------------------------------------------------------------------------------
  // Putting sound code together
  // ---------------------------------------------------------------------------------------------

  /** Where a piece begins with an instruction, its instructions start at the same places as on its own. */
  lemma StartsShift(a: seq<Byte>, b: seq<Byte>, d: seq<Byte>, i: nat)
    requires Starts(a + b + d, |a|) && i <= |b|
    ensures Starts(b, i) <==> Starts(a + b + d, |a| + i)
  {
    SweepShift(a, b, d, 0, i);
    if Starts(b, i) {
      SweepJoins(a + b + d, 0, |a|, |a| + i);
    } else if Starts(a + b + d, |a| + i) {
      SweepSplits(a + b + d, 0, |a|, |a| + i);
    }
  }

  /** A jump inside a sound piece still lands when the piece has code on both sides. */
  lemma LandsInMiddle(a: seq<Byte>, b: seq<Byte>, d: seq<Byte>, i: nat)
    requires Starts(a + b + d, |a|) && Sound(b) && i < |b|
    requires Starts(a + b + d, |a| + i) && JumpAt(a + b + d, |a| + i)
    ensures Lands(a + b + d, |a| + i)
  {
    StartsShift(a, b, d, i);
    assert JumpAt(b, i);
    assert Lands(b, i);
    StartsShift(a, b, d, Target(b, i));
    assert Target(a + b + d, |a| + i) == |a| + Target(b, i);
  }

  /** A jump inside a sound piece still lands after the piece is put at the end of other code. */
  lemma LandsInTail(a: seq<Byte>, b: seq<Byte>, i: nat)
    requires Starts(a + b, |a|) && Sound(b) && |a| <= i && Starts(a + b, i) && JumpAt(a + b, i)
    ensures Lands(a + b, i)
  {
    assert a + b == a + b + [];
    LandsInMiddle(a, b, [], i - |a|);
  }

  lemma LandsInHead(a: seq<Byte>, b: seq<Byte>, i: nat)
    requires Sound(a) && i < |a| && Starts(a + b, i) && JumpAt(a + b, i)
    ensures Lands(a + b, i)
  {
    assert a + b == [] + a + b;
    SweepShift([], a, b, 0, i);
    assert Starts(a, i) && JumpAt(a, i);
    assert Lands(a, i);
    SweepShift([], a, b, 0, Target(a, i));
  }

  lemma SoundConcat(a: seq<Byte>, b: seq<Byte>)
    requires Sound(a) && Sound(b)
    ensures Sound(a + b)
  {
    var code := a + b;
    assert code == [] + a + b && code == a + b + [];
    SweepShift([], a, b, 0, |a|);
    SweepShift(a, b, [], 0, |b|);
    SweepJoins(code, 0, |a|, |code|);
    forall i: nat | Starts(code, i) && JumpAt(code, i)
      ensures Lands(code, i)
    {
      if i < |a| {
        LandsInHead(a, b, i);
      } else {
        LandsInTail(a, b, i);
      }
    }
  }

  /** A jump in front of sound code, over whole instructions of it. */
  lemma SoundJump(op: Opcode, distance: nat, rest: seq<Byte>)
    requires OperandBytes(op) == 2 && distance <= MAX_JUMP && Sound(rest) && Starts(rest, distance)
    ensures Sound([OpByte(op)] + JumpBytes(distance) + rest)
  {
    var head := [OpByte(op)] + JumpBytes(distance);
    var code := head + rest;
    assert code == head + rest + [];
    OpcodeRoundTrip(op);
    JumpRoundTrip(distance);
    assert Starts(code, 3);
    SweepShift(head, rest, [], 0, |rest|);
    SweepShift(head, rest, [], 0, distance);
    SweepJoins(code, 0, 3, |code|);
    SweepJoins(code, 0, 3, 3 + distance);
    forall i: nat | Starts(code, i) && JumpAt(code, i)
      ensures Lands(code, i)
    {
      if i == 0 {
        assert Target(code, 0) == 3 + distance;
      } else {
        assert Sweep(code, 3, i);
        LandsInTail(head, rest, i);
      }
    }
  }

  lemma SoundPlain(op: Opcode)
    requires OperandBytes(op) == 0
    ensures Sound([OpByte(op)])
  {
    OpcodeRoundTrip(op);
  }

  lemma SoundOperand(op: Opcode, b: Byte)
    requires OperandBytes(op) == 1
    ensures Sound([OpByte(op), b])
  {
    OpcodeRoundTrip(op);
    var code := [OpByte(op), b];
    forall i: nat
      ensures Starts(code, i) ==> !JumpAt(code, i)
    {
      assert i != 0 && Starts(code, i) ==> Sweep(code, 2, i);
    }
  }

  lemma {:induction false} SoundPops(n: nat)
    ensures Sound(Pops(n))
  {
    if n > 0 {
      SoundPops(n - 1);
      SoundPlain(OpPop);
      SoundConcat([OpByte(OpPop)], Pops(n - 1));
      assert Pops(n) == [OpByte(OpPop)] + Pops(n - 1);
    }
  }

  lemma SoundSkip(op: Opcode, body: seq<Byte>)
    requires OperandBytes(op) == 2 && Sound(body)
    ensures Sound(SkipOrNothing(op, body))
  {
    if |body| + 1 <= MAX_JUMP {
      SoundPlain(OpPop);
      SoundConcat([OpByte(OpPop)], body);
      SoundJump(op, |body| + 1, [OpByte(OpPop)] + body);
      Associate([OpByte(op)] + JumpBytes(|body| + 1), [OpByte(OpPop)], body);
    }
  }

  /** The first jump leads behind the second, the second behind the second branch. */
  lemma SoundThenElse(t: seq<Byte>, f: seq<Byte>)
    requires Sound(t) && Sound(f)
    ensures Sound(ThenElse(t, f))
  {
    if |t| + 4 <= MAX_JUMP && |f| + 1 <= MAX_JUMP {
      var thn := [OpByte(OpPop)] + t;
      var els := Skip(OpJump, f);
      SoundPlain(OpPop);
      SoundConcat([OpByte(OpPop)], t);
      SoundSkip(OpJump, f);
      SoundConcat(thn, els);
      ReachesElse(thn, els);
      SoundJump(OpJumpIfFalse, |t| + 4, thn + els);
      ThenElseParts([OpByte(OpJumpIfFalse)] + JumpBytes(|t| + 4), [OpByte(OpPop)], t,
                    [OpByte(OpJump)], JumpBytes(|f| + 1), [OpByte(OpPop)], f);
    }
  }

  lemma ThenElseParts(a: seq<Byte>, b: seq<Byte>, t: seq<Byte>, c: seq<Byte>, d: seq<Byte>, e: seq<Byte>, f: seq<Byte>)
    ensures a + b + t + c + d + e + f == a + (b + t + (c + d + e + f))
  {
  }

  lemma ReachesElse(thn: seq<Byte>, els: seq<Byte>)
    requires Sound(thn) && |els| >= 3 && els[0] == OpByte(OpJump)
    ensures Starts(thn + els, |thn| + 3)
  {
    var code := thn + els;
    assert code == [] + thn + els;
    SweepShift([], thn, els, 0, |thn|);
    assert code[|thn|] == OpByte(OpJump);
    assert Sweep(code, |thn| + 3, |thn| + 3);
    SweepJoins(code, 0, |thn|, |thn| + 3);
  }

  // ---------------------------------------------------------------------------------------------
  // Where the jumps of a loop land
  // ---------------------------------------------------------------------------------------------

  /** Reading `b` after `a` comes to its end. */
  lemma SweepsOver(a: seq<Byte>, b: seq<Byte>, d: seq<Byte>)
    requires Starts(a + b + d, |a|) && Starts(b, |b|)
    ensures Starts(a + b + d, |a| + |b|)
  {
    StartsShift(a, b, d, |b|);
  }

  lemma NothingBetween(a: seq<Byte>, b: seq<Byte>, d: seq<Byte>, i: nat)
    requires Starts(a + b + d, |a|) && b != [] && OpcodeOf(b[0]).Some? && Length(OpcodeOf(b[0]).value) == |b|
    requires Starts(a + b + d, i) && |a| <= i < |a| + |b|
    ensures i == |a|
  {
    SweepSplits(a + b + d, 0, |a|, i);
    assert (a + b + d)[|a|] == b[0];
  }

  lemma JumpReads(head: seq<Byte>, op: Opcode, low: Byte, high: Byte)
    requires OperandBytes(op) == 2 && head == [OpByte(op), low, high]
    ensures Starts(head, 3) && OpcodeOf(head[0]) == Some(op) && Length(op) == 3
  {
    OpcodeRoundTrip(op);
    assert Sweep(head, 3, 3);
  }

  ghost predicate LoopPieces(c: seq<Byte>, j: seq<Byte>, pop: seq<Byte>, t: seq<Byte>, k: seq<Byte>, code: seq<Byte>) {
    && LoopFits(|c|, |t|) && j == [OpByte(OpJumpIfFalse)] + JumpBytes(|t| + 4) && pop == [OpByte(OpPop)]
    && k == [OpByte(OpJump)] + BackBytes(|c| + |t| + 7) && code == c + (j + (pop + (t + k)))
  }

  /** (The bound variable keeps the verifier from unfolding the pieces wherever this is mentioned.) */
  ghost predicate LoopCode(c: seq<Byte>, j: seq<Byte>, pop: seq<Byte>, t: seq<Byte>, k: seq<Byte>, code: seq<Byte>) {
    forall x | x == code :: LoopPieces(c, j, pop, t, k, x)
  }

  /** In a loop's code every jump, also the one back, leads to the start of an instruction or to the end. */
  lemma LoopFitsSound(c: seq<Byte>, j: seq<Byte>, pop: seq<Byte>, t: seq<Byte>, k: seq<Byte>, code: seq<Byte>)
    requires LoopCode(c, j, pop, t, k, code) && Sound(c) && Sound(t)
    ensures Sound(code)
  {
    LoopReads(c, j, pop, t, k, code);
    forall i: nat | Starts(code, i) && JumpAt(code, i)
      ensures Lands(code, i)
    {
      if i < |c| {
        HeadLands(c, j, pop, t, k, code, i);
      } else {
        RestLands(c, j, pop, t, k, code, i);
      }
    }
  }

  lemma RestLands(c: seq<Byte>, j: seq<Byte>, pop: seq<Byte>, t: seq<Byte>, k: seq<Byte>, code: seq<Byte>, i: nat)
    requires LoopCode(c, j, pop, t, k, code) && Sound(t)
    requires Starts(code, |c|) && Starts(code, |c| + 3) && Starts(code, |c| + 4)
    requires Starts(code, |c| + 4 + |t|) && Starts(code, |code|)
    requires |c| <= i && Starts(code, i) && JumpAt(code, i)
    ensures Lands(code, i)
  {
    assert LoopPieces(c, j, pop, t, k, code);
    TailLands(c, j, pop, t, k, code, i);
  }

  lemma LoopReads(c: seq<Byte>, j: seq<Byte>, pop: seq<Byte>, t: seq<Byte>, k: seq<Byte>, code: seq<Byte>)
    requires LoopCode(c, j, pop, t, k, code) && Sound(c) && Sound(t)
    ensures Starts(code, |c|) && Starts(code, |c| + 3) && Starts(code, |c| + 4)
    ensures Starts(code, |c| + 4 + |t|) && Starts(code, |code|)
  {
    assert LoopPieces(c, j, pop, t, k, code);
    JumpReads(j, OpJumpIfFalse, j[1], j[2]);
    JumpReads(k, OpJump, k[1], k[2]);
    SoundPlain(OpPop);
    LoopStarts(c, j, pop, t, k, code);
  }

  lemma HeadLands(c: seq<Byte>, j: seq<Byte>, pop: seq<Byte>, t: seq<Byte>, k: seq<Byte>, code: seq<Byte>, i: nat)
    requires LoopCode(c, j, pop, t, k, code) && Sound(c) && i < |c| && Starts(code, i) && JumpAt(code, i)
    ensures Lands(code, i)
  {
    assert LoopPieces(c, j, pop, t, k, code);
    LandsInHead(c, j + (pop + (t + k)), i);
  }

  lemma LoopSound(c: seq<Byte>, t: seq<Byte>)
    requires Sound(c) && Sound(t)
    ensures Sound(c + LoopTail(|c|, t))
  {
    if LoopFits(|c|, |t|) {
      LoopFitsSound(c, [OpByte(OpJumpIfFalse)] + JumpBytes(|t| + 4), [OpByte(OpPop)], t,
                    [OpByte(OpJump)] + BackBytes(|c| + |t| + 7), c + LoopTail(|c|, t));
    } else {
      assert c + [] == c;
    }
  }

  /** The exit jump leads to the end of the code, the jump back to its start. */
  lemma TailLands(c: seq<Byte>, j: seq<Byte>, pop: seq<Byte>, t: seq<Byte>, k: seq<Byte>, code: seq<Byte>, i: nat)
    requires LoopPieces(c, j, pop, t, k, code) && Sound(t)
    requires Starts(code, |c|) && Starts(code, |c| + 3) && Starts(code, |c| + 4)
    requires Starts(code, |c| + 4 + |t|) && Starts(code, |code|)
    requires |c| <= i && Starts(code, i) && JumpAt(code, i)
    ensures Lands(code, i)
  {
    Cuts(c, j, pop, t, k);
    if i < |c| + 3 {
      JumpReads(j, OpJumpIfFalse, j[1], j[2]);
      NothingBetween(c, j, pop + (t + k), i);
      JumpRoundTrip(|t| + 4);
      assert Target(code, i) == |code|;
    } else if i < |c| + 4 {
      OpcodeRoundTrip(OpPop);
      NothingBetween(c + j, pop, t + k, i);
    } else if i < |c| + 4 + |t| {
      LandsInMiddle(c + j + pop, t, k, i - |c| - 4);
    } else {
      JumpReads(k, OpJump, k[1], k[2]);
      NothingBetween(c + j + pop + t, k, [], i);
      BackRoundTrip(|c| + |t| + 7);
      assert Target(code, i) == 0;
    }
  }

  lemma Cuts(c: seq<Byte>, j: seq<Byte>, pop: seq<Byte>, t: seq<Byte>, k: seq<Byte>)
    ensures c + (j + (pop + (t + k))) == [] + c + (j + (pop + (t + k)))
    ensures c + (j + (pop + (t + k))) == c + j + (pop + (t + k))
    ensures c + (j + (pop + (t + k))) == c + j + pop + (t + k)
    ensures c + (j + (pop + (t + k))) == c + j + pop + t + k
    ensures c + (j + (pop + (t + k))) == c + j + pop + t + k + []
  {
  }

  lemma LoopStarts(c: seq<Byte>, j: seq<Byte>, pop: seq<Byte>, t: seq<Byte>, k: seq<Byte>, code: seq<Byte>)
    requires code == c + (j + (pop + (t + k)))
    requires Starts(c, |c|) && Starts(j, |j|) && Starts(pop, |pop|) && Starts(t, |t|) && Starts(k, |k|)
    ensures Starts(code, |c|) && Starts(code, |c| + |j|) && Starts(code, |c| + |j| + |pop|)
    ensures Starts(code, |c| + |j| + |pop| + |t|) && Starts(code, |code|)
  {
    Cuts(c, j, pop, t, k);
    SweepsOver([], c, j + (pop + (t + k)));
    SweepsOver(c, j, pop + (t + k));
    SweepsOver(c + j, pop, t + k);
    SweepsOver(c + j + pop, t, k);
    SweepsOver(c + j + pop + t, k, []);
  }

  // ---------------------------------------------------------------------------------------------
  // Generated code
  // ---------------------------------------------------------------------------------------------

  lemma {:induction false} ExprSound(e: Expr, names: seq<string>, constants: seq<Value>)
    ensures Sound(Gen(e, names, constants).code)
    decreases e
  {
    match e
    case IntLit(n) => SoundOperand(OpConstant, Operand(|constants|));
    case StrLit(s) => SoundOperand(OpConstant, Operand(|constants|));
    case BoolLit(b) => SoundPlain(if b then OpTrue else OpFalse);
    case Var(name) => VarSound(name, names, constants);
    case Neg(e1) =>
      ExprSound(e1, names, constants);
      SoundPlain(OpNegate);
      SoundConcat(Gen(e1, names, constants).code, [OpByte(OpNegate)]);
    case Bin(op, l, r) =>
      var c := Gen(l, names, constants);
      ExprSound(l, names, constants);
      ExprSound(r, names, c.constants);
      SoundPlain(OpBinary(op));
      SoundTriple(c.code, Gen(r, names, c.constants).code, [OpByte(OpBinary(op))]);
    case And(l, r) =>
      var c := Gen(l, names, constants);
      ExprSound(l, names, constants);
      ExprSound(r, names, c.constants);
      SoundShortCircuit(c.code, OpJumpIfFalse, Gen(r, names, c.constants).code);
    case Or(l, r) =>
      var c := Gen(l, names, constants);
      ExprSound(l, names, constants);
      ExprSound(r, names, c.constants);
      SoundShortCircuit(c.code, OpJumpIfTrue, Gen(r, names, c.constants).code);
    case Paren(e1) => ExprSound(e1, names, constants);
    case Assign(name, e1) => AssignSound(name, e1, names, constants);
    case Call(f, args, _) =>
      var c := Gen(f, names, constants);
      ExprSound(f, names, constants);
      ArgsSound(args, names, c.constants);
      SoundOperand(OpCall, Operand(|args|));
      SoundTriple(c.code, GenArgs(args, names, c.constants).code, [OpByte(OpCall), Operand(|args|)]);
  }

  lemma SoundTriple(a: seq<Byte>, b: seq<Byte>, c: seq<Byte>)
    requires Sound(a) && Sound(b) && Sound(c)
    ensures Sound(a + b + c)
  {
    SoundConcat(a, b);
    SoundConcat(a + b, c);
  }

  lemma SoundShortCircuit(left: seq<Byte>, op: Opcode, body: seq<Byte>)
    requires OperandBytes(op) == 2 && Sound(left) && Sound(body)
    ensures Sound(left + SkipOrNothing(op, body))
  {
    SoundSkip(op, body);
    SoundConcat(left, SkipOrNothing(op, body));
  }

  lemma VarSound(name: string, names: seq<string>, constants: seq<Value>)
    ensures Sound(Gen(Var(name), names, constants).code)
  {
    SoundOperand(OpGetGlobal, Operand(|constants|));
    match Resolve(names, name)
    case Some(i) => SoundOperand(OpGetLocal, Operand(i));
    case None =>
  }

  lemma {:induction false} AssignSound(name: string, e: Expr, names: seq<string>, constants: seq<Value>)
    ensures Sound(Gen(Assign(name, e), names, constants).code)
    decreases Assign(name, e), 0
  {
    var t := AssignTarget(name, names, constants);
    ExprSound(e, names, t.constants);
    SoundOperand(OpSetGlobal, Operand(|constants|));
    match Resolve(names, name) {
      case Some(i) => SoundOperand(OpSetLocal, Operand(i));
      case None =>
    }
    SoundConcat(Gen(e, names, t.constants).code, t.code);
  }

  lemma {:induction false} ArgsSound(args: seq<Expr>, names: seq<string>, constants: seq<Value>)
    ensures Sound(GenArgs(args, names, constants).code)
    decreases args
  {
    if args != [] {
      var c := Gen(args[0], names, constants);
      ExprSound(args[0], names, constants);
      ArgsSound(args[1..], names, c.constants);
      SoundConcat(c.code, GenArgs(args[1..], names, c.constants).code);
    }
  }

  lemma {:induction false} StmtSound(s: Stmt, top: bool, names: seq<string>, constants: seq<Value>)
    ensures Sound(GenStmt(s, top, names, constants).code)
    decreases s
  {
    match s
    case Let(name, e) => LetSound(name, e, top, names, constants);
    case Block(body) => ScopeSound(body, names, constants);
    case If(cond, thn, els) =>
      var c := Gen(cond, names, constants);
      var t := GenScope(thn, names, c.constants);
      var f := GenBranch(els, names, t.constants);
      ExprSound(cond, names, constants);
      ScopeSound(thn, names, c.constants);
      BranchSound(els, names, t.constants);
      SoundThenElse(t.code, f.code);
      SoundConcat(c.code, ThenElse(t.code, f.code));
    case While(cond, body) =>
      var c := Gen(cond, names, constants);
      ExprSound(cond, names, constants);
      ScopeSound(body, names, c.constants);
      LoopSound(c.code, GenScope(body, names, c.constants).code);
    case Eval(e) =>
      ExprSound(e, names, constants);
      SoundPlain(OpPop);
      SoundConcat(Gen(e, names, constants).code, [OpByte(OpPop)]);
  }

  lemma LetSound(name: string, e: Expr, top: bool, names: seq<string>, constants: seq<Value>)
    ensures Sound(GenStmt(Let(name, e), top, names, constants).code)
  {
    if top {
      var c := Gen(e, names, constants);
      var d := PushConstant(OpConstant, Str(name), c.constants);
      ExprSound(e, names, constants);
      SoundOperand(OpConstant, Operand(|c.constants|));
      SoundConcat(c.code, d.code);
      SoundPlain(OpDefineGlobal);
      SoundConcat(c.code + d.code, [OpByte(OpDefineGlobal)]);
    } else {
      ExprSound(e, names + [name], constants);
    }
  }

  lemma {:induction false} BranchSound(b: Branch, names: seq<string>, constants: seq<Value>)
    ensures Sound(GenBranch(b, names, constants).code)
    decreases b
  {
    if b.Else? {
      ScopeSound(b.body, names, constants);
    }
  }

  lemma {:induction false} ScopeSound(body: seq<Stmt>, names: seq<string>, constants: seq<Value>)
    ensures Sound(GenScope(body, names, constants).code)
    decreases body, 1
  {
    var c := GenStmts(body, false, names, constants);
    StmtsSound(body, false, names, constants);
    SoundPops(|c.names| - |names|);
    SoundConcat(c.code, Pops(|c.names| - |names|));
  }

  lemma {:induction false} StmtsSound(body: seq<Stmt>, top: bool, names: seq<string>, constants: seq<Value>)
    ensures Sound(GenStmts(body, top, names, constants).code)
    decreases body, 0
  {
    if body != [] {
      var c := GenStmt(body[0], top, names, constants);
      StmtSound(body[0], top, names, constants);
      StmtsSound(body[1..], top, c.names, c.constants);
      SoundConcat(c.code, GenStmts(body[1..], top, c.names, c.constants).code);
    }
  }

  /** Every jump of a compiled program leads to the start of an instruction of the program. */
  lemma ProgramSound(body: seq<Stmt>)
    ensures Sound(GenProgram(body).code)
  {
    var c := GenStmts(body, true, [], []);
    StmtsSound(body, true, [], []);
    SoundPlain(OpReturn);
    SoundConcat(c.code, [OpByte(OpReturn)]);
  }

  // ---------------------------------------------------------------------------------------------
  // The machine on sound code
  // ---------------------------------------------------------------------------------------------

  /** Where the machine goes next: to the following instruction, or where the jump leads. */
  lemma NextIp(ck: Chunk, natives: Natives, vm: Vm, op: Opcode)
    requires vm.ip < |ck.code| && OpcodeOf(ck.code[vm.ip]) == Some(op) && Step(ck, natives, vm).Running?
    ensures vm.ip + Length(op) <= |ck.code|
    ensures var next := Step(ck, natives, vm).vm.ip;
            next == vm.ip + Length(op) || (JumpAt(ck.code, vm.ip) && next == Target(ck.code, vm.ip))
  {
    if vm.ip + OperandBytes(op) >= |ck.code| {
      StepsOff(ck, natives, vm);
    } else if OperandBytes(op) == 0 {
      StepsPlain(ck, natives, vm, op);
    } else if OperandBytes(op) == 1 {
      StepsOperand(ck, natives, vm, op);
    } else {
      StepsJump(ck, natives, vm, op);
    }
  }

  /** One instruction leads from the start of an instruction to the start of an instruction. */
  lemma StepStaysOnStarts(ck: Chunk, natives: Natives, vm: Vm)
    requires Sound(ck.code) && Starts(ck.code, vm.ip)
    ensures var s := Step(ck, natives, vm); s.Running? ==> Starts(ck.code, s.vm.ip)
  {
    if Step(ck, natives, vm).Running? {
      var op := OpcodeOf(ck.code[vm.ip]).value;
      NextIp(ck, natives, vm, op);
      assert Sweep(ck.code, vm.ip, vm.ip + Length(op));
      SweepJoins(ck.code, 0, vm.ip, vm.ip + Length(op));
      if JumpAt(ck.code, vm.ip) {
        assert Lands(ck.code, vm.ip);
      }
    }
  }

  /** However long it runs, the machine is at the start of an instruction, and never reads past the code. */
  lemma {:induction false} RunStaysOnStarts(ck: Chunk, natives: Natives, vm: Vm, n: nat)
    requires Sound(ck.code) && Starts(ck.code, vm.ip)
    ensures var s := Run(ck, natives, vm, n); s.Running? ==> Starts(ck.code, s.vm.ip)
    decreases n
  {
    if n > 0 {
      StepStaysOnStarts(ck, natives, vm);
      var s := Step(ck, natives, vm);
      if s.Running? {
        RunStaysOnStarts(ck, natives, s.vm, n - 1);
      }
    }
  }
}
