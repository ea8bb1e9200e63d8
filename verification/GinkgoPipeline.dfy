/** From tokens to final globals: parser, chunk and machine together. */
module GinkgoPipeline {
  import opened Options
  import opened GinkgoValues
  import opened GinkgoCompile
  import opened GinkgoMachine
  import GinkgoSlots
  import GinkgoExprs
  import GinkgoStmts
  import GinkgoMeaning
  import GinkgoParse
  import GinkgoParser
  import GinkgoPrintStmts
  import GinkgoJumps
  import GinkgoVm

  /**
    A printed program parses to a chunk that runs as the program does by slots, and in that run the machine
    is always at the start of an instruction.
  */
  lemma PrintedProgramRuns(body: seq<Stmt>, globals: Globals, natives: Natives, n: nat)
    requires GinkgoStmts.Compilable(body)
    ensures GinkgoParse.ParseProgram(GinkgoPrintStmts.PrintProgram(body)) == Some(GenProgram(body))
    ensures GinkgoStmts.Performs(body, globals, natives, GinkgoStmts.SlotProgram(body, globals, natives, n), n)
    ensures forall k: nat :: OnStart(GenProgram(body), Run(GenProgram(body), natives, Vm(0, [], globals), k))
  {
    GinkgoPrintStmts.ProgramParses(body);
    GinkgoStmts.ProgramRuns(body, globals, natives, n);
    GinkgoJumps.ProgramSound(body);
    forall k: nat
      ensures OnStart(GenProgram(body), Run(GenProgram(body), natives, Vm(0, [], globals), k))
    {
      GinkgoJumps.RunStaysOnStarts(GenProgram(body), natives, Vm(0, [], globals), k);
    }
  }

  predicate OnStart(ck: Chunk, status: Status) {
    status.Running? ==> GinkgoJumps.Starts(ck.code, status.vm.ip)
  }

  /**
    Parse the tokens and interpret the chunk. On the tokens of a program that ends within `n` rounds of its
    loops, this leaves the stack and the globals of the program by slots, or stops with its fault; and if
    the program means what it says, these are the globals and the fault of its own meaning.
  */
  method RunTokens(vm: GinkgoVm.Interpreter, tokens: seq<GinkgoParse.Token>, natives: Natives, ghost body: seq<Stmt>,
                   ghost n: nat)
    returns (r: Outcome<Value>)
    requires tokens == GinkgoPrintStmts.PrintProgram(body) && GinkgoStmts.Compilable(body) && vm.stack == []
    requires !GinkgoStmts.SlotProgram(body, vm.globals, natives, n).Unfinished?
    modifies vm
    ensures var course := GinkgoStmts.SlotProgram(body, old(vm.globals), natives, n);
            && (course.Went? ==> r == Ok(Unit) && vm.stack == course.state.stack && vm.globals == course.state.globals)
            && (course.Failed? ==> r == Fail(course.fault))
    ensures GinkgoMeaning.Lexical(body) ==>
              var meaning := GinkgoMeaning.Meaning(body, old(vm.globals), natives, n);
              && (meaning.Went? ==> r == Ok(Unit) && vm.globals == meaning.state.globals)
              && (meaning.Went? && !GinkgoMeaning.HasLoops(body) ==> vm.stack == [])
              && (meaning.Failed? ==> r == Fail(meaning.fault))
  {
    var parser := new GinkgoParser.Parser(tokens);
    var ck := parser.Parse();
    GinkgoPrintStmts.ProgramParses(body);
    ghost var course := GinkgoStmts.SlotProgram(body, vm.globals, natives, n);
    GinkgoStmts.ProgramRuns(body, vm.globals, natives, n);
    if GinkgoMeaning.Lexical(body) {
      GinkgoMeaning.ProgramMeans(body, vm.globals, natives, n);
    }
    ghost var end := End(course, |ck.value.code|);
    ghost var k: nat :| Run(ck.value, natives, Vm(0, vm.stack, vm.globals), k) == end;
    r := vm.Interpret(ck.value, natives, k, end);
  }

  ghost function End(course: Course<GinkgoSlots.Store>, ip: nat): Status
    requires !course.Unfinished?
  {
    match course
    case Went(st) => Halted(GinkgoExprs.At(ip, st))
    case Failed(fault) => Faulted(fault)
  }
}
