/** From a parsed program to a running image: the assembler's output, read back by the loader and
    run by the VM, does what the instruction list means. */
module Pipeline {
  import opened Words
  import opened Opcodes
  import opened Machine
  import opened Layout
  import opened Agreement
  import opened Simulation
  import opened Image
  import opened Control
  import Frames
  import FrameHeap
  import HeapRuns
  import Parsing
  import Passes
  import Loader
  import Vm

  function Place(mem: Memory, base: u32, body: seq<u8>): Memory {
    if |body| == 0 then mem
    else Place(mem, base, body[..|body| - 1])[Wrap(base + (|body| - 1)) := body[|body| - 1]]
  }

  lemma {:induction false} PlacedByte(mem: Memory, base: u32, body: seq<u8>, i: nat)
    requires i < |body| <= 0x1_0000_0000
    ensures Wrap(base + i) in Place(mem, base, body) && Place(mem, base, body)[Wrap(base + i)] == body[i]
  {
    if i < |body| - 1 {
      PlacedByte(mem, base, body[..|body| - 1], i);
      DistinctOffsets(base, i, |body| - 1);
    }
  }

  lemma DistinctOffsets(base: u32, i: nat, j: nat)
    requires i < j < 0x1_0000_0000
    ensures Wrap(base + i) != Wrap(base + j)
  {
  }

  lemma {:induction false} ReadPlaced(mem: Memory, base: u32, body: seq<u8>, from: nat, n: nat)
    requires from + n == |body| <= 0x1_0000_0000
    ensures Read(Place(mem, base, body), Wrap(base + from), n) == Some(body[from..])
    decreases n
  {
    hide Place;
    if n > 0 {
      PlacedByte(mem, base, body, from);
      WrapAdd(base + from, 1);
      ReadPlaced(mem, base, body, from + 1, n - 1);
      assert body[from..] == [body[from]] + body[from + 1..];
    } else {
      assert body[from..] == [];
    }
  }

  /** Copies a module body into memory. */
  method CopyBody(mem: Memory, base: u32, body: seq<u8>) returns (after: Memory)
    ensures after == Place(mem, base, body)
  {
    after := mem;
    var i := 0;
    while i < |body|
      invariant i <= |body| && after == Place(mem, base, body[..i])
    {
      assert body[..i + 1][..i] == body[..i];
      after := after[Wrap(base + i) := body[i]];
      i := i + 1;
    }
    assert body[..i] == body;
  }

  /** What `AssembleLoadRun` needs of a program: it fits the address space and has a start label. */
  ghost predicate Loadable(p: Program, l: Placement, at: nat) {
    && p.Valid() && StartIsLabel(p) && Laid(p, l)
    && StartLocation(p) == Some(at) && at < |l.aligns|
  }

  function Start(at: nat, mem: Memory): State<nat> {
    State(at, [], [], NoLocals, mem)
  }

  /** Assembles, loads at `base` into `mem` and runs `k` steps. With native names that fit the count,
      or a body that fills its declared size, it gets to run exactly when pass 2 reports no error,
      the body does fill its size and every counted name is registered. As long as the listing's
      own run keeps to listed instructions and intact code, the machine ends as that run does. */
  method AssembleLoadRun(p: Program, ghost l: Placement, ghost at: nat, base: u32, thunks: seq<ThunkRecord>,
                         world: nat -> Thunks, mem: Memory, k: nat)
    returns (machine: Vm.Context?, halt: Option<Halt>)
    requires Loadable(p, l, at)
    ensures machine != null <==> Emits(p, l) && Accepts(p, l, thunks)
    ensures FewNatives(p) || !CutInsidePadding(p, l) ==>
      (machine != null <==> Emits(p, l) && !CutInsidePadding(p, l) && AllKnown(thunks, Counted(p.natives)))
    ensures machine != null && !CutInsidePadding(p, l) ==>
      var image := Place(mem, base, Body(p, l));
      var envs := Answering(LoadedModule(p, l, at, base, thunks).natives, world);
      && machine.Valid()
      && (var run := SourceRun(p, l, base, envs, Start(at, image), k);
          (k == 0 ==> l.aligns[at] == 0) && KeepsCode(p, l, base, envs, Start(at, image), k) && run.Ran? ==>
            machine.Agrees(LowerOutcome(p, l, base, run.outcome), halt))
  {
    hide Pass1, Pass2, Load, Extent, Place, Read, SourceRun, Run, KeepsCode, LowerOutcome, ImageBytes;
    hide AllKnown, Procs, Cut;
    machine, halt := null, None;
    var assembler := new Passes.Assembler(p);
    var ok := assembler.Assemble();
    if !ok {
      return;
    }
    assert Emits(p, l);
    var reader := new Loader.Reader(assembler.output, thunks);
    var loaded := reader.LoadModule(base);
    LoadsWhatWasWritten(p, l, at, assembler.output, base, thunks);
    if loaded.None? {
      return;
    }
    LoadedBodyFits(assembler.output, base, thunks);
    var image := CopyBody(mem, base, loaded.value.body);
    BodyLength(p, l);
    ReadPlaced(mem, base, loaded.value.body, 0, |loaded.value.body|);
    assert Wrap(base + 0) == base && loaded.value.body[0..] == loaded.value.body;
    LoadedRun(p, l, at, assembler.output, base, thunks, image, Answering(loaded.value.natives, world), k);
    machine := new Vm.Context(loaded.value.entry, image, loaded.value.natives);
    halt := machine.Execute(world, k);
  }

  lemma LoadedRun(p: Program, l: Placement, at: nat, file: seq<u8>, base: u32, thunks: seq<ThunkRecord>,
                  image: Memory, envs: nat -> Env, k: nat)
    requires Loadable(p, l, at) && Written(p, l, at, file) && Load(file, base, thunks).Some?
    requires Read(image, base, |Load(file, base, thunks).value.body|) == Some(Load(file, base, thunks).value.body)
    ensures
      var s := Start(at, image);
      && !CutInsidePadding(p, l) && (k == 0 ==> l.aligns[at] == 0)
      && KeepsCode(p, l, base, envs, s, k) && SourceRun(p, l, base, envs, s, k).Ran? ==>
        Run(envs, State(Load(file, base, thunks).value.entry, [], [], NoLocals, image), k) ==
        LowerOutcome(p, l, base, SourceRun(p, l, base, envs, s, k).outcome)
  {
    hide Pass1, Pass2, Load, Extent, Read, SourceRun, Run, KeepsCode, LowerOutcome, Generate, CutInsidePadding;
    var s := Start(at, image);
    if !CutInsidePadding(p, l) && (k == 0 ==> l.aligns[at] == 0) && KeepsCode(p, l, base, envs, s, k)
       && SourceRun(p, l, base, envs, s, k).Ran? {
      LoadedProgramSimulates(p, l, at, file, base, thunks, image, envs, k);
    }
  }

  /** The raw state a loaded module starts in; `own` are the program's bytes of `mem`. */
  function RawStart(m: Module, mem: Memory, own: set<u32>): Frames.Raw {
    Frames.Raw(m.entry, [], [], 0, mem, own)
  }

  /** What `LoadedProgramSimulates` asks of an image and `k` steps of its listing from memory `mem`. */
  ghost predicate Runnable(p: Program, l: Placement, at: nat, file: seq<u8>, base: u32, thunks: seq<ThunkRecord>,
                           mem: Memory, envs: nat -> Env, k: nat)
  {
    && Written(p, l, at, file) && !CutInsidePadding(p, l) && Load(file, base, thunks).Some?
    && Read(mem, base, |Load(file, base, thunks).value.body|) == Some(Load(file, base, thunks).value.body)
    && (k == 0 ==> l.aligns[at] == 0)
    && KeepsCode(p, l, base, envs, State(at, [], [], NoLocals, mem), k)
    && SourceRun(p, l, base, envs, State(at, [], [], NoLocals, mem), k).Ran?
  }

  /** `k` steps of the listing from its start label, at loaded addresses. */
  function ListedRun(p: Program, l: Placement, at: nat, base: u32, mem: Memory, envs: nat -> Env, k: nat): Outcome<u32>
    requires p.Valid() && Covers(p, l) && SourceRun(p, l, base, envs, State(at, [], [], NoLocals, mem), k).Ran?
  {
    LowerOutcome(p, l, base, SourceRun(p, l, base, envs, State(at, [], [], NoLocals, mem), k).outcome)
  }

  lemma RunnableRuns(p: Program, l: Placement, at: nat, file: seq<u8>, base: u32, thunks: seq<ThunkRecord>,
                     mem: Memory, envs: nat -> Env, k: nat)
    requires Runnable(p, l, at, file, base, thunks, mem, envs, k)
    ensures p.Valid() && Covers(p, l) && SourceRun(p, l, base, envs, State(at, [], [], NoLocals, mem), k).Ran?
    ensures Load(file, base, thunks).Some?
    ensures Run(envs, InitialState(Load(file, base, thunks).value, mem), k) == ListedRun(p, l, at, base, mem, envs, k)
  {
    hide Pass1, Pass2, Extent, Load, Read, KeepsCode, SourceRun, Run, LowerOutcome, CutInsidePadding, Generate;
    LoadedProgramSimulates(p, l, at, file, base, thunks, mem, envs, k);
  }

  /** An image loaded at any base and run by the VM that keeps frames and locals in blocks does what
      its listing does, whatever the allocator does outside the blocks in use. */
  lemma LoadedProgramInBlocks(p: Program, l: Placement, at: nat, file: seq<u8>, base: u32, thunks: seq<ThunkRecord>,
                              mem: Memory, own: set<u32>, envs: nat -> Env, serve: nat -> Frames.Service, k: nat)
    requires own <= mem.Keys && Runnable(p, l, at, file, base, thunks, Frames.Seen(own, mem), envs, k)
    requires Frames.Defined(ListedRun(p, l, at, base, Frames.Seen(own, mem), envs, k))
    requires Frames.AllServed(envs, serve, InitialState(Load(file, base, thunks).value, Frames.Seen(own, mem)),
                              RawStart(Load(file, base, thunks).value, mem, own), k)
    ensures Frames.SameOutcome(ListedRun(p, l, at, base, Frames.Seen(own, mem), envs, k),
                               Frames.RawRun(envs, serve, RawStart(Load(file, base, thunks).value, mem, own), k))
  {
    hide *;
    RunnableRuns(p, l, at, file, base, thunks, Frames.Seen(own, mem), envs, k);
    var m := Load(file, base, thunks).value;
    BlocksStart(m, mem, own);
    Frames.RunRefines(envs, serve, InitialState(m, Frames.Seen(own, mem)), RawStart(m, mem, own), k);
  }

  lemma BlocksStart(m: Module, mem: Memory, own: set<u32>)
    requires own <= mem.Keys
    ensures Frames.Refines(InitialState(m, Frames.Seen(own, mem)), RawStart(m, mem, own))
  {
    hide Frames.Refines;
    Frames.StartRefines(m.entry, [], mem, own);
  }

  /** The same over the allocator's heap, from any sound state of it: the allocator's own promises
      discharge what is asked of it. */
  lemma LoadedProgramOverHeap(p: Program, l: Placement, at: nat, file: seq<u8>, base: u32, thunks: seq<ThunkRecord>,
                              mem: Memory, own: set<u32>, envs: nat -> Env, turns: nat -> FrameHeap.Turn,
                              serve: nat -> Frames.Service, k: nat)
    requires own <= mem.Keys && Runnable(p, l, at, file, base, thunks, Frames.Seen(own, mem), envs, k)
    requires Frames.Defined(ListedRun(p, l, at, base, Frames.Seen(own, mem), envs, k))
    requires FrameHeap.AllSound(turns(0).states)
    requires FrameHeap.AllTurns(envs, turns, serve, InitialState(Load(file, base, thunks).value, Frames.Seen(own, mem)),
                                RawStart(Load(file, base, thunks).value, mem, own), k)
    ensures Frames.SameOutcome(ListedRun(p, l, at, base, Frames.Seen(own, mem), envs, k),
                               Frames.RawRun(envs, serve, RawStart(Load(file, base, thunks).value, mem, own), k))
  {
    hide *;
    RunnableRuns(p, l, at, file, base, thunks, Frames.Seen(own, mem), envs, k);
    var m := Load(file, base, thunks).value;
    BackedStart(turns(0).states, m, mem, own);
    FrameHeap.HeapRunRefines(envs, turns, serve, InitialState(m, Frames.Seen(own, mem)), RawStart(m, mem, own), k);
  }

  lemma BackedStart(states: seq<HeapRuns.Arrangement>, m: Module, mem: Memory, own: set<u32>)
    requires FrameHeap.AllSound(states) && own <= mem.Keys
    ensures FrameHeap.Backed(states, InitialState(m, Frames.Seen(own, mem)), RawStart(m, mem, own))
  {
    hide FrameHeap.Backed, FrameHeap.AllSound;
    FrameHeap.StartBacked(states, m.entry, [], mem, own);
  }

  /** Native-call linkage from source to thunk: executing the NCALL parsed from `ncall name` runs
      the thunk registered under that very name exactly when the header counts its position, which
      with fewer than 65536 names it always does; otherwise the id, if in the table at all, names
      another call. */
  lemma CallRunsItsOwnName(p: Program, l: Placement, at: nat, file: seq<u8>, base: u32, regs: seq<Registration>,
                           env: Env, actions: seq<Parsing.Action>, j: nat, s: State<nat>)
    requires Parsing.ParsedFrom(p, actions) && j < |actions| && actions[j].CallNative?
    requires Written(p, l, at, file) && Emits(p, l) && at < |l.addrs|
    requires AllApart(regs, Counted(p.natives))
    requires env.natives == LoadedModule(p, l, at, base, Records(regs)).natives
    requires s.pos == |Parsing.ParseAll(actions[..j]).insns|
    ensures s.pos < |p.insns| && p.insns[s.pos].Mach?
    ensures FewNatives(p) ==> p.insns[s.pos].operand < |Counted(p.natives)|
    ensures
      var o := p.insns[s.pos].operand;
      if o < |Counted(p.natives)| then
        SourceStep(p, l, base, env, s) ==
          AfterNative(env.native(Registered(regs, actions[j].name), s.data, s.mem), s.pos + 1, s)
      else o % 0x1_0000 >= |Counted(p.natives)| || Counted(p.natives)[o % 0x1_0000] != actions[j].name
  {
    hide Load, Pass1, Pass2, Extent, HashName, Records, Registered, Generate, SourceStep, Cut, Parsing.Apply;
    hide LoadedModule;
    Parsing.NativeIdsNameTheirCalls(actions, j);
    Parsing.ParsingIsWellformed(actions);
    AtMachineItself(p, l, s.pos);
    CountedNames(p, l, at, base, Records(regs));
    NativeStep(p, l, at, file, base, regs, env, s);
  }

  /** The branch statement `b` refers to the name the label statement `j` defines, and may see it. */
  ghost predicate BranchesByName(p: Program, actions: seq<Parsing.Action>, b: nat, j: nat)
    requires Parsing.ParsedFrom(p, actions)
  {
    && b < |actions| && actions[b].Append? && actions[b].insn.Mach? && Branches(actions[b].insn.op)
    && j < |actions| && actions[j].DefineLabel?
    && actions[b].insn.operand < |p.world.nodes|
    && p.world.nodes[actions[b].insn.operand] == E.SymRef(actions[j].name)
    && (Parsing.IsLocalName(actions[j].name) ==>
          Parsing.ParseAll(actions[..b]).lookup == Parsing.ParseAll(actions[..j]).lookup)
  }

  lemma NameRefersToLabel(p: Program, actions: seq<Parsing.Action>, b: nat, j: nat)
    requires Parsing.ParsedFrom(p, actions) && Parsing.ParseAll(actions).lookup == E.Global
    requires BranchesByName(p, actions, b, j)
    ensures
      var i := |Parsing.ParseAll(actions[..b]).insns|;
      && i < |p.insns| && p.insns[i] == actions[b].insn
      && RefersTo(p, i, |Parsing.ParseAll(actions[..j]).insns|)
  {
    hide Parsing.ParseAll, ScopeAfter, Program.Valid;
    var i := |Parsing.ParseAll(actions[..b]).insns|;
    Parsing.InsnStays(actions, b);
    Parsing.ScopeAtStatement(p, actions, b);
    NextScopeOfMachine(p, i);
    ParserScopeValid(p, i + 1);
    var scope := ScopeAfter(p.insns, i + 1, p.entryScope);
    Parsing.DefinitionResolves(p, actions, j, scope);
  }

  lemma NextScopeOfMachine(p: Program, i: nat)
    requires i < |p.insns| && p.insns[i].Mach?
    ensures ScopeAfter(p.insns, i + 1, p.entryScope) == ScopeAfter(p.insns, i, p.entryScope)
  {
  }

  lemma ParserScopeValid(p: Program, i: nat)
    requires p.Valid() && i <= |p.insns|
    ensures p.world.ScopeValid(ScopeAfter(p.insns, i, p.entryScope))
  {
    ScopesValid(p, |p.insns|, E.Global);
    ScopesValid(p, i, p.entryScope);
  }

  /** From source name to instruction: a branch or call statement that names a label goes on, when
      taken, at the instruction behind that name's own label statement, at every base. */
  lemma BranchReachesItsLabel(p: Program, l: Placement, base: u32, env: Env, actions: seq<Parsing.Action>, b: nat,
                              j: nat, s: State<nat>)
    requires Parsing.ParsedFrom(p, actions) && Parsing.ParseAll(actions).lookup == E.Global && Laid(p, l)
    requires BranchesByName(p, actions, b, j) && s.pos == |Parsing.ParseAll(actions[..b]).insns|
    requires
      var op := actions[b].insn.op;
      |s.data| >= StackIn(op) && (op == CALL ==> |s.control| < CONTROL_CAPACITY)
    requires
      var goal := |Parsing.ParseAll(actions[..j]).insns|;
      goal < |p.insns| && l.aligns[goal] == 0 && AtMachine(p, l, goal)
    ensures
      var goal := Settle(p, l, |Parsing.ParseAll(actions[..j]).insns|);
      SourceStep(p, l, base, env, s) == Ran(Running(Branched(actions[b].insn.op, s, s.pos + 1, goal)))
  {
    hide Parsing.ParseAll, Extent, Pass1, SourceStep, Settle, RefersTo, Taken, AtMachine, Program.Valid;
    NameRefersToLabel(p, actions, b, j);
    AtMachineItself(p, l, s.pos);
    BranchToLabel(p, l, base, env, s, |Parsing.ParseAll(actions[..j]).insns|);
  }
}
