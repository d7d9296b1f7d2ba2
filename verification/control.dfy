/** Consequences of the simulation for whole programs: control-flow safety of statically checked
    programs and position independence of loaded images. */
module Control {
  import opened Words
  import opened Opcodes
  import opened Machine
  import opened Runs
  import opened Layout
  import opened Agreement
  import opened Simulation

  predicate Branches(op: Op) {
    op == BR || op == BR_T || op == BR_F || op == CALL
  }

  // ---------- Control-flow safety ----------

  /** What the listing must look like: no computed jumps, branch and call targets that are machine
      instructions, and machine code behind everything that can fall through or be returned to. */
  predicate FlowChecked(p: Program, l: Placement, i: nat)
    requires p.Valid() && Covers(p, l) && i < |p.insns| && p.insns[i].Mach?
  {
    var op := p.insns[i].op;
    && op != ICALL && op != IJMP
    && (Branches(op) ==> Find(p, l, OperandValue(p, l, i)).Some?)
    && (op != BR && op != RET ==> AtMachine(p, l, i + 1))
  }

  ghost predicate WellConnected(p: Program, l: Placement)
    requires p.Valid() && Covers(p, l)
  {
    forall i :: 0 <= i < |p.insns| && p.insns[i].Mach? ==> FlowChecked(p, l, i)
  }

  /** Execution and every pending return stand in front of machine instructions. */
  ghost predicate OnCode(p: Program, l: Placement, s: State<nat>)
    requires Covers(p, l)
  {
    AtMachine(p, l, s.pos) && forall f :: 0 <= f < |s.control| ==> AtMachine(p, l, s.control[f].returnTo)
  }

  lemma AtMachineItself(p: Program, l: Placement, j: nat)
    requires Covers(p, l) && j < |p.insns| && p.insns[j].Mach?
    ensures Settle(p, l, j) == j && AtMachine(p, l, j)
  {
    hide OperandBytes;
  }

  lemma ActTransfers(op: Op, imm: u32, x: u32, y: u32, locals: Locals, mem: Memory)
    ensures var act := Act(op, imm, x, y, locals, mem);
      && (act.Halting? ==> act.halt != Panic(UnknownOpcode))
      && (act.Transfer? && op != ICALL && op != IJMP ==>
            && (act.flow.Goto? || act.flow.Enter? ==> Branches(op))
            && (act.flow.Goto? ==> act.flow.target == imm)
            && (act.flow.Enter? ==> act.flow.target == imm))
      && (op == BR ==> act.Transfer? && act.flow.Goto?)
      && (op == RET ==> act.Transfer? && act.flow.Leave?)
  {
    hide Read, Write, Compute, Le16, Le32, SignExtend8, SignExtend16, Byte, Half, Word;
    if Computes(op) {
      hide Act;
      ActComputes(op, imm, x, y, locals, mem);
      ComputeShape(op, x, y);
    }
  }

  lemma ExecTransfers(env: Env, op: Op, imm: u32, a: seq<u32>, core: Core)
    requires op != ICALL && op != IJMP
    ensures var e := Exec(env, op, imm, a, core);
      && (e.Stop? ==> e.halt != Panic(UnknownOpcode))
      && (e.Done? && e.flow.Goto? ==> Branches(op) && e.flow.target == imm)
      && (e.Done? && e.flow.Enter? ==> op == CALL && e.flow.target == imm)
      && (e.Done? && e.flow.Fall? ==> op != BR && op != RET)
  {
    hide Act, Branches, Uses, CallNative;
    var x := if |a| > 0 then a[0] else 0;
    var y := if |a| > 1 then a[1] else 0;
    ActTransfers(op, imm, x, y, core.locals, core.mem);
    ActShape(op, imm, x, y, core.locals, core.mem);
    NativeFalls(env, imm, core);
  }

  lemma NativeFalls(env: Env, index: u32, core: Core)
    ensures var e := CallNative(env, index, core);
      (e.Done? ==> e.flow == Fall) && (e.Stop? ==> e.halt != Panic(UnknownOpcode))
  {
  }

  lemma BranchFinds(p: Program, l: Placement, base: u32, i: nat)
    requires p.Valid() && Covers(p, l) && i < |p.insns| && p.insns[i].Mach? && Branches(p.insns[i].op)
    ensures Find(p, l, Wrap(Meant(p, l, base, i) - base + p.startVa)) == Find(p, l, OperandValue(p, l, i))
  {
    hide OperandValue, Find, Wrap;
    Unrebased(OperandValue(p, l, i), base, p.startVa);
  }

  lemma Unrebased(v: u32, base: u32, start: u32)
    ensures Wrap(Wrap(base + v - start) - base + start) == v
  {
    WrapAdd(base + v - start, start - base);
  }

  /** Whether a branch or call is taken, given the data stack. */
  predicate Taken(op: Op, data: seq<u32>)
    requires |data| >= StackIn(op)
  {
    match op
    case BR => true
    case CALL => true
    case BR_T => data[0] != 0
    case BR_F => data[0] == 0
    case _ => false
  }

  lemma BranchExec(env: Env, op: Op, imm: u32, data: seq<u32>, locals: Locals, mem: Memory)
    requires Branches(op) && |data| >= StackIn(op)
    ensures
      var n := StackIn(op);
      var core := Core(data[n..], locals, mem);
      Exec(env, op, imm, data[..n], core) ==
        Done(core, if !Taken(op, data) then Fall else if op == CALL then Enter(imm) else Goto(imm))
  {
  }

  lemma CallTaken(op: Op, data: seq<u32>)
    ensures op == CALL ==> StackIn(op) == 0 && Taken(op, data)
  {
  }

  /** The operand of instruction `i` is a reference that finds label `j` in the passes' scope there. */
  ghost predicate RefersTo(p: Program, i: nat, j: nat)
    requires p.Valid() && i < |p.insns| && p.insns[i].Mach?
  {
    var root, scope := p.insns[i].operand, ScopeAfter(p.insns, i + 1, p.entryScope);
    && root < |p.world.nodes| && p.world.nodes[root].SymRef? && p.world.ScopeValid(scope)
    && p.world.Resolve(scope, p.world.nodes[root].name) == Some(E.Label(j))
  }

  lemma LabelOperand(p: Program, l: Placement, i: nat, j: nat)
    requires p.Valid() && Covers(p, l) && i < |p.insns| && p.insns[i].Mach? && Branches(p.insns[i].op)
    requires RefersTo(p, i, j) && j < |p.insns|
    ensures OperandValue(p, l, i) == l.addrs[j]
  {
    hide ScopeAfter;
    assert p.InsnValid(i);
  }

  /** The state behind a branch or call in the listing: at `goal` if it is taken, otherwise at `next`; a
      call saves `next` and the locals in a new frame. */
  function Branched(op: Op, s: State<nat>, next: nat, goal: nat): State<nat>
    requires |s.data| >= StackIn(op)
  {
    var control := if op == CALL then [Frame(next, s.locals)] + s.control else s.control;
    var locals := if op == CALL then NoLocals else s.locals;
    State(if Taken(op, s.data) then goal else next, s.data[StackIn(op)..], control, locals, s.mem)
  }

  /** Labels are positions: a branch or call whose operand is a reference to a label in front of
      machine code goes on, when taken, at the instruction behind that label, at every base. */
  lemma BranchToLabel(p: Program, l: Placement, base: u32, env: Env, s: State<nat>, j: nat)
    requires Laid(p, l) && AtMachine(p, l, s.pos)
    requires
      var i := Settle(p, l, s.pos);
      && Branches(p.insns[i].op) && |s.data| >= StackIn(p.insns[i].op) && RefersTo(p, i, j)
      && (p.insns[i].op == CALL ==> |s.control| < CONTROL_CAPACITY)
    requires j < |p.insns| && l.aligns[j] == 0 && AtMachine(p, l, j)
    ensures
      var i := Settle(p, l, s.pos);
      SourceStep(p, l, base, env, s) == Ran(Running(Branched(p.insns[i].op, s, i + 1, Settle(p, l, j))))
  {
    hide Exec, Meant, StackIn, Settle, Find, SourceStep, Branches, Wrap, OperandValue, Extent, Pass1, RefersTo, Taken;
    StepUnfolds(p, l, base, env, s);
    var i := Settle(p, l, s.pos);
    LabelOperand(p, l, i, j);
    LabelFindsItsInstruction(p, l, j);
    BranchFinds(p, l, base, i);
    BranchExec(env, p.insns[i].op, Meant(p, l, base, i), s.data, s.locals, s.mem);
    CallTaken(p.insns[i].op, s.data);
  }

  /** Control is not lost, goes on in front of machine instructions, and the machine does not stop
      on an unknown opcode. */
  ghost predicate StaysOnCode(p: Program, l: Placement, o: SourceOutcome)
    requires Covers(p, l)
  {
    o.Ran? && (o.outcome.Running? ==> OnCode(p, l, o.outcome.state)) && o.outcome != Halted(Panic(UnknownOpcode))
  }

  ghost predicate FramesOnCode(p: Program, l: Placement, control: seq<Frame<nat>>)
    requires Covers(p, l)
  {
    forall f :: 0 <= f < |control| ==> AtMachine(p, l, control[f].returnTo)
  }

  lemma ResumesOnCode(p: Program, l: Placement, base: u32, control: seq<Frame<nat>>, next: nat, effect: Effect)
    requires Covers(p, l) && FramesOnCode(p, l, control)
    requires effect.Done? && !effect.flow.Leave? && !effect.flow.Goto? ==> AtMachine(p, l, next)
    requires effect.Done? && (effect.flow.Goto? || effect.flow.Enter?) ==>
      Find(p, l, Wrap(effect.flow.target - base + p.startVa)).Some?
    requires effect.Stop? ==> effect.halt != Panic(UnknownOpcode)
    ensures StaysOnCode(p, l, SourceResume(p, l, base, control, next, effect))
  {
    hide AtMachine, Find, Wrap;
    if effect.Done? && (effect.flow.Goto? || effect.flow.Enter?) {
      AtMachineItself(p, l, Find(p, l, Wrap(effect.flow.target - base + p.startVa)).value);
    }
  }

  lemma StepUnfolds(p: Program, l: Placement, base: u32, env: Env, s: State<nat>)
    requires p.Valid() && Covers(p, l) && AtMachine(p, l, s.pos)
    ensures
      var i := Settle(p, l, s.pos);
      var n := StackIn(p.insns[i].op);
      SourceStep(p, l, base, env, s) ==
        if n > |s.data| then Ran(Halted(Panic(StackUnderflow)))
        else SourceResume(p, l, base, s.control, i + 1,
                          Exec(env, p.insns[i].op, Meant(p, l, base, i), s.data[..n],
                               Core(s.data[n..], s.locals, s.mem)))
  {
    hide Exec, Meant, StackIn, Settle, SourceResume;
  }

  lemma CallBranches(op: Op)
    ensures op == CALL ==> Branches(op)
  {
  }

  lemma ConnectedAt(p: Program, l: Placement, base: u32, i: nat)
    requires p.Valid() && Covers(p, l) && WellConnected(p, l) && i < |p.insns| && p.insns[i].Mach?
    ensures var op := p.insns[i].op;
      && op != ICALL && op != IJMP
      && (Branches(op) || op == CALL ==> Find(p, l, Wrap(Meant(p, l, base, i) - base + p.startVa)).Some?)
      && (op != BR && op != RET ==> AtMachine(p, l, i + 1))
  {
    hide Meant, Find, AtMachine, Branches, Wrap, OperandValue;
    assert FlowChecked(p, l, i);
    CallBranches(p.insns[i].op);
    if Branches(p.insns[i].op) {
      BranchFinds(p, l, base, i);
    }
  }

  lemma OnCodeParts(p: Program, l: Placement, s: State<nat>)
    requires Covers(p, l) && OnCode(p, l, s)
    ensures AtMachine(p, l, s.pos) && FramesOnCode(p, l, s.control)
  {
    hide AtMachine;
  }

  lemma UnderflowStays(p: Program, l: Placement)
    requires Covers(p, l)
    ensures StaysOnCode(p, l, Ran(Halted(Panic(StackUnderflow))))
  {
  }

  /** A step of a well-connected program stays in front of machine instructions. */
  lemma StepStaysOnCode(p: Program, l: Placement, base: u32, env: Env, s: State<nat>)
    requires p.Valid() && Covers(p, l) && WellConnected(p, l) && OnCode(p, l, s)
    ensures StaysOnCode(p, l, SourceStep(p, l, base, env, s))
  {
    hide Exec, Meant, StackIn, Settle, Find, SourceStep, SourceResume, Branches, Wrap, WellConnected;
    hide StaysOnCode, FramesOnCode, OnCode;
    OnCodeParts(p, l, s);
    StepUnfolds(p, l, base, env, s);
    var i := Settle(p, l, s.pos);
    var op := p.insns[i].op;
    var n := StackIn(op);
    hide AtMachine;
    ConnectedAt(p, l, base, i);
    if n <= |s.data| {
      var effect := Exec(env, op, Meant(p, l, base, i), s.data[..n], Core(s.data[n..], s.locals, s.mem));
      ExecTransfers(env, op, Meant(p, l, base, i), s.data[..n], Core(s.data[n..], s.locals, s.mem));
      ResumesOnCode(p, l, base, s.control, i + 1, effect);
    } else {
      UnderflowStays(p, l);
    }
  }

  /** The byte run never overwrites machine code. */
  ghost predicate CodeStays(p: Program, l: Placement, base: u32, envs: nat -> Env, m: State<u32>, k: nat)
    requires p.Valid() && Covers(p, l)
  {
    forall j | 0 <= j < k :: CodeStaysAt(p, l, base, Run(envs, m, j))
  }

  ghost predicate CodeStaysAt(p: Program, l: Placement, base: u32, o: Outcome<u32>)
    requires p.Valid() && Covers(p, l)
  {
    o.Running? ==> CodeIntact(p, l, base, o.state.mem)
  }

  lemma LoweredMemory(p: Program, l: Placement, base: u32, s: State<nat>)
    requires Covers(p, l)
    ensures Lower(p, l, base, s).mem == s.mem
  {
  }

  lemma {:induction false} SourceFollows(p: Program, l: Placement, base: u32, envs: nat -> Env, s: State<nat>, k: nat)
    requires Emits(p, l) && WellConnected(p, l) && OnCode(p, l, s) && InList(p, s)
    requires CodeStays(p, l, base, envs, Lower(p, l, base, s), k)
    ensures KeepsCode(p, l, base, envs, s, k) && StaysOnCode(p, l, SourceRun(p, l, base, envs, s, k))
  {
    hide Step, SourceStep, Lower, CodeIntact, InList, OnCode, WellConnected, Pass1, Pass2, Extent;
    if k > 0 {
      var m := Lower(p, l, base, s);
      SourceFollows(p, l, base, envs, s, k - 1);
      RunSimulates(p, l, base, envs, s, k - 1);
      var o := SourceRun(p, l, base, envs, s, k - 1);
      assert CodeStaysAt(p, l, base, Run(envs, m, k - 1));
      if o.outcome.Running? {
        LoweredMemory(p, l, base, o.outcome.state);
        StepStaysOnCode(p, l, base, envs(k - 1), o.outcome.state);
      }
      assert KeepsCodeAt(p, l, base, o);
      assert KeepsCode(p, l, base, envs, s, k);
    }
  }

  /** Control-flow safety: while its code is not overwritten, a well-connected program's program
      counter is always the loaded address of a listed machine instruction, and the machine never
      stops on an unknown opcode. */
  lemma ControlStaysOnListing(p: Program, l: Placement, base: u32, envs: nat -> Env, s: State<nat>, k: nat)
    requires Emits(p, l) && WellConnected(p, l) && OnCode(p, l, s) && InList(p, s)
    requires CodeStays(p, l, base, envs, Lower(p, l, base, s), k)
    ensures var o := Run(envs, Lower(p, l, base, s), k);
      && o != Halted(Panic(UnknownOpcode))
      && (o.Running? ==>
            exists i: nat :: i < |p.insns| && p.insns[i].Mach? && o.state.pos == Wrap(base + l.addrs[i] - p.startVa))
  {
    hide Step, SourceStep, CodeIntact, InList, WellConnected, Pass1, Pass2, Extent, LowerFrames, OperandBytes;
    hide Run, SourceRun;
    SourceFollows(p, l, base, envs, s, k);
    RunSimulates(p, l, base, envs, s, k);
    var o := SourceRun(p, l, base, envs, s, k).outcome;
    if o.Running? {
      var i := Settle(p, l, o.state.pos);
      InListPosition(p, o.state);
      SettleExtent(p, l, o.state.pos);
      MachineUnpadded(p, l, i);
      assert Address(p, l, base, o.state.pos) == Wrap(base + l.addrs[i] - p.startVa);
    }
  }

  // ---------- Position independence ----------

  /** Operations that neither see an address nor touch memory or native code. */
  predicate Relocatable(op: Op) {
    match op
    case LEA => false
    case LDM_UB => false
    case LDM_SB => false
    case LDM_UH => false
    case LDM_SH => false
    case LDM_W => false
    case STM_B => false
    case STM_H => false
    case STM_W => false
    case ICALL => false
    case IJMP => false
    case NCALL => false
    case _ => true
  }

  ghost predicate OnlyRelocatable(p: Program) {
    forall i :: 0 <= i < |p.insns| && p.insns[i].Mach? ==> Relocatable(p.insns[i].op)
  }

  /** The same state up to memory. */
  predicate Alike(s: State<nat>, t: State<nat>) {
    s.pos == t.pos && s.data == t.data && s.control == t.control && s.locals == t.locals
  }

  predicate AlikeOutcomes(a: SourceOutcome, b: SourceOutcome) {
    match (a, b)
    case (Lost, Lost) => true
    case (Ran(Halted(h)), Ran(Halted(g))) => h == g
    case (Ran(Running(s)), Ran(Running(t))) => Alike(s, t)
    case _ => false
  }

  predicate AlikeActions(a: Action, b: Action, op: Op, imm: u32, other: u32) {
    match (a, b)
    case (Push(v), Push(w)) => v == w
    case (Update(x, m), Update(y, n)) => x == y
    case (Transfer(f), Transfer(g)) =>
      f == g || (Branches(op) && ((f == Goto(imm) && g == Goto(other)) || (f == Enter(imm) && g == Enter(other))))
    case (Halting(h), Halting(g)) => h == g
    case _ => false
  }

  lemma ActAlike(op: Op, imm: u32, other: u32, x: u32, y: u32, locals: Locals, mem: Memory, mem': Memory)
    requires Relocatable(op) && (!Branches(op) ==> imm == other)
    ensures AlikeActions(Act(op, imm, x, y, locals, mem), Act(op, other, x, y, locals, mem'), op, imm, other)
  {
    hide Read, Write, Compute, Le16, Le32, SignExtend8, SignExtend16, Byte, Half, Word;
    if Computes(op) {
      hide Act;
      ActComputes(op, imm, x, y, locals, mem);
      ActComputes(op, other, x, y, locals, mem');
      ComputeShape(op, x, y);
    }
  }

  lemma MeantAlike(p: Program, l: Placement, base: u32, base': u32, i: nat)
    requires p.Valid() && i < |p.insns| && p.insns[i].Mach? && Relocatable(p.insns[i].op) && !Branches(p.insns[i].op)
    ensures Meant(p, l, base, i) == Meant(p, l, base', i)
  {
    hide OperandValue;
  }

  lemma ExecAlike(p: Program, l: Placement, base: u32, base': u32, env: Env, env': Env, op: Op, imm: u32, other: u32,
                  a: seq<u32>, control: seq<Frame<nat>>, next: nat, c: Core, c': Core)
    requires Covers(p, l) && c.data == c'.data && c.locals == c'.locals
    requires Relocatable(op) && (!Branches(op) ==> imm == other)
    requires Branches(op) ==>
      Find(p, l, Wrap(imm - base + p.startVa)) == Find(p, l, Wrap(other - base' + p.startVa))
    ensures AlikeOutcomes(SourceResume(p, l, base, control, next, Exec(env, op, imm, a, c)),
                          SourceResume(p, l, base', control, next, Exec(env', op, other, a, c')))
  {
    hide Act, Find, Branches, Uses, Perform, AlikeActions;
    var x := if |a| > 0 then a[0] else 0;
    var y := if |a| > 1 then a[1] else 0;
    ActAlike(op, imm, other, x, y, c.locals, c.mem, c'.mem);
    ActTransfers(op, imm, x, y, c.locals, c.mem);
    ActTransfers(op, other, x, y, c'.locals, c'.mem);
    ResumeAlike(p, l, base, base', env, env', op, imm, other, Act(op, imm, x, y, c.locals, c.mem),
                Act(op, other, x, y, c'.locals, c'.mem), control, next, c, c');
  }

  lemma ResumeAlike(p: Program, l: Placement, base: u32, base': u32, env: Env, env': Env, op: Op, imm: u32, other: u32,
                    act: Action, act': Action, control: seq<Frame<nat>>, next: nat, c: Core, c': Core)
    requires Covers(p, l) && AlikeActions(act, act', op, imm, other) && c.data == c'.data && c.locals == c'.locals
    requires Branches(op) ==>
      Find(p, l, Wrap(imm - base + p.startVa)) == Find(p, l, Wrap(other - base' + p.startVa))
    requires act.Transfer? && (act.flow.Goto? || act.flow.Enter?) ==> Branches(op) && act.flow.target == imm
    requires act'.Transfer? && (act'.flow.Goto? || act'.flow.Enter?) ==> Branches(op) && act'.flow.target == other
    ensures AlikeOutcomes(SourceResume(p, l, base, control, next, Perform(env, act, c)),
                          SourceResume(p, l, base', control, next, Perform(env', act', c')))
  {
    hide Find, Branches;
  }

  /** From like states, two loads of a relocatable program step to like states. */
  lemma StepAlike(p: Program, l: Placement, base: u32, base': u32, env: Env, env': Env, s: State<nat>, t: State<nat>)
    requires p.Valid() && Covers(p, l) && OnlyRelocatable(p) && Alike(s, t)
    ensures AlikeOutcomes(SourceStep(p, l, base, env, s), SourceStep(p, l, base', env', t))
  {
    hide Exec, Meant, StackIn, Settle, Find, OperandValue, Branches, Relocatable, SourceResume;
    if AtMachine(p, l, s.pos) {
      var i := Settle(p, l, s.pos);
      var op := p.insns[i].op;
      var n := StackIn(op);
      assert Relocatable(op);
      if n <= |s.data| {
        var imm, other := Meant(p, l, base, i), Meant(p, l, base', i);
        if Branches(op) {
          BranchFinds(p, l, base, i);
          BranchFinds(p, l, base', i);
        } else {
          MeantAlike(p, l, base, base', i);
        }
        ExecAlike(p, l, base, base', env, env', op, imm, other, s.data[..n], s.control, i + 1,
                  Core(s.data[n..], s.locals, s.mem), Core(t.data[n..], t.locals, t.mem));
      }
    }
  }

  // A relocatable program never writes memory, so its code stays as it was loaded.

  lemma ActKeepsMemory(op: Op, imm: u32, x: u32, y: u32, locals: Locals, mem: Memory)
    requires Relocatable(op)
    ensures var act := Act(op, imm, x, y, locals, mem);
      (act.Update? ==> act.mem == mem) && !act.Native?
  {
    hide Read, Write, Compute, Le16, Le32, SignExtend8, SignExtend16, Byte, Half, Word;
    if Computes(op) {
      hide Act;
      ActComputes(op, imm, x, y, locals, mem);
      ComputeShape(op, x, y);
    }
  }

  lemma StepKeepsMemory(p: Program, l: Placement, base: u32, env: Env, s: State<nat>)
    requires p.Valid() && Covers(p, l) && OnlyRelocatable(p)
    requires SourceStep(p, l, base, env, s).Ran? && SourceStep(p, l, base, env, s).outcome.Running?
    ensures SourceStep(p, l, base, env, s).outcome.state.mem == s.mem
  {
    hide Act, Meant, StackIn, Settle, Find, Relocatable;
    var i := Settle(p, l, s.pos);
    var op := p.insns[i].op;
    var a := s.data[..StackIn(op)];
    assert Relocatable(op);
    ActKeepsMemory(op, Meant(p, l, base, i), if |a| > 0 then a[0] else 0, if |a| > 1 then a[1] else 0, s.locals, s.mem);
  }

  lemma {:induction false} RunKeepsMemory(p: Program, l: Placement, base: u32, envs: nat -> Env, s: State<nat>, k: nat)
    requires p.Valid() && Covers(p, l) && OnlyRelocatable(p)
    ensures var o := SourceRun(p, l, base, envs, s, k);
      o.Ran? && o.outcome.Running? ==> o.outcome.state.mem == s.mem
  {
    hide SourceStep, OnlyRelocatable;
    if k > 0 {
      RunKeepsMemory(p, l, base, envs, s, k - 1);
      var o, n := SourceRun(p, l, base, envs, s, k - 1), SourceRun(p, l, base, envs, s, k);
      if n.Ran? && n.outcome.Running? {
        StepKeepsMemory(p, l, base, envs(k - 1), o.outcome.state);
      }
    }
  }

  lemma RelocatableKeepsCode(p: Program, l: Placement, base: u32, envs: nat -> Env, s: State<nat>, k: nat)
    requires p.Valid() && Covers(p, l) && OnlyRelocatable(p) && CodeIntact(p, l, base, s.mem)
    ensures KeepsCode(p, l, base, envs, s, k)
  {
    hide CodeIntact, SourceRun, OnlyRelocatable;
    forall j: nat | j < k ensures KeepsCodeAt(p, l, base, SourceRun(p, l, base, envs, s, j)) {
      RunKeepsMemory(p, l, base, envs, s, j);
    }
  }

  /** Two loads of a relocatable program, run over the emitted bytes at their own bases from
      states equal up to memory, agree after every number of steps on the program counter relative
      to the base, on the data stack and on the locals. */
  lemma RunsAlike(p: Program, l: Placement, base: u32, base': u32, envs: nat -> Env, envs': nat -> Env, s: State<nat>,
                  t: State<nat>, k: nat)
    requires Emits(p, l) && OnlyRelocatable(p) && Alike(s, t) && InList(p, s)
    requires CodeIntact(p, l, base, s.mem) && CodeIntact(p, l, base', t.mem)
    requires SourceRun(p, l, base, envs, s, k).Ran?
    ensures
      var a := Run(envs, Lower(p, l, base, s), k);
      var b := Run(envs', Lower(p, l, base', t), k);
      && (a.Halted? || b.Halted? ==> a == b)
      && (a.Running? && b.Running? ==>
            && Wrap(a.state.pos - base) == Wrap(b.state.pos - base')
            && a.state.data == b.state.data && a.state.locals == b.state.locals
            && |a.state.control| == |b.state.control|)
  {
    hide Step, SourceStep, SourceRun, Run, Pass1, Pass2, Extent, CodeIntact, KeepsCode, LowerFrames;
    RelocatableKeepsCode(p, l, base, envs, s, k);
    RelocatableKeepsCode(p, l, base', envs', t, k);
    SourceRunsAlike(p, l, base, base', envs, envs', s, t, k);
    RunSimulates(p, l, base, envs, s, k);
    RunSimulates(p, l, base', envs', t, k);
    var a, b := SourceRun(p, l, base, envs, s, k).outcome, SourceRun(p, l, base', envs', t, k).outcome;
    if a.Running? && b.Running? {
      Unbased(Extent(p, l.counts, a.state.pos) - p.startVa, base);
      Unbased(Extent(p, l.counts, a.state.pos) - p.startVa, base');
    }
  }

  lemma Unbased(x: int, base: u32)
    ensures Wrap(Wrap(base + x) - base) == Wrap(x)
  {
    WrapAdd(base + x, 0 - base as int);
  }

  lemma {:induction false} SourceRunsAlike(p: Program, l: Placement, base: u32, base': u32, envs: nat -> Env,
                                           envs': nat -> Env, s: State<nat>, t: State<nat>, k: nat)
    requires p.Valid() && Covers(p, l) && OnlyRelocatable(p) && Alike(s, t)
    ensures AlikeOutcomes(SourceRun(p, l, base, envs, s, k), SourceRun(p, l, base', envs', t, k))
  {
    hide SourceStep, OnlyRelocatable;
    if k > 0 {
      SourceRunsAlike(p, l, base, base', envs, envs', s, t, k - 1);
      var a, b := SourceRun(p, l, base, envs, s, k - 1), SourceRun(p, l, base', envs', t, k - 1);
      if a.Ran? && a.outcome.Running? {
        StepAlike(p, l, base, base', envs(k - 1), envs'(k - 1), a.outcome.state, b.outcome.state);
      }
    }
  }

  // ---------- Statically safe programs ----------

  lemma {:induction false} RelocatableCodeStays(p: Program, l: Placement, base: u32, envs: nat -> Env,
                                                s: State<nat>, k: nat)
    requires Emits(p, l) && WellConnected(p, l) && OnCode(p, l, s) && InList(p, s)
    requires OnlyRelocatable(p) && CodeIntact(p, l, base, s.mem)
    ensures CodeStays(p, l, base, envs, Lower(p, l, base, s), k)
  {
    hide Step, SourceStep, SourceRun, Run, Lower, CodeIntact, InList, OnCode, WellConnected, OnlyRelocatable;
    hide Pass1, Pass2, Extent;
    if k > 0 {
      RelocatableCodeStays(p, l, base, envs, s, k - 1);
      SourceFollows(p, l, base, envs, s, k - 1);
      RunSimulates(p, l, base, envs, s, k - 1);
      RunKeepsMemory(p, l, base, envs, s, k - 1);
      var o := SourceRun(p, l, base, envs, s, k - 1).outcome;
      if o.Running? {
        LoweredMemory(p, l, base, o.state);
      }
      assert CodeStaysAt(p, l, base, Run(envs, Lower(p, l, base, s), k - 1));
    }
  }

  /** With both static checks no run-time assumption is left: loaded intact at any base, the program
      never leaves its machine instructions, and its bytes do for ever what its listing says. */
  lemma StaticallySafe(p: Program, l: Placement, base: u32, envs: nat -> Env, s: State<nat>, k: nat)
    requires Emits(p, l) && WellConnected(p, l) && OnCode(p, l, s) && InList(p, s)
    requires OnlyRelocatable(p) && CodeIntact(p, l, base, s.mem)
    ensures SourceRun(p, l, base, envs, s, k).Ran?
    ensures var o := Run(envs, Lower(p, l, base, s), k);
      && o == LowerOutcome(p, l, base, SourceRun(p, l, base, envs, s, k).outcome)
      && o != Halted(Panic(UnknownOpcode))
      && (o.Running? ==>
            exists i: nat :: i < |p.insns| && p.insns[i].Mach? && o.state.pos == Wrap(base + l.addrs[i] - p.startVa))
  {
    hide Step, SourceStep, SourceRun, Run, Lower, CodeIntact, InList, OnCode, WellConnected, OnlyRelocatable;
    hide Pass1, Pass2, Extent;
    RelocatableCodeStays(p, l, base, envs, s, k);
    SourceFollows(p, l, base, envs, s, k);
    RunSimulates(p, l, base, envs, s, k);
    ControlStaysOnListing(p, l, base, envs, s, k);
  }
}
