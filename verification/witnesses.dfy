/** Concrete inputs: one program that meets the hypotheses of the whole-program theorems, and the
    inputs on which the code departs from its evident intent. */
module Witnesses {
  import opened Words
  import opened Opcodes
  import opened Machine
  import opened Layout
  import opened Agreement
  import opened Simulation
  import opened Control
  import opened Image
  import opened Arena
  import opened FreeLists
  import opened Heap
  import opened HeapRuns
  import Pipeline
  import Printer
  import Runs
  import H = Handlers
  import F = Frames
  import FH = FrameHeap

  // ---------- A program that loops ----------

  /** start: LDC.2, POP, BR start. */
  function Loop(): Program {
    Program([Mach(LDC_2, 0), Mach(POP, 0), Mach(BR, 0)],
            E.World([E.SymRef("start")], [2], 0, [E.Entry("start", E.Label(0))], []), [], 0, E.Global)
  }

  function LoopPlacement(): Placement {
    Placement(4, 4, E.Global, [0, 1, 2], [0, 0, 0], [0, 0, 0], {})
  }

  lemma LoopWorld()
    ensures Loop().world.Valid()
  {
    assert Loop().world.ChildrenBelow(0);
  }

  lemma LoopScopes()
    ensures ScopeAfter(Loop().insns, 3, E.Global) == E.Global
  {
    assert ScopeAfter(Loop().insns, 1, E.Global) == E.Global;
    assert ScopeAfter(Loop().insns, 2, E.Global) == E.Global;
  }

  lemma LoopValid()
    ensures Loop().Valid()
  {
    hide E.World.Valid, ScopeAfter, OperandBytes;
    var p := Loop();
    LoopWorld();
    LoopScopes();
    LoopWords();
    assert p.RootValid(2, 0);
    assert p.InsnValid(0) && p.InsnValid(1) && p.InsnValid(2);
  }

  lemma LoopWords()
    ensures OperandBytes(LDC_2) == OperandBytes(POP) == 0 && OperandBytes(BR) == 1
    ensures OpcodeByte(LDC_2) == 0x14 && OpcodeByte(POP) == 0x66 && OpcodeByte(BR) == 0x27
    ensures EncodeOperand(BR, 0, 2) == Some([0xFC])
  {
  }

  /** The amount of instruction `i`, when it reserves, is a literal. */
  predicate KnownAmount(p: Program, i: nat, count: u32)
    requires i < |p.insns|
  {
    if p.insns[i].Reserve? then
      p.insns[i].amount < |p.world.nodes| && p.world.nodes[p.insns[i].amount] == E.Literal(count)
    else count == 0
  }

  lemma PlaceKnown(p: Program, l: Placement, i: nat, start: u32, count: u32)
    requires p.Valid() && i < |p.insns| && PlacementOf(p, i, l)
    requires start == AlignWord(l.next, Aligned(p.insns[i]))
    requires KnownAmount(p, i, count)
    ensures
      var next := Wrap(start + SizeOf(p.insns[i], count));
      var bss := if Allocates(p.insns[i]) then next else l.bss;
      Place(p, l, i) == Some(Placement(next, bss, NextScope(l.scope, p.insns[i]), l.addrs + [start],
                                       l.aligns + [Wrap(start - l.next)], l.counts + [count], l.used))
  {
    hide AlignWord;
    assert p.InsnValid(i);
  }

  lemma SmallWraps()
    ensures Wrap(0) == 0 && Wrap(1) == 1 && Wrap(3) == 3 && Wrap(4) == 4
  {
  }

  lemma Unaligned(x: u32)
    ensures AlignWord(x, 1) == x == AlignUp(x, 1)
  {
  }

  lemma MachineFacts(p: Program, i: nat)
    requires i < |p.insns| && p.insns[i].Mach?
    ensures forall scope :: NextScope(scope, p.insns[i]) == scope
    ensures KnownAmount(p, i, 0) && Allocates(p.insns[i])
    ensures Aligned(p.insns[i]) == 1 && SizeOf(p.insns[i], 0) == 1 + OperandBytes(p.insns[i].op)
  {
    hide OperandBytes;
  }

  /** A machine instruction is placed at the running address, without padding. */
  lemma PlaceMachine(p: Program, l: Placement, i: nat)
    requires p.Valid() && i < |p.insns| && PlacementOf(p, i, l) && p.insns[i].Mach?
    ensures
      var next := Wrap(l.next + 1 + OperandBytes(p.insns[i].op));
      Place(p, l, i) == Some(Placement(next, next, l.scope, l.addrs + [l.next], l.aligns + [0], l.counts + [0], l.used))
  {
    hide *;
    MachineFacts(p, i);
    Unaligned(l.next);
    SmallWraps();
    PlaceKnown(p, l, i, l.next, 0);
  }

  /** The placement of the first `i` instructions. */
  function LoopFront(i: nat): Placement
    requires i <= 3
  {
    var l := LoopPlacement();
    var next := if i == 3 then 4 else i;
    Placement(next, next, E.Global, l.addrs[..i], l.aligns[..i], l.counts[..i], {})
  }

  lemma {:induction false} LoopFrontPlaced(i: nat)
    requires i <= 3
    ensures Loop().Valid() && Pass1(Loop(), i) == Some(LoopFront(i))
  {
    hide Place, OperandBytes, Program.Valid;
    LoopValid();
    if i > 0 {
      hide Pass1;
      LoopFrontPlaced(i - 1);
      Pass1Unfolds(Loop(), i - 1);
      hide Loop, LoopFront;
      LoopFrontStep(i - 1);
    }
  }

  lemma LoopFrontStep(i: nat)
    requires i < 3
    ensures Loop().Valid() && i < |Loop().insns| && PlacementOf(Loop(), i, LoopFront(i))
    ensures Place(Loop(), LoopFront(i), i) == Some(LoopFront(i + 1))
  {
    hide Place, OperandBytes, Program.Valid;
    LoopValid();
    LoopWords();
    PlaceMachine(Loop(), LoopFront(i), i);
    var l := LoopPlacement();
    assert l.addrs[..i + 1] == l.addrs[..i] + [LoopFront(i).next];
    assert l.aligns[..i + 1] == l.aligns[..i] + [0] && l.counts[..i + 1] == l.counts[..i] + [0];
  }

  lemma LoopPlaced()
    ensures Laid(Loop(), LoopPlacement())
  {
    hide Pass1, Extent, Program.Valid;
    LoopFrontPlaced(3);
    LoopExtents(3);
    var l := LoopPlacement();
    assert l.addrs[..3] == l.addrs && l.aligns[..3] == l.aligns && l.counts[..3] == l.counts;
  }

  lemma ExtentZero(p: Program, counts: seq<u32>)
    requires |counts| == |p.insns|
    ensures Extent(p, counts, 0) == p.startVa
  {
  }

  lemma ExtentNext(p: Program, counts: seq<u32>, i: nat)
    requires i < |p.insns| == |counts|
    ensures Extent(p, counts, i + 1) ==
      AlignUp(Extent(p, counts, i), Aligned(p.insns[i])) + SizeOf(p.insns[i], counts[i])
  {
  }

  lemma LoopInsns(i: nat)
    requires i < 3
    ensures |Loop().insns| == |LoopPlacement().counts| == 3 && LoopPlacement().counts[i] == 0 && Loop().startVa == 0
    ensures Aligned(Loop().insns[i]) == 1 && SizeOf(Loop().insns[i], 0) == if i == 2 then 2 else 1
  {
    hide OperandBytes;
    LoopWords();
  }

  lemma {:induction false} LoopExtents(i: nat)
    requires i <= 3
    ensures |Loop().insns| == |LoopPlacement().counts| == 3
    ensures Extent(Loop(), LoopPlacement().counts, i) == if i == 3 then 4 else i
  {
    hide *;
    LoopInsns(if i == 0 then 0 else i - 1);
    var p, c := Loop(), LoopPlacement().counts;
    if i == 0 {
      ExtentZero(p, c);
    } else {
      LoopExtents(i - 1);
      ExtentNext(p, c, i - 1);
      Unaligned(i - 1);
    }
  }

  lemma LoopTarget()
    ensures Loop().Valid() && E.EvalOnce(Loop().world, E.Global, [0, 1, 2], 0, {}) == Some(E.Evaluated(0, {0}))
    ensures E.Denote(Loop().world, E.Global, [0, 1, 2], 0, {}) == E.Means(0)
  {
    LoopValid();
    var w := Loop().world;
    assert w.Has(0);
    assert w.Resolve(E.Global, "start") == Some(E.Label(0));
    assert {} + {0} == {0};
  }

  lemma LoopCut()
    ensures Cut(LoopPlacement()) == 3
  {
    var l := LoopPlacement();
    assert CutFrom(l, 2) == CutFrom(l, 3) == 3;
  }

  function LoopOutput(i: nat): Emission
    requires i <= 3
  {
    Emission([0x14, 0x66, 0x27, 0xFC][..if i == 3 then 4 else i], E.Global, if i == 3 then {0} else {})
  }

  lemma {:induction false} LoopOutputs(i: nat)
    requires i <= 3
    ensures Loop().Valid() && PlacementOf(Loop(), 3, LoopPlacement())
    ensures Pass2(Loop(), LoopPlacement(), i) == Some(LoopOutput(i))
  {
    hide EmitOne, Program.Valid;
    LoopValid();
    if i > 0 {
      LoopOutputs(i - 1);
      LoopBytes(i - 1);
      var bytes := if i == 1 then [0x14] else if i == 2 then [0x66] else [0x27, 0xFC];
      assert LoopOutput(i).out == LoopOutput(i - 1).out + bytes;
    }
  }

  /** Its four bytes: the branch goes back four bytes from its end. */
  lemma LoopEmitted()
    ensures Emits(Loop(), LoopPlacement()) && Body(Loop(), LoopPlacement()) == [0x14, 0x66, 0x27, 0xFC]
  {
    hide Laid, Cut, Pass2, Program.Valid;
    LoopPlaced();
    LoopCut();
    LoopOutputs(3);
  }

  lemma LoopBytes(i: nat)
    requires i < 3
    ensures Loop().Valid() && PlacementOf(Loop(), 3, LoopPlacement())
    ensures EmitOne(Loop(), LoopPlacement(), i, E.Global, {}) ==
      Some(if i == 0 then Emitted([0x14], {}) else if i == 1 then Emitted([0x66], {}) else Emitted([0x27, 0xFC], {0}))
  {
    hide OperandBytes, OpcodeByte, EncodeOperand, E.EvalOnce, Program.Valid;
    LoopValid();
    LoopWords();
    LoopTarget();
    assert LoopPlacement().addrs == [0, 1, 2];
    var opcode, offset: seq<u8> := [0x27], [0xFC];
    assert opcode + offset == [0x27, 0xFC];
  }

  lemma LoopBranch()
    ensures Loop().Valid() && Covers(Loop(), LoopPlacement())
    ensures OperandValue(Loop(), LoopPlacement(), 2) == 0 && Find(Loop(), LoopPlacement(), 0) == Some(0)
  {
    hide E.Denote, OperandBytes;
    LoopWords();
    LoopTarget();
    assert ScopeAfter(Loop().insns, 3, Loop().entryScope) == E.Global;
  }

  lemma LoopConnected()
    ensures Loop().Valid() && WellConnected(Loop(), LoopPlacement()) && OnlyRelocatable(Loop())
  {
    var p, l := Loop(), LoopPlacement();
    hide E.Denote, OperandBytes, OperandValue, Find, Settle, AtMachine, Program.Valid;
    LoopBranch();
    AtMachineItself(p, l, 0);
    AtMachineItself(p, l, 1);
    AtMachineItself(p, l, 2);
    LoopWords();
    assert FlowChecked(p, l, 0) && FlowChecked(p, l, 1) && FlowChecked(p, l, 2);
  }

  lemma LoopStarts(base: u32, mem: Memory)
    ensures Loop().Valid() && Covers(Loop(), LoopPlacement())
    ensures
      var s: State<nat> := State(0, [], [], NoLocals, mem);
      && OnCode(Loop(), LoopPlacement(), s) && InList(Loop(), s)
      && Lower(Loop(), LoopPlacement(), base, s) == State(base, [], [], NoLocals, mem)
  {
    hide Program.Valid;
    LoopValid();
    AtMachineItself(Loop(), LoopPlacement(), 0);
  }

  lemma LoopLoadable()
    requires Laid(Loop(), LoopPlacement())
    ensures Pipeline.Loadable(Loop(), LoopPlacement(), 0) && !CutInsidePadding(Loop(), LoopPlacement())
  {
    hide Laid;
    LoopCut();
    LoopValid();
  }

  function LoopAt(i: nat, mem: Memory): State<nat> {
    State(i, if i == 1 then [2] else [], [], NoLocals, mem)
  }

  /** The listing's own run: LDC.2 leaves a 2, POP takes it, BR goes back. */
  function LoopState(k: nat, mem: Memory): State<nat> {
    LoopAt(k % 3, mem)
  }

  lemma LoopExecs(env: Env, imm: u32, mem: Memory)
    ensures StackIn(LDC_2) == StackIn(BR) == 0 && StackIn(POP) == 1
    ensures var core := Core([], NoLocals, mem);
      && Exec(env, LDC_2, imm, [], core) == Done(core.(data := [2]), Fall)
      && Exec(env, POP, imm, [2], core) == Done(core, Fall)
      && Exec(env, BR, imm, [], core) == Done(core, Goto(imm))
  {
    var two: seq<u32> := [2];
    assert two + [] == two;
  }

  lemma LoopLoads(base: u32, env: Env, mem: Memory)
    requires Loop().Valid()
    ensures SourceStep(Loop(), LoopPlacement(), base, env, LoopAt(0, mem)) == Ran(Running(LoopAt(1, mem)))
  {
    hide Program.Valid, Meant, SourceStep, Exec, StackIn, Settle, AtMachine;
    var p, l, s := Loop(), LoopPlacement(), LoopAt(0, mem);
    AtMachineItself(p, l, 0);
    StepUnfolds(p, l, base, env, s);
    LoopExecs(env, Meant(p, l, base, 0), mem);
    assert s.data[..0] == [] && s.data[0..] == [];
  }

  lemma LoopPops(base: u32, env: Env, mem: Memory)
    requires Loop().Valid()
    ensures SourceStep(Loop(), LoopPlacement(), base, env, LoopAt(1, mem)) == Ran(Running(LoopAt(2, mem)))
  {
    hide Program.Valid, Meant, SourceStep, Exec, StackIn, Settle, AtMachine;
    var p, l, s := Loop(), LoopPlacement(), LoopAt(1, mem);
    AtMachineItself(p, l, 1);
    StepUnfolds(p, l, base, env, s);
    LoopExecs(env, Meant(p, l, base, 1), mem);
    assert s.data[..1] == [2] && s.data[1..] == [];
  }

  lemma LoopBranches(base: u32, env: Env, mem: Memory)
    requires Loop().Valid()
    ensures SourceStep(Loop(), LoopPlacement(), base, env, LoopAt(2, mem)) == Ran(Running(LoopAt(0, mem)))
  {
    hide Program.Valid, Meant, OperandValue, Find, SourceStep, Exec, StackIn, Settle, AtMachine, Wrap;
    var p, l, s := Loop(), LoopPlacement(), LoopAt(2, mem);
    AtMachineItself(p, l, 2);
    StepUnfolds(p, l, base, env, s);
    LoopExecs(env, Meant(p, l, base, 2), mem);
    LoopBranch();
    BranchFinds(p, l, base, 2);
    assert s.data[..0] == [] && s.data[0..] == [];
  }

  lemma LoopStep(base: u32, env: Env, i: nat, mem: Memory)
    requires i < 3 && Loop().Valid()
    ensures SourceStep(Loop(), LoopPlacement(), base, env, LoopAt(i, mem)) ==
      Ran(Running(LoopAt(if i == 2 then 0 else i + 1, mem)))
  {
    hide *;
    if i == 0 {
      LoopLoads(base, env, mem);
    } else if i == 1 {
      LoopPops(base, env, mem);
    } else {
      LoopBranches(base, env, mem);
    }
  }

  lemma {:induction false} LoopSourceRun(base: u32, envs: nat -> Env, mem: Memory, k: nat)
    requires Loop().Valid()
    ensures SourceRun(Loop(), LoopPlacement(), base, envs, LoopState(0, mem), k) == Ran(Running(LoopState(k, mem)))
  {
    hide SourceStep, Program.Valid, Loop, LoopPlacement, LoopAt;
    if k > 0 {
      LoopSourceRun(base, envs, mem, k - 1);
      LoopStep(base, envs(k - 1), (k - 1) % 3, mem);
    }
  }

  /** Assembled and copied to any base, the loop meets every hypothesis of the whole-program
      theorems, and its four bytes run for ever as its listing does. */
  lemma LoopRuns(base: u32, envs: nat -> Env, mem: Memory, k: nat)
    requires Read(mem, base, 4) == Some([0x14, 0x66, 0x27, 0xFC])
    ensures Pipeline.Loadable(Loop(), LoopPlacement(), 0) && !CutInsidePadding(Loop(), LoopPlacement())
    ensures Run(envs, State(base, [], [], NoLocals, mem), k) ==
      Running(State(Wrap(base + k % 3), if k % 3 == 1 then [2] else [], [], NoLocals, mem))
  {
    hide Emits, Laid, Loop, LoopPlacement, WellConnected, OnlyRelocatable, OnCode, InList, Lower, Pass1, Pass2;
    hide Extent, Run, Read, CodeIntact, Pipeline.Loadable, CutInsidePadding, Program.Valid, SourceRun;
    var p, l := Loop(), LoopPlacement();
    LoopPlaced();
    LoopLoadable();
    LoopEmitted();
    LoopConnected();
    LoopStarts(base, mem);
    LoadedCodeIntact(p, l, base, mem);
    StaticallySafe(p, l, base, envs, LoopState(0, mem), k);
    LoopSourceRun(base, envs, mem, k);
    LoopLowers(base, mem, k);
  }

  lemma LoopLowers(base: u32, mem: Memory, k: nat)
    ensures Covers(Loop(), LoopPlacement())
    ensures Lower(Loop(), LoopPlacement(), base, LoopState(k, mem)) ==
      State(Wrap(base + k % 3), if k % 3 == 1 then [2] else [], [], NoLocals, mem)
  {
    hide Extent;
    LoopExtents(k % 3);
  }

  // ---------- A call over the heap ----------

  /** CALL to the last byte, RET, RET. */
  function CallCode(): Memory {
    map[256 := 0x2A, 257 := 1, 258 := 0, 259 := 0, 260 := 0, 261 := 0x2B, 262 := 0x2B]
  }

  function CallAt(pos: u32, control: seq<Frame<u32>>): State<u32> {
    State(pos, [], control, NoLocals, CallCode())
  }

  lemma CodeKeys()
    ensures CallCode().Keys == {256, 257, 258, 259, 260, 261, 262}
  {
  }

  lemma CallOperand()
    ensures Read(CallCode(), 257, 4) == Some([1, 0, 0, 0])
  {
    var m := CallCode();
    hide Read;
    H.NothingStored(m, 261);
    assert [0][1..] == [];
    H.FirstByte(m, 260, [0]);
    assert [0, 0][1..] == [0] && [0, 0, 0][1..] == [0, 0] && [1, 0, 0, 0][1..] == [0, 0, 0];
    H.FirstByte(m, 259, [0, 0]);
    H.FirstByte(m, 258, [0, 0, 0]);
    H.FirstByte(m, 257, [1, 0, 0, 0]);
  }

  lemma CallBytes()
    ensures OpcodeByte(CALL) == 0x2A && OpcodeByte(RET) == 0x2B && StackIn(CALL) == 0 && StackIn(RET) == 0
    ensures DecodeOp(0x2A) == Some(CALL) && DecodeOp(0x2B) == Some(RET)
  {
    hide DecodeOp, DecodeCount;
    DecodeInvertsTable(CALL);
    DecodeInvertsTable(RET);
  }

  lemma CallDecodes()
    ensures F.Decode(CallAt(256, [])) == Some(F.Decoding(CALL, 262, 0, 261))
  {
    hide DecodeOp, SlotOp, Read;
    CallBytes();
    CallOperand();
    assert Fetch32([1, 0, 0, 0]) == 1;
  }

  lemma ReturnDecodes(control: seq<Frame<u32>>)
    ensures F.Decode(CallAt(262, control)) == Some(F.Decoding(RET, 0, 0, 263))
  {
    hide DecodeOp, SlotOp;
    CallBytes();
  }

  const CallFrame: Frame<u32> := Frame(261, NoLocals)

  /** The page the heap gets for the frame. */
  function CallPage(): Memory {
    CallCode() + map a | a in F.Block(4096, PAGE) :: 0
  }

  const FrameBytes: seq<u8> := Le32(261) + (Le32(0) + Le32(0))

  lemma FrameWritten(m: Memory)
    requires m == CallPage()
    ensures Write(m, 4104, FrameBytes).Some?
    ensures
      var w := Write(m, 4104, FrameBytes).value;
      && w.Keys == m.Keys && F.Within(CallCode(), w)
      && F.WordAt(w, 4104) == Some(261) && F.WordAt(w, 4108) == Some(0)
  {
    hide Write, Read, Le32, Fetch32;
    FetchInvertsStore32(261);
    FetchInvertsStore32(0);
    FrameRange();
    F.HiddenWrite(CallCode(), m, 4104, FrameBytes);
    F.FrameWords(Write(m, 4104, FrameBytes).value, 4104, 261, 0, 0);
  }

  lemma FrameRange()
    ensures F.Block(4104, 12) <= CallPage().Keys && F.Block(4104, 12) !! CallCode().Keys
  {
    hide F.Block;
    CodeKeys();
    forall a | a in F.Block(4104, 12) ensures a in CallPage() && a !in CallCode() {
      FH.BlockRange(4104, 12, a);
      FH.BlockRange(4096, PAGE, a);
    }
  }

  function CallService(j: nat): F.Service {
    var m := CallPage();
    FrameWritten(m);
    if j == 0 then F.Service(m, 4104) else F.Service(Write(m, 4104, FrameBytes).value, 0)
  }

  function RawAt(pos: u32, control: seq<u32>, m: Memory): F.Raw {
    F.Raw(pos, [], control, 0, m, CallCode().Keys)
  }

  /** The memory behind the call. */
  function CalledMemory(): Memory {
    CallService(1).mem
  }

  const FrameFreed: Arrangement := Arrangement(4096, 8192, [FreeSlot(4096, 8192)])

  const FrameHeld: Arrangement := Arrangement(4096, 8192, [LiveSlot(4096, 4120), FreeSlot(4120, 8192)])

  function CallTurn(j: nat): FH.Turn {
    if j == 0 then FH.Turn([Arrangement(0, 0, [])], [], FrameHeld)
    else if j == 1 then FH.Turn([FrameHeld], [], FrameHeld)
    else FH.Turn([FrameHeld, FrameFreed], [Freed(0)], FrameFreed)
  }

  /** Both machines go into the call. */
  lemma CallSteps(env: Env)
    ensures Step(env, CallAt(256, [])) == Running(CallAt(262, [CallFrame]))
    ensures F.RawStep(env, 4104, RawAt(256, [], CallPage())) == F.RawRunning(RawAt(262, [4104], CalledMemory()))
  {
    hide F.Decode, F.Within, F.Carried, F.RawStep, F.RawExec, F.RawEnter, F.Defined, Step, CallCode, CallPage;
    hide Resume, CalledMemory;
    var s, x := CallAt(256, []), RawAt(256, [], CallPage());
    CallDecodes();
    F.StepCarries(env, s);
    NothingPopped(s, x);
    F.FlowUnfolds(env, CALL, 262, [], 261, 4104, s, x);
    EntersFrame();
    F.RunningDefined(Step(env, s));
    PageHoldsCode();
    F.DecodesAlike(env, 4104, s, x);
  }

  lemma EntersFrame()
    ensures F.RawEnter(262, 261, 4104, RawAt(256, [], CallPage())) == F.RawRunning(RawAt(262, [4104], CalledMemory()))
    ensures Resume([], 261, Done(Core([], NoLocals, CallCode()), Enter(262))) == Running(CallAt(262, [CallFrame]))
  {
    hide Write, Le32, CallCode, CallPage;
    FrameWritten(CallPage());
  }

  lemma PageHoldsCode()
    ensures F.Within(CallCode(), CallPage())
  {
    hide F.Block;
    CodeKeys();
    forall a | a in CallCode() ensures a in CallPage() && CallPage()[a] == CallCode()[a] {
      FH.BlockRange(4096, PAGE, a);
    }
  }

  lemma LeavesFrame(m: Memory)
    requires F.WordAt(m, 4104) == Some(261) && F.WordAt(m, 4108) == Some(0)
    ensures F.RawLeave(RawAt(262, [4104], m)) == F.RawRunning(RawAt(261, [], m))
    ensures Resume([CallFrame], 263, Done(Core([], NoLocals, CallCode()), Leave)) == Running(CallAt(261, []))
  {
    hide F.WordAt, CallCode;
  }

  lemma CalledFrame()
    ensures F.WordAt(CalledMemory(), 4104) == Some(261) && F.WordAt(CalledMemory(), 4108) == Some(0)
    ensures F.Within(CallCode(), CalledMemory())
  {
    hide F.WordAt, CallCode, Write, Le32, CallPage, F.Within;
    FrameWritten(CallPage());
  }

  /** Popping nothing. */
  lemma NothingPopped(s: State<u32>, x: F.Raw)
    requires s.data == [] && x.data == []
    ensures s.data[..0] == [] && s.(data := s.data[0..]) == s && x.(data := s.data[0..]) == x
  {
  }

  /** Both machines return. */
  lemma ReturnSteps(env: Env)
    ensures Step(env, CallAt(262, [CallFrame])) == Running(CallAt(261, []))
    ensures F.RawStep(env, 0, RawAt(262, [4104], CalledMemory())) == F.RawRunning(RawAt(261, [], CalledMemory()))
  {
    hide F.Decode, F.Within, F.Carried, F.RawStep, F.RawExec, F.RawLeave, F.Defined, Step, CallCode, CalledMemory;
    hide Resume, F.WordAt;
    var s, x := CallAt(262, [CallFrame]), RawAt(262, [4104], CalledMemory());
    ReturnDecodes([CallFrame]);
    F.StepCarries(env, s);
    NothingPopped(s, x);
    CalledFrame();
    F.FlowUnfolds(env, RET, 0, [], 263, 0, s, x);
    LeavesFrame(CalledMemory());
    F.RunningDefined(Step(env, s));
    F.DecodesAlike(env, 0, s, x);
  }

  lemma FrameUnits()
    ensures Units(12) == 3 && AlignUp(24, PAGE) == PAGE
  {
  }

  /** The first request grows the heap by the page and takes the frame from its start. */
  lemma FrameHandedOver()
    ensures FH.HandsOver(Arrangement(0, 0, []), GrewAndAllocated(12, 4096), FrameHeld, 4104, 12)
  {
    hide Units, AlignUp;
    FrameUnits();
    assert Extended([], 4096, 8192) == [FreeSlot(4096, 8192)];
    assert Take([FreeSlot(4096, 8192)], 0, 3) == FrameHeld.slots;
  }

  /** There are no locals to free, only the frame. */
  lemma FrameGivenBack()
    ensures FH.Frees([FrameHeld, FrameFreed], [Freed(0)], [4104])
  {
    assert Release(FrameHeld.slots, 0) == [FreeSlot(4096, 8192)];
  }

  lemma CallNeeds(control: seq<Frame<u32>>)
    ensures F.Needs(CallAt(256, [])) == 12 && F.Needs(CallAt(262, control)) == 0
  {
    hide F.Decode;
    CallDecodes();
    ReturnDecodes(control);
  }

  /** The program has its code only, below the heap. */
  lemma CodeGivenAway(live: set<(int, int)>)
    ensures forall a :: a in CallCode() ==> FH.GivenAway(live, 4096, 8192, a)
  {
    CodeKeys();
  }

  lemma PageMapped()
    ensures forall a: u32 :: 4096 <= a < 8192 ==> a in CallPage() && a in CalledMemory()
  {
    hide F.Block, CallCode, Write, Le32;
    FrameWritten(CallPage());
    forall a: u32 | 4096 <= a < 8192 ensures a in CallPage() && a in CalledMemory() {
      FH.BlockRange(4096, PAGE, a);
    }
  }

  lemma CallStart()
    ensures FH.Backed(CallTurn(0).states, CallAt(256, []), RawAt(256, [], CallCode()))
  {
    hide CallCode, FH.Backed;
    FH.StartBacked([Arrangement(0, 0, [])], 256, [], CallCode(), CallCode().Keys);
    PageHoldsCode();
    F.SeesVisible(CallCode(), CallCode());
  }

  lemma CallServes()
    ensures FH.Serves(CallTurn(0), CallAt(256, []), RawAt(256, [], CallCode()), CallService(0))
  {
    hide FH.GivenAway, FH.HandsOver, CallCode, CallPage, F.Needs;
    CallNeeds([]);
    FrameHandedOver();
    CodeGivenAway(Live([]));
    PageMapped();
    PageHoldsCode();
  }

  lemma ReturnServes()
    ensures FH.Serves(CallTurn(1), CallAt(262, [CallFrame]), RawAt(262, [4104], CalledMemory()), CallService(1))
  {
    hide FH.GivenAway, CallCode, CalledMemory, F.Needs, Live;
    CallNeeds([CallFrame]);
    CodeGivenAway(Live(FrameHeld.slots));
    PageMapped();
    ServiceMemory();
  }

  lemma ServiceMemory()
    ensures CallService(1).mem == CalledMemory()
  {
  }

  lemma CallTurns(env: Env)
    ensures FH.TurnAt(env, CallTurn(0), CallTurn(1), CallService(0), Running(CallAt(256, [])),
                      F.RawRunning(RawAt(256, [], CallCode())))
  {
    hide FH.Serves, FH.Backed, FH.Blocks, FH.Pointers, F.RawStep, Step, CallCode, F.Decode, Runs.Upcoming;
    CallServes();
    CallDecodes();
    F.StepCarries(env, CallAt(256, []));
  }

  lemma ReturnTurns(env: Env)
    ensures FH.TurnAt(env, CallTurn(1), CallTurn(2), CallService(1), Running(CallAt(262, [CallFrame])),
                      F.RawRunning(RawAt(262, [4104], CalledMemory())))
  {
    hide FH.Serves, FH.Backed, FH.Blocks, FH.Pointers, FH.Frees, F.RawStep, Step, CallCode, F.Decode, Runs.Upcoming;
    hide CalledMemory;
    ReturnServes();
    ReturnDecodes([CallFrame]);
    F.StepCarries(env, CallAt(262, [CallFrame]));
    FrameGivenBack();
  }

  /** A call and its return over the empty heap, with any thunks, meet every hypothesis of the
      theorems about runs on blocks: the heap grows by a page, the frame takes its first slot and is
      given back. */
  lemma CallOverHeap(envs: nat -> Env)
    ensures
      var s, r := CallAt(256, []), RawAt(256, [], CallCode());
      && FH.Backed(CallTurn(0).states, s, r) && FH.AllTurns(envs, CallTurn, CallService, s, r, 2)
      && F.AllServed(envs, CallService, s, r, 2) && Runs.AtCall(s) && Runs.Inside(envs, s, 2)
      && Run(envs, s, 2) == Running(CallAt(261, []))
      && F.RawRun(envs, CallService, r, 2) == F.RawRunning(RawAt(261, [], CalledMemory()))
      && FH.Backed(CallTurn(2).states, CallAt(261, []), RawAt(261, [], CalledMemory()))
  {
    hide FH.TurnAt, FH.Backed, F.RawStep, Step, CallCode, CallPage, CalledMemory, CallTurn, F.Decode, Runs.Upcoming;
    hide F.AllServed, F.Served;
    var s, r := CallAt(256, []), RawAt(256, [], CallCode());
    CallStart();
    CallTurns(envs(0));
    CallSteps(envs(0));
    FirstService();
    FH.HeapStepRefines(envs(0), CallTurn(0), CallTurn(1), CallService(0), s, r);
    ReturnTurns(envs(1));
    ReturnSteps(envs(1));
    ServiceMemory();
    CallDecodes();
    F.StepCarries(envs(0), s);
    TwoSteps(envs, s, r);
    FH.HeapRunRefines(envs, CallTurn, CallService, s, r, 2);
  }

  lemma FirstService()
    ensures CallService(0) == F.Service(CallPage(), 4104) && CallService(1).block == 0
  {
    hide CallPage, Write;
  }

  lemma TwoSteps(envs: nat -> Env, s: State<u32>, r: F.Raw)
    ensures Run(envs, s, 0) == Running(s) && F.RawRun(envs, CallService, r, 0) == F.RawRunning(r)
    ensures Run(envs, s, 1) == Step(envs(0), s)
    ensures F.RawRun(envs, CallService, r, 1) == F.RawStep(envs(0), CallService(0).block, r.(mem := CallService(0).mem))
    ensures Step(envs(0), s).Running? ==> Run(envs, s, 2) == Step(envs(1), Step(envs(0), s).state)
    ensures
      var w := F.RawRun(envs, CallService, r, 1);
      w.RawRunning? ==>
        F.RawRun(envs, CallService, r, 2) ==
        F.RawStep(envs(1), CallService(1).block, w.state.(mem := CallService(1).mem))
  {
    hide Step, F.RawStep, CallService;
    assert Run(envs, s, 0 + 1) == Step(envs(0), s);
  }

  // ---------- Where the code departs from its intent ----------

  /** c: .const a; then c + c, with `a` a label at 5. */
  function Twice(): E.World {
    E.World([E.SymRef("a"), E.SymRef("c"), E.SymRef("c"), E.Binary(E.Add, 1, 2)], [0, 1, 1, 1], 1,
            [E.Entry("a", E.Label(0)), E.Entry("c", E.Constant(0))], [])
  }

  lemma TwiceValid()
    ensures Twice().Valid()
    ensures Twice().Resolve(E.Global, "a") == Some(E.Label(0)) && Twice().Resolve(E.Global, "c") == Some(E.Constant(0))
    ensures {} <= Twice().Ids() && {1} <= Twice().Ids() && {1, 0} <= Twice().Ids() && {2} <= Twice().Ids()
  {
    var w := Twice();
    assert w.ChildrenBelow(0) && w.ChildrenBelow(1) && w.ChildrenBelow(2) && w.ChildrenBelow(3);
    assert w.SymbolValid(w.globals[0].symbol) && w.SymbolValid(w.globals[1].symbol);
    assert w.globals[1..][0].name == "c" && "a" != "c" by {
      assert "a"[0] != "c"[0];
    }
    assert w.Has(0) && w.Has(1) && w.Has(2);
  }

  /** The sum means 10, but the evaluator reports an error: the constant's own reference is met
      a second time. */
  lemma SecondUseFails()
    ensures Twice().Valid() && E.Denote(Twice(), E.Global, [5], 3, {}) == E.Means(10)
    ensures E.EvalOnce(Twice(), E.Global, [5], 3, {}) == None
  {
    TwiceValid();
    var w := Twice();
    assert E.Denote(w, E.Global, [5], 1, {}) == E.Means(5) by {
      assert E.Denote(w, E.Global, [5], 0, {} + {1}) == E.Means(5);
    }
    assert E.Denote(w, E.Global, [5], 2, {}) == E.Means(5) by {
      assert E.Denote(w, E.Global, [5], 0, {} + {2}) == E.Means(5);
    }
    var first := E.EvalOnce(w, E.Global, [5], 1, {});
    assert first == Some(E.Evaluated(5, {1, 0})) by {
      assert {} + {1} == {1} && {1} + {0} == {1, 0};
      assert E.EvalOnce(w, E.Global, [5], 0, {1}) == Some(E.Evaluated(5, {1, 0}));
    }
    assert E.EvalOnce(w, E.Global, [5], 2, {1, 0}) == None;
  }

  /** A page whose first two units are free and whose rest is in use. */
  function HalfUsed(): seq<Slot> {
    [FreeSlot(4096, 4112), LiveSlot(4112, 8192)]
  }

  lemma RoundedSizes(size: u32)
    requires size == 8 || size == 4072
    ensures Units(size) == if size == 8 then 2 else 510
  {
  }

  lemma OnePage(bytes: int)
    requires 0 < bytes <= PAGE
    ensures AlignUp(bytes, PAGE) == PAGE
  {
  }

  lemma HalfUsedUnits()
    ensures Units(8) == 2 && Units(4072) == 510 && AlignUp(2 * UNIT, PAGE) == PAGE
  {
    hide Units, AlignUp;
    RoundedSizes(8);
    RoundedSizes(4072);
    OnePage(2 * UNIT);
  }

  /** Three calls lead there: allocate 8 and 4072 bytes, then free the first. */
  lemma HalfUsedReached()
    ensures
      var calls := [GrewAndAllocated(8, 4096), Allocated(4072), Freed(0)];
      var one, two := [LiveSlot(4096, 4112), FreeSlot(4112, 8192)], [LiveSlot(4096, 4112), LiveSlot(4112, 8192)];
      var states := [Arrangement(0, 0, []), Arrangement(4096, 8192, one), Arrangement(4096, 8192, two),
                     Arrangement(4096, 8192, HalfUsed())];
      IsRun(states, calls)
  {
    var one, two := [LiveSlot(4096, 4112), FreeSlot(4112, 8192)], [LiveSlot(4096, 4112), LiveSlot(4112, 8192)];
    HalfUsedUnits();
    assert Extended([], 4096, 8192) == [FreeSlot(4096, 8192)];
    assert Take([FreeSlot(4096, 8192)], 0, 2) == one;
    assert FirstFit(one, 510, 1) == At(1) && FirstFit(one, 510, 0) == At(1);
    assert Take(one, 1, 510) == two;
    assert Release(two, 0) == HalfUsed();
  }

  /** A request that does not fit there grows the arena by a page, which leaves words that describe
      no heap with that block in use. */
  lemma GrowthBreaksHeap(units: nat)
    requires 2 < units <= 512
    ensures FirstFit(HalfUsed(), units, 0).NoFit?
    ensures HeapShape(HalfUsed(), 4096, 8192, map[4096 := 4112, 4112 := 8192], map[4096 := 0], 4096)
    ensures !Describes(4096, 12288, map[4096 := 8192, 4112 := 8192], map[4096 := 0], 4096, Live(HalfUsed()))
  {
    var slots := HalfUsed();
    assert FreeList(slots) == [4096] by {
      assert slots[..1] == [slots[0]];
      SingleList(slots[0]);
    }
    assert AlignUp(units * UNIT, PAGE) == PAGE;
    var words: map<int, int> := map[4096 := 4112, 4112 := 8192];
    assert words[4096 := 8192] == map[4096 := 8192, 4112 := 8192];
    hide Live;
    GrowthKeepsLive(slots, 4096, 8192, 12288, words, map[4096 := 0], 4096, units,
                    map[4096 := 8192, 4112 := 8192], map[4096 := 0], 4096);
    assert slots[0].FreeSlot?;
    assert !slots[1].LostSlot? && LastFree(slots) == 0;
  }

  /** The largest request gets a block with no room at all. */
  lemma LargestRequestGetsNothing()
    ensures Units(0xFFFF_FFFF) == 1
  {
    assert AlignWord(0xFFFF_FFFF, UNIT) == 0;
  }

  /** A stream that just fills the buffer loses its last character. */
  lemma FullBufferLosesOne(stream: seq<char>)
    requires |stream| == 1024
    ensures Printer.Delivered(stream) == stream[..1023]
  {
    Printer.ShortDelivered(stream[..1023]);
  }

  /** start: .defb 7; .resw 0; .defs "": the padding in front of the reservation is never emitted. */
  function Padded(): Program {
    Program([Def(1, [0]), Reserve(4, 1), Text([])],
            E.World([E.Literal(7), E.Literal(0)], [0, 1], 0, [E.Entry("start", E.Label(0))], []), [], 0, E.Global)
  }

  function PaddedPlacement(): Placement {
    Placement(4, 4, E.Global, [0, 4, 4], [0, 3, 0], [0, 0, 0], {})
  }

  lemma PaddedWorld()
    ensures Padded().world.Valid()
  {
    assert Padded().world.ChildrenBelow(0) && Padded().world.ChildrenBelow(1);
  }

  lemma PaddedScopes()
    ensures ScopeAfter(Padded().insns, 3, E.Global) == E.Global
  {
    assert ScopeAfter(Padded().insns, 1, E.Global) == E.Global;
    assert ScopeAfter(Padded().insns, 2, E.Global) == E.Global;
  }

  lemma PaddedValid()
    ensures Padded().Valid()
  {
    hide E.World.Valid, ScopeAfter;
    var p := Padded();
    PaddedWorld();
    PaddedScopes();
    assert p.RootValid(0, 0) && p.RootValid(1, 1);
    assert p.InsnValid(0) && p.InsnValid(1) && p.InsnValid(2);
  }

  function PaddedFront(i: nat): Placement
    requires i <= 3
  {
    var l := PaddedPlacement();
    var next := if i == 0 then 0 else if i == 1 then 1 else 4;
    Placement(next, next - (if i == 2 then 3 else 0), E.Global, l.addrs[..i], l.aligns[..i], l.counts[..i], {})
  }

  lemma AlignedFromOne(x: u32)
    requires x == 1
    ensures AlignWord(x, 4) == 4 == AlignUp(x, 4)
  {
  }

  lemma LiteralValue(w: E.World, addrs: seq<u32>, e: nat)
    requires w.Valid() && e < |w.nodes| && w.nodes[e].Literal?
    ensures E.EvalOnce(w, E.Global, addrs, e, {}) == Some(E.Evaluated(w.nodes[e].value, {}))
  {
  }

  /** What the third to last fields of `PaddedFront(i + 1)` add to those of `PaddedFront(i)`. */
  lemma PaddedFronts(i: nat)
    requires i < 3
    ensures Padded().Valid() && i < |Padded().insns| && PlacementOf(Padded(), i, PaddedFront(i))
    ensures forall scope :: NextScope(scope, Padded().insns[i]) == scope
    ensures KnownAmount(Padded(), i, 0)
    ensures Allocates(Padded().insns[i]) <==> i != 1
    ensures
      var l, start: u32 := PaddedFront(i), if i == 0 then 0 else 4;
      var next: u32 := if i == 0 then 1 else 4;
      && l.next == (if i == 0 then 0 else if i == 1 then 1 else 4)
      && PaddedFront(i + 1) == Placement(next, if i == 1 then l.bss else next, l.scope, l.addrs + [start],
                                         l.aligns + [start - l.next], l.counts + [0], l.used)
  {
    hide Program.Valid;
    PaddedValid();
    var l := PaddedPlacement();
    assert l.addrs[..i + 1] == l.addrs[..i] + [l.addrs[i]];
    assert l.aligns[..i + 1] == l.aligns[..i] + [l.aligns[i]] && l.counts[..i + 1] == l.counts[..i] + [0];
  }

  lemma PaddedStep(i: nat)
    requires i < 3
    ensures Padded().Valid() && i < |Padded().insns| && PlacementOf(Padded(), i, PaddedFront(i))
    ensures Place(Padded(), PaddedFront(i), i) == Some(PaddedFront(i + 1))
  {
    hide *;
    PaddedFronts(i);
    PaddedInsns(i);
    Unaligned(PaddedFront(i).next);
    AlignedFromOne(1);
    PlaceKnown(Padded(), PaddedFront(i), i, if i == 0 then 0 else 4, 0);
    SmallWraps();
  }

  lemma {:induction false} PaddedFrontPlaced(i: nat)
    requires i <= 3
    ensures Padded().Valid() && Pass1(Padded(), i) == Some(PaddedFront(i))
  {
    hide Place, Program.Valid;
    PaddedValid();
    if i > 0 {
      hide Pass1;
      PaddedFrontPlaced(i - 1);
      Pass1Unfolds(Padded(), i - 1);
      hide Padded, PaddedFront;
      PaddedStep(i - 1);
    }
  }

  lemma PaddedInsns(i: nat)
    requires i < 3
    ensures |Padded().insns| == |PaddedPlacement().counts| == 3 && PaddedPlacement().counts[i] == 0
    ensures Padded().startVa == 0
    ensures Aligned(Padded().insns[i]) == if i == 1 then 4 else 1
    ensures SizeOf(Padded().insns[i], 0) == if i == 0 then 1 else 0
  {
  }

  lemma PaddedExtents()
    ensures |Padded().insns| == |PaddedPlacement().counts| == 3
    ensures Extent(Padded(), PaddedPlacement().counts, 3) == 4
  {
    hide *;
    PaddedInsns(0);
    PaddedInsns(1);
    PaddedInsns(2);
    var p, c := Padded(), PaddedPlacement().counts;
    ExtentZero(p, c);
    ExtentNext(p, c, 0);
    ExtentNext(p, c, 1);
    ExtentNext(p, c, 2);
    Unaligned(0);
    AlignedFromOne(1);
    Unaligned(4);
  }

  /** The header promises four bytes, the body has one. */
  lemma BodyFallsShort()
    ensures Emits(Padded(), PaddedPlacement()) && CutInsidePadding(Padded(), PaddedPlacement())
    ensures Body(Padded(), PaddedPlacement()) == [7] && PaddedPlacement().bss - Padded().startVa == 4
  {
    hide Pass1, Extent, Program.Valid;
    PaddedFrontPlaced(3);
    PaddedExtents();
    var p, l := Padded(), PaddedPlacement();
    assert l.addrs[..3] == l.addrs && l.aligns[..3] == l.aligns && l.counts[..3] == l.counts;
    assert CutFrom(l, 1) == 1;
    PaddedBytes();
    assert Pass2(p, l, 0) == Some(Emission([], E.Global, {}));
    assert Allocates(p.insns[2]);
  }

  lemma PaddedBytes()
    ensures Padded().Valid() && PlacementOf(Padded(), 3, PaddedPlacement())
    ensures EmitOne(Padded(), PaddedPlacement(), 0, E.Global, {}) == Some(Emitted([7], {}))
  {
    hide Program.Valid, E.EvalOnce;
    PaddedValid();
    var p, l := Padded(), PaddedPlacement();
    LiteralValue(p.world, l.addrs, 0);
    var items: seq<nat>, bytes: seq<u8> := [0], [7];
    assert items[..0] == [] && [] + bytes == bytes;
    assert DataBytes(1, 7) == bytes;
    assert EmitItems(p, E.Global, l.addrs, 1, items[..0], {}) == Some(Emitted([], {}));
    assert EmitItems(p, E.Global, l.addrs, 1, items, {}) == Some(Emitted(bytes, {}));
  }

  /** The assembler writes this program's image, and the loader refuses it. */
  lemma ShortImageRefused(base: u32, thunks: seq<ThunkRecord>)
    ensures Padded().Valid() && StartIsLabel(Padded())
    ensures Generate(Padded()).Some? && Load(Generate(Padded()).value, base, thunks) == None
  {
    hide Pass1, Pass2, Extent, Program.Valid, Load, ImageBytes, Cut;
    BodyFallsShort();
    var p, l := Padded(), PaddedPlacement();
    assert StartLocation(p) == Some(0);
    assert Generate(p) == Some(ImageBytes(p, l, 0, Body(p, l)));
    LoadsWhatWasWritten(p, l, 0, Generate(p).value, base, thunks);
  }

  /** LDC.SB accepts 128 and loads minus 128. */
  lemma SignedByteFlips(addr: u32, next: u32)
    ensures EncodeOperand(LDC_SB, 128, addr).Some?
    ensures Immediate(LDC_SB, EncodeOperand(LDC_SB, 128, addr).value, next) == 0xFFFF_FF80
  {
  }

  /** start: LDC.UB @@k; .sub, never closed; @@k: .const 7. Both passes read the reference inside the
      subroutine, where the parser did not see it. */
  function Unclosed(): Program {
    Program([Mach(LDC_UB, 1), SubStart(0), ConstDef],
            E.World([E.Literal(7), E.SymRef("@@k")], [0, 1], 1, [E.Entry("start", E.Label(0))],
                    [[E.Entry("@@k", E.Constant(0))]]),
            [], 0, E.Local(0))
  }

  lemma UnclosedWorld()
    ensures Unclosed().world.Valid()
  {
    var w := Unclosed().world;
    assert w.ChildrenBelow(0) && w.ChildrenBelow(1);
    assert w.SymbolValid(w.globals[0].symbol) && w.SymbolValid(w.subs[0][0].symbol);
    assert w.TableValid(w.globals) && w.TableValid(w.subs[0]);
  }

  lemma UnclosedScopes()
    ensures forall i :: 1 < i <= 3 ==> ScopeAfter(Unclosed().insns, i, E.Global) == E.Local(0)
    ensures ScopeAfter(Unclosed().insns, 1, E.Global) == E.Global
    ensures ScopeAfter(Unclosed().insns, 1, E.Local(0)) == E.Local(0)
  {
    assert ScopeAfter(Unclosed().insns, 1, E.Global) == E.Global;
    assert ScopeAfter(Unclosed().insns, 2, E.Global) == E.Local(0);
    assert ScopeAfter(Unclosed().insns, 3, E.Global) == E.Local(0);
  }

  lemma LoadByteBytes()
    ensures OperandBytes(LDC_UB) == 1 && OpcodeByte(LDC_UB) == 0x15
    ensures EncodeOperand(LDC_UB, 7, 0) == Some([7])
  {
  }

  lemma UnclosedValid()
    ensures Unclosed().Valid()
  {
    hide E.World.Valid, ScopeAfter, OperandBytes;
    var p := Unclosed();
    LoadByteBytes();
    UnclosedWorld();
    UnclosedScopes();
    assert p.RootValid(0, 1);
    assert p.InsnValid(0) && p.InsnValid(1) && p.InsnValid(2);
  }

  /** The reference finds nothing where the parser stood, and the subroutine's constant where the
      passes stand. */
  lemma UnclosedScopesDiffer(addrs: seq<u32>)
    ensures Unclosed().Valid()
    ensures ScopeAfter(Unclosed().insns, 1, E.Global) == E.Global
    ensures ScopeAfter(Unclosed().insns, 1, Unclosed().entryScope) == E.Local(0)
    ensures E.EvalOnce(Unclosed().world, E.Global, addrs, 1, {}) == None
    ensures E.EvalOnce(Unclosed().world, E.Local(0), addrs, 1, {}) == Some(E.Evaluated(7, {1}))
  {
    UnclosedScopes();
    UnclosedValid();
    var w := Unclosed().world;
    assert "start" != "@@k" by {
      assert "start"[0] != "@@k"[0];
    }
    assert w.globals[1..] == [];
    assert w.Resolve(E.Global, "@@k") == None && w.Resolve(E.Local(0), "@@k") == Some(E.Constant(0));
    assert w.Has(1) && {} + {1} == {1};
    assert E.EvalOnce(w, E.Local(0), addrs, 0, {1}) == Some(E.Evaluated(7, {1}));
  }

  function UnclosedPlacement(): Placement {
    Placement(2, 2, E.Local(0), [0, 2, 2], [0, 0, 0], [0, 0, 0], {})
  }

  function UnclosedFront(i: nat): Placement
    requires i <= 3
  {
    var l, next := UnclosedPlacement(), if i == 0 then 0 else 2;
    Placement(next, next, E.Local(0), l.addrs[..i], l.aligns[..i], l.counts[..i], {})
  }

  lemma EmptyFacts(p: Program, i: nat)
    requires i < |p.insns| && (p.insns[i].SubStart? || p.insns[i].SubEnd? || p.insns[i].ConstDef?)
    ensures KnownAmount(p, i, 0) && !Allocates(p.insns[i])
    ensures Aligned(p.insns[i]) == 1 && SizeOf(p.insns[i], 0) == 0
  {
  }

  lemma SameWrap(x: u32)
    ensures Wrap(x) == x
  {
  }

  /** A directive without bytes is placed at the running address. */
  lemma PlaceEmpty(p: Program, l: Placement, i: nat)
    requires p.Valid() && i < |p.insns| && PlacementOf(p, i, l)
    requires p.insns[i].SubStart? || p.insns[i].SubEnd? || p.insns[i].ConstDef?
    ensures Place(p, l, i) ==
      Some(Placement(l.next, l.bss, NextScope(l.scope, p.insns[i]), l.addrs + [l.next], l.aligns + [0],
                     l.counts + [0], l.used))
  {
    hide *;
    EmptyFacts(p, i);
    Unaligned(l.next);
    SmallWraps();
    SameWrap(l.next);
    PlaceKnown(p, l, i, l.next, 0);
  }

  /** What each instruction adds to the placement. */
  lemma UnclosedFronts(i: nat)
    requires i < 3
    ensures Unclosed().Valid() && i < |Unclosed().insns| && PlacementOf(Unclosed(), i, UnclosedFront(i))
    ensures i == 0 ==> Unclosed().insns[i] == Mach(LDC_UB, 1)
    ensures i > 0 ==> Unclosed().insns[i].SubStart? || Unclosed().insns[i].ConstDef?
    ensures NextScope(E.Local(0), Unclosed().insns[i]) == E.Local(0)
    ensures
      var l, next := UnclosedFront(i), 2;
      && l.next == l.bss == (if i == 0 then 0 else 2) && l.scope == E.Local(0)
      && UnclosedFront(i + 1) == Placement(next, next, E.Local(0), l.addrs + [l.next], l.aligns + [0],
                                           l.counts + [0], l.used)
  {
    hide Program.Valid;
    UnclosedValid();
    var l := UnclosedPlacement();
    assert l.addrs[..i + 1] == l.addrs[..i] + [UnclosedFront(i).next];
    assert l.aligns[..i + 1] == l.aligns[..i] + [0] && l.counts[..i + 1] == l.counts[..i] + [0];
  }

  lemma UnclosedStep(i: nat)
    requires i < 3
    ensures Unclosed().Valid() && i < |Unclosed().insns| && PlacementOf(Unclosed(), i, UnclosedFront(i))
    ensures Place(Unclosed(), UnclosedFront(i), i) == Some(UnclosedFront(i + 1))
  {
    hide *;
    UnclosedFronts(i);
    LoadByteBytes();
    SameWrap(2);
    if i == 0 {
      PlaceMachine(Unclosed(), UnclosedFront(0), 0);
    } else {
      PlaceEmpty(Unclosed(), UnclosedFront(i), i);
    }
  }

  lemma {:induction false} UnclosedFrontPlaced(i: nat)
    requires i <= 3
    ensures Unclosed().Valid() && Pass1(Unclosed(), i) == Some(UnclosedFront(i))
  {
    hide Place, Program.Valid;
    UnclosedValid();
    if i > 0 {
      hide Pass1;
      UnclosedFrontPlaced(i - 1);
      Pass1Unfolds(Unclosed(), i - 1);
      hide Unclosed, UnclosedFront;
      UnclosedStep(i - 1);
    }
  }

  lemma UnclosedBytes()
    ensures Unclosed().Valid() && PlacementOf(Unclosed(), 3, UnclosedPlacement())
    ensures EmitOne(Unclosed(), UnclosedPlacement(), 0, E.Local(0), {}) == Some(Emitted([0x15, 7], {1}))
  {
    hide Program.Valid, E.EvalOnce, OperandBytes, OpcodeByte, EncodeOperand;
    LoadByteBytes();
    UnclosedScopesDiffer(UnclosedPlacement().addrs);
    var opcode, operand: seq<u8> := [0x15], [7];
    assert opcode + operand == [0x15, 7];
  }

  /** So the image is written, with the subroutine's 7 in an instruction outside it. */
  lemma UnclosedAssembles()
    ensures Unclosed().Valid() && StartIsLabel(Unclosed()) && Generate(Unclosed()).Some?
    ensures Pass2(Unclosed(), UnclosedPlacement(), 1) == Some(Emission([0x15, 7], E.Local(0), {1}))
  {
    hide Pass1, EmitOne, Program.Valid, ImageBytes;
    UnclosedFrontPlaced(3);
    UnclosedBytes();
    var p, l := Unclosed(), UnclosedPlacement();
    assert l.addrs[..3] == l.addrs && l.aligns[..3] == l.aligns && l.counts[..3] == l.counts;
    assert CutFrom(l, 1) == 1;
    assert Pass2(p, l, 0) == Some(Emission([], E.Local(0), {}));
    var bytes: seq<u8> := [0x15, 7];
    assert [] + bytes == bytes;
    assert StartLocation(p) == Some(0);
  }
}
