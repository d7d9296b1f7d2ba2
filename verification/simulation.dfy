/** A semantics of the instruction list itself, with list positions for addresses, and the proof
    that the byte machine running the emitted image follows it step for step. */
module Simulation {
  import opened Words
  import opened Opcodes
  import E = Expressions
  import opened Machine
  import opened Layout
  import opened Agreement

  // ---------- The source machine ----------

  /** What the operand expression of machine instruction `i` denotes once all labels are placed. */
  function OperandMeaning(p: Program, l: Placement, i: nat): E.Meaning
    requires p.Valid() && i < |p.insns| && p.insns[i].Mach? && TakesExpression(p.insns[i].op)
  {
    ScopesValid(p, |p.insns|, E.Global);
    ScopesValid(p, i + 1, p.entryScope);
    assert p.InsnValid(i);
    E.Denote(p.world, ScopeAfter(p.insns, i + 1, p.entryScope), l.addrs, p.insns[i].operand, {})
  }

  /** What the operand of machine instruction `i` stands for; a native id keeps its low 16 bits. */
  function OperandValue(p: Program, l: Placement, i: nat): u32
    requires p.Valid() && i < |p.insns| && p.insns[i].Mach?
  {
    if TakesExpression(p.insns[i].op) then
      var m := OperandMeaning(p, l, i);
      if m.Means? then m.value else 0
    else if p.insns[i].op == NCALL then p.insns[i].operand % 0x1_0000
    else 0
  }

  predicate Relative(op: Op) {
    op == LEA || op == CALL || op == BR || op == BR_T || op == BR_F
  }

  /** The operand as the program means it: a loaded address for label operands, a sign-extended
      byte for LDC.SB, the plain value otherwise. */
  function Meant(p: Program, l: Placement, base: u32, i: nat): u32
    requires p.Valid() && i < |p.insns| && p.insns[i].Mach?
  {
    var op, v := p.insns[i].op, OperandValue(p, l, i);
    if Relative(op) then Wrap(base + v - p.startVa)
    else if op == LDC_SB then SignExtend8(v % 0x100)
    else v
  }

  /** Skips directives that occupy no bytes. */
  function Settle(p: Program, l: Placement, j: nat): (k: nat)
    requires Covers(p, l)
    ensures j <= |p.insns| ==> j <= k <= |p.insns|
    decreases |p.insns| - j
  {
    if j < |p.insns| && l.aligns[j] == 0 && SizeOf(p.insns[j], l.counts[j]) == 0 then Settle(p, l, j + 1) else j
  }

  predicate Covers(p: Program, l: Placement) {
    |l.addrs| == |l.aligns| == |l.counts| == |p.insns|
  }

  predicate AtMachine(p: Program, l: Placement, j: nat)
    requires Covers(p, l)
  {
    Settle(p, l, j) < |p.insns| && p.insns[Settle(p, l, j)].Mach?
  }

  /** The machine instruction placed at virtual address `v`. */
  function FindFrom(p: Program, l: Placement, v: u32, j: nat): (r: Option<nat>)
    requires Covers(p, l)
    ensures r.Some? ==> r.value < |p.insns| && p.insns[r.value].Mach? && l.addrs[r.value] == v
    ensures r.None? ==> forall k :: j <= k < |p.insns| && p.insns[k].Mach? ==> l.addrs[k] != v
    decreases |p.insns| - j
  {
    if j >= |p.insns| then None
    else if p.insns[j].Mach? && l.addrs[j] == v then Some(j)
    else FindFrom(p, l, v, j + 1)
  }

  function Find(p: Program, l: Placement, v: u32): (r: Option<nat>)
    requires Covers(p, l)
    ensures r.Some? ==> r.value < |p.insns| && p.insns[r.value].Mach? && l.addrs[r.value] == v
  {
    FindFrom(p, l, v, 0)
  }

  // Lost: control left the listed machine instructions.
  datatype SourceOutcome = Ran(outcome: Outcome<nat>) | Lost

  function SourceResume(p: Program, l: Placement, base: u32, control: seq<Frame<nat>>,
                        next: nat, effect: Effect): SourceOutcome
    requires Covers(p, l)
  {
    match effect
    case Stop(halt) => Ran(Halted(halt))
    case Done(core, flow) =>
      match flow
      case Fall => Ran(Running(State(next, core.data, control, core.locals, core.mem)))
      case Goto(target) =>
        (match Find(p, l, Wrap(target - base + p.startVa))
         case None => Lost
         case Some(j) => Ran(Running(State(j, core.data, control, core.locals, core.mem))))
      case Enter(target) =>
        if |control| >= CONTROL_CAPACITY then Ran(Halted(Panic(StackOverflow))) else
        (match Find(p, l, Wrap(target - base + p.startVa))
         case None => Lost
         case Some(j) => Ran(Running(State(j, core.data, [Frame(next, core.locals)] + control, NoLocals, core.mem))))
      case Leave =>
        if |control| == 0 then Ran(Halted(Panic(StackUnderflow)))
        else Ran(Running(State(control[0].returnTo, core.data, control[1..], control[0].locals, core.mem)))
  }

  function SourceStep(p: Program, l: Placement, base: u32, env: Env, s: State<nat>): SourceOutcome
    requires p.Valid() && Covers(p, l)
  {
    if !AtMachine(p, l, s.pos) then Lost else
    var i := Settle(p, l, s.pos);
    var op := p.insns[i].op;
    var n := StackIn(op);
    if n > |s.data| then Ran(Halted(Panic(StackUnderflow)))
    else SourceResume(p, l, base, s.control, i + 1,
                      Exec(env, op, Meant(p, l, base, i), s.data[..n], Core(s.data[n..], s.locals, s.mem)))
  }

  function SourceRun(p: Program, l: Placement, base: u32, envs: nat -> Env, s: State<nat>, k: nat): SourceOutcome
    requires p.Valid() && Covers(p, l)
  {
    if k == 0 then Ran(Running(s)) else
    match SourceRun(p, l, base, envs, s, k - 1)
    case Ran(Running(t)) => SourceStep(p, l, base, envs(k - 1), t)
    case other => other
  }

  lemma {:induction false} RanBefore(p: Program, l: Placement, base: u32, envs: nat -> Env, s: State<nat>,
                                     j: nat, k: nat)
    requires p.Valid() && Covers(p, l) && j <= k && SourceRun(p, l, base, envs, s, k).Ran?
    ensures SourceRun(p, l, base, envs, s, j).Ran?
    decreases k
  {
    hide SourceStep;
    if j < k {
      RanBefore(p, l, base, envs, s, j, k - 1);
    }
  }

  // ---------- Lowering positions to addresses ----------

  function Address(p: Program, l: Placement, base: u32, j: nat): u32
    requires Covers(p, l)
  {
    if j <= |p.insns| then Wrap(base + Extent(p, l.counts, j) - p.startVa) else 0
  }

  function LowerFrames(p: Program, l: Placement, base: u32, control: seq<Frame<nat>>): (r: seq<Frame<u32>>)
    requires Covers(p, l)
    ensures |r| == |control|
  {
    if |control| == 0 then []
    else [Frame(Address(p, l, base, control[0].returnTo), control[0].locals)] + LowerFrames(p, l, base, control[1..])
  }

  function Lower(p: Program, l: Placement, base: u32, s: State<nat>): State<u32>
    requires Covers(p, l)
  {
    State(Address(p, l, base, s.pos), s.data, LowerFrames(p, l, base, s.control), s.locals, s.mem)
  }

  function LowerOutcome(p: Program, l: Placement, base: u32, o: Outcome<nat>): Outcome<u32>
    requires Covers(p, l)
  {
    match o
    case Running(s) => Running(Lower(p, l, base, s))
    case Halted(h) => Halted(h)
  }

  /** The bytes pass 2 writes for machine instruction `i`. */
  function InlineOperand(p: Program, l: Placement, i: nat): seq<u8>
    requires p.Valid() && Covers(p, l) && i < |p.insns| && p.insns[i].Mach?
  {
    var op := p.insns[i].op;
    if TakesExpression(op) then
      var b := EncodeOperand(op, OperandValue(p, l, i), l.addrs[i]);
      if b.Some? then b.value else []
    else if op == NCALL then Le16(p.insns[i].operand % 0x1_0000)
    else []
  }

  function MachineBytes(p: Program, l: Placement, i: nat): seq<u8>
    requires p.Valid() && Covers(p, l) && i < |p.insns| && p.insns[i].Mach?
  {
    [OpcodeByte(p.insns[i].op)] + InlineOperand(p, l, i)
  }

  /** Memory still holds the emitted bytes of every machine instruction. */
  ghost predicate CodeIntact(p: Program, l: Placement, base: u32, mem: Memory)
    requires p.Valid() && Covers(p, l)
  {
    forall i :: 0 <= i < |p.insns| && p.insns[i].Mach? ==>
      Read(mem, Address(p, l, base, i), |MachineBytes(p, l, i)|) == Some(MachineBytes(p, l, i))
  }

  // ---------- One instruction ----------

  lemma {:induction false} SettleExtent(p: Program, l: Placement, j: nat)
    requires Laid(p, l) && j <= |p.insns|
    ensures Extent(p, l.counts, Settle(p, l, j)) == Extent(p, l.counts, j)
    decreases |p.insns| - j
  {
    hide AlignUp, SizeOf;
    if j < |p.insns| && l.aligns[j] == 0 && SizeOf(p.insns[j], l.counts[j]) == 0 {
      PlacedAtExtent(p, l, j);
      SettleExtent(p, l, j + 1);
    }
  }

  lemma MachineUnpadded(p: Program, l: Placement, i: nat)
    requires Laid(p, l) && i < |p.insns| && p.insns[i].Mach?
    ensures l.addrs[i] == Extent(p, l.counts, i) && l.aligns[i] == 0
    ensures Extent(p, l.counts, i + 1) == l.addrs[i] + 1 + OperandBytes(p.insns[i].op)
  {
    hide OperandBytes;
    PlacedAtExtent(p, l, i);
  }

  /** The bytes emitted for a machine instruction: the opcode byte and the encoded meaning of its
      operand, as many as pass 1 reserved. */
  lemma EmitsMachineBytes(p: Program, l: Placement, i: nat, used: set<nat>)
    requires p.Valid() && PlacementOf(p, |p.insns|, l) && i < |p.insns| && p.insns[i].Mach?
    requires used <= p.world.Ids() && p.world.ScopeValid(ScopeAfter(p.insns, i + 1, p.entryScope))
    requires EmitOne(p, l, i, ScopeAfter(p.insns, i + 1, p.entryScope), used).Some?
    ensures EmitOne(p, l, i, ScopeAfter(p.insns, i + 1, p.entryScope), used).value.bytes == MachineBytes(p, l, i)
    ensures |InlineOperand(p, l, i)| == OperandBytes(p.insns[i].op)
    ensures TakesExpression(p.insns[i].op) ==>
      OperandMeaning(p, l, i).Means? && EncodeOperand(p.insns[i].op, OperandValue(p, l, i), l.addrs[i]).Some?
  {
    hide E.EvalOnce, E.Denote, EncodeOperand, OpcodeByte, OperandBytes;
    assert p.InsnValid(i);
    PlainOperands(p.insns[i].op);
    var scope := ScopeAfter(p.insns, i + 1, p.entryScope);
    if TakesExpression(p.insns[i].op) {
      E.EvaluationIsMeaning(p.world, scope, l.addrs, p.insns[i].operand, used);
    }
  }

  /** In an assembled program every machine instruction was emitted, whole and encodable. */
  lemma MachineEmitted(p: Program, l: Placement, i: nat)
    requires Emits(p, l) && i < |p.insns| && p.insns[i].Mach?
    ensures |InlineOperand(p, l, i)| == OperandBytes(p.insns[i].op)
    ensures TakesExpression(p.insns[i].op) ==>
      OperandMeaning(p, l, i).Means? && EncodeOperand(p.insns[i].op, OperandValue(p, l, i), l.addrs[i]).Some?
    ensures
      var from := l.addrs[i] - p.startVa;
      0 <= from <= from + |MachineBytes(p, l, i)| <= |Body(p, l)|
      && Body(p, l)[from..from + |MachineBytes(p, l, i)|] == MachineBytes(p, l, i)
  {
    hide EmitOne, MachineBytes, InlineOperand, OperandBytes, EncodeOperand, OperandMeaning, OperandValue, ScopeAfter;
    hide Extent, Pass1;
    MachineBeforeCut(p, l, i);
    BytesAtAddress(p, l, i, Cut(l));
    EmitsMachineBytes(p, l, i, Pass2(p, l, i).value.used);
    MachineUnpadded(p, l, i);
  }

  /** The byte machine reads back what was encoded: at any load base the operand fetched from the
      emitted bytes is the meant one, displacements included. */
  lemma OperandRoundTrip(p: Program, l: Placement, base: u32, i: nat)
    requires Emits(p, l) && i < |p.insns| && p.insns[i].Mach?
    ensures |InlineOperand(p, l, i)| == OperandBytes(p.insns[i].op)
    ensures Immediate(p.insns[i].op, InlineOperand(p, l, i), Address(p, l, base, i + 1)) == Meant(p, l, base, i)
  {
    hide OperandValue, OperandMeaning, Extent, Immediate, EncodeOperand, Relative, OperandBytes;
    hide TakesExpression, Pass1, Pass2;
    MachineEmitted(p, l, i);
    MachineUnpadded(p, l, i);
    var op, v, addr := p.insns[i].op, OperandValue(p, l, i), l.addrs[i];
    if TakesExpression(op) {
      EncodingRoundTrip(op, v, addr, base, p.startVa);
    } else {
      PlainOperandRoundTrip(p, l, base, i);
    }
  }

  lemma PlainOperandRoundTrip(p: Program, l: Placement, base: u32, i: nat)
    requires p.Valid() && Covers(p, l) && i < |p.insns| && p.insns[i].Mach?
    requires !TakesExpression(p.insns[i].op)
    ensures |InlineOperand(p, l, i)| == OperandBytes(p.insns[i].op)
    ensures Immediate(p.insns[i].op, InlineOperand(p, l, i), Address(p, l, base, i + 1)) == Meant(p, l, base, i)
  {
    hide Extent, Address, Immediate, OperandBytes, Relative, Fetch16, Le16, TakesExpression;
    assert p.InsnValid(i);
    PlainImmediate(p.insns[i].op, InlineOperand(p, l, i), Address(p, l, base, i + 1));
    if p.insns[i].op == NCALL {
      FetchInvertsStore16(p.insns[i].operand % 0x1_0000);
    }
  }

  lemma PlainImmediate(op: Op, bytes: seq<u8>, next: u32)
    requires !TakesExpression(op)
    ensures !Relative(op) && op != LDC_SB && OperandBytes(op) == if op == NCALL then 2 else 0
    ensures |bytes| == OperandBytes(op) ==>
      Immediate(op, bytes, next) == if op == NCALL then Fetch16(bytes) else 0
  {
    hide Fetch16;
  }

  lemma LongEncoding(op: Op, v: u32, addr: u32, base: u32, start: u32)
    requires (op == LEA || op == CALL) && EncodeOperand(op, v, addr).Some?
    ensures var next := Wrap(base + addr + 1 + OperandBytes(op) - start);
      Immediate(op, EncodeOperand(op, v, addr).value, next) == Wrap(base + v - start)
    ensures Relative(op) && op != LDC_SB
  {
    hide Wrap, Le32, Fetch32, Signed8, Signed32, SignExtend8;
    LongRoundTrip(v, addr, base, start);
  }

  lemma ShortEncoding(op: Op, v: u32, addr: u32, base: u32, start: u32)
    requires (op == BR || op == BR_T || op == BR_F) && EncodeOperand(op, v, addr).Some?
    ensures var next := Wrap(base + addr + 1 + OperandBytes(op) - start);
      Immediate(op, EncodeOperand(op, v, addr).value, next) == Wrap(base + v - start)
    ensures Relative(op) && op != LDC_SB
  {
    hide Wrap, Le32, Fetch32, Signed8, Signed32, SignExtend8, EncodeShort;
    ShortRoundTrip(v, addr, base, start);
  }

  /** Operands that are no displacement are fetched as they were stored. */
  lemma DirectEncoding(op: Op, v: u32, addr: u32, next: u32)
    requires !Relative(op) && TakesExpression(op) && EncodeOperand(op, v, addr).Some?
    ensures |EncodeOperand(op, v, addr).value| == OperandBytes(op)
    ensures Immediate(op, EncodeOperand(op, v, addr).value, next) == if op == LDC_SB then SignExtend8(v % 0x100) else v
  {
    hide Wrap, Le32, Fetch32, Signed8, Signed32, SignExtend8;
    FetchInvertsStore32(v);
  }

  lemma EncodingRoundTrip(op: Op, v: u32, addr: u32, base: u32, start: u32)
    requires TakesExpression(op) && EncodeOperand(op, v, addr).Some?
    ensures var next := Wrap(base + addr + 1 + OperandBytes(op) - start);
      Immediate(op, EncodeOperand(op, v, addr).value, next) ==
      if Relative(op) then Wrap(base + v - start) else if op == LDC_SB then SignExtend8(v % 0x100) else v
  {
    hide Wrap, EncodeOperand, Immediate, OperandBytes, SignExtend8, TakesExpression;
    if op == LEA || op == CALL {
      LongEncoding(op, v, addr, base, start);
    } else if op == BR || op == BR_T || op == BR_F {
      ShortEncoding(op, v, addr, base, start);
    } else {
      DirectEncoding(op, v, addr, Wrap(base + addr + 1 + OperandBytes(op) - start));
    }
  }

  /** LDC.SB accepts 0 to 255 only and sign-extends on loading, so it loads the value it was given
      exactly for 0 to 127, and no negative value at all. */
  lemma SignedByteLoads(v: u32, addr: u32, next: u32)
    ensures EncodeOperand(LDC_SB, v, addr).Some? <==> v <= 0xFF
    ensures v <= 0xFF ==> (Immediate(LDC_SB, EncodeOperand(LDC_SB, v, addr).value, next) == v <==> v <= 0x7F)
  {
  }

  /** A 32-bit displacement from the end of the instruction, stored and fetched, lands on the
      loaded label whatever the base, signed or unsigned. */
  lemma LongRoundTrip(v: u32, addr: u32, base: u32, start: u32)
    ensures var next := Wrap(base + addr + 5 - start);
      var d := Fetch32(Le32(Wrap(v - (addr + 5))));
      Wrap(next + d) == Wrap(base + v - start) && Wrap(next + Signed32(d)) == Wrap(base + v - start)
  {
    hide Le32, Fetch32;
    var next := Wrap(base + addr + 5 - start);
    FetchInvertsStore32(Wrap(v - (addr + 5)));
    WrapSum(base + addr + 5 - start, v - (addr + 5));
    WrapSigned(Wrap(v - (addr + 5)), next);
  }

  lemma WrapSum(x: int, y: int)
    ensures Wrap(Wrap(x) + Wrap(y)) == Wrap(x + y)
  {
  }

  /** The same for the one-byte branches, when the distance fits. */
  lemma ShortRoundTrip(v: u32, addr: u32, base: u32, start: u32)
    requires EncodeShort(v, addr).Some?
    ensures var next := Wrap(base + addr + 2 - start);
      |EncodeShort(v, addr).value| == 1
      && Wrap(next + Signed8(EncodeShort(v, addr).value[0])) == Wrap(base + v - start)
  {
    var u := Wrap(v - (addr + 2));
    var d := Signed32(u);
    ShortDisplacement(d);
    WrapSum(base + addr + 2 - start, v - (addr + 2));
    WrapSigned(u, Wrap(base + addr + 2 - start));
  }

  /** Decoding a known opcode with its operand in place. */
  lemma StepDecodes(env: Env, m: State<u32>, op: Op, operand: seq<u8>)
    requires |operand| == OperandBytes(op)
    requires Read(m.mem, m.pos, 1 + |operand|) == Some([OpcodeByte(op)] + operand)
    ensures
      var n := StackIn(op);
      var next := Wrap(m.pos + 1 + OperandBytes(op));
      Step(env, m) ==
        if n > |m.data| then Halted(Panic(StackUnderflow))
        else Resume(m.control, next, Exec(env, op, Immediate(op, operand, next), m.data[..n],
                                          Core(m.data[n..], m.locals, m.mem)))
  {
    hide Exec, Immediate, SlotOp, OpcodeByte, StackIn, OperandBytes;
    DecodeInvertsTable(op);
    var rest := Read(m.mem, Wrap(m.pos + 1), |operand|);
    assert [OpcodeByte(op)] + operand == [m.mem[m.pos]] + rest.value;
    assert ([OpcodeByte(op)] + operand)[1..] == operand;
    assert ([m.mem[m.pos]] + rest.value)[1..] == rest.value;
    assert ([OpcodeByte(op)] + operand)[0] == m.mem[m.pos];
  }

  lemma FoundAddress(p: Program, l: Placement, base: u32, target: u32)
    requires Laid(p, l)
    ensures var j := Find(p, l, Wrap(target - base + p.startVa));
      j.Some? ==> Address(p, l, base, j.value) == target
  {
    hide Extent, Wrap, OperandBytes;
    var j := Find(p, l, Wrap(target - base + p.startVa));
    RebasedTwice(target, base, p.startVa);
    if j.Some? {
      MachineUnpadded(p, l, j.value);
    }
  }

  lemma RebasedTwice(target: u32, base: u32, start: u32)
    ensures Wrap(base + Wrap(target - base + start) - start) == target
  {
    WrapAdd(target - base + start, base - start);
  }

  lemma ResumeLowers(p: Program, l: Placement, base: u32, control: seq<Frame<nat>>, next: nat, effect: Effect)
    requires Laid(p, l)
    requires SourceResume(p, l, base, control, next, effect).Ran?
    ensures Resume(LowerFrames(p, l, base, control), Address(p, l, base, next), effect) ==
      LowerOutcome(p, l, base, SourceResume(p, l, base, control, next, effect).outcome)
  {
    hide Address, Find;
    if effect.Done? {
      if effect.flow.Goto? || effect.flow.Enter? {
        FoundAddress(p, l, base, effect.flow.target);
        if effect.flow.Enter? && |control| < CONTROL_CAPACITY {
          var f := Frame(next, effect.core.locals);
          assert ([f] + control)[1..] == control;
        }
      }
    }
  }

  /** One step of the byte machine on intact code is one step of the source machine. */
  lemma StepSimulates(p: Program, l: Placement, base: u32, env: Env, s: State<nat>)
    requires Emits(p, l) && s.pos <= |p.insns|
    requires CodeIntact(p, l, base, s.mem) && SourceStep(p, l, base, env, s).Ran?
    ensures Step(env, Lower(p, l, base, s)) == LowerOutcome(p, l, base, SourceStep(p, l, base, env, s).outcome)
  {
    hide Exec, Immediate, Step, Resume, SourceResume, Extent, InlineOperand, LowerFrames, OperandBytes;
    hide StackIn, Meant, LowerOutcome, OpcodeByte, Read;
    var i := Settle(p, l, s.pos);
    var op := p.insns[i].op;
    var n := StackIn(op);
    var m := Lower(p, l, base, s);
    SettleExtent(p, l, s.pos);
    MachineUnpadded(p, l, i);
    OperandRoundTrip(p, l, base, i);
    assert m.pos == Address(p, l, base, i);
    StepDecodes(env, m, op, InlineOperand(p, l, i));
    NextAddress(p, l, base, i);
    if n <= |s.data| {
      var effect := Exec(env, op, Meant(p, l, base, i), s.data[..n], Core(s.data[n..], s.locals, s.mem));
      ResumeLowers(p, l, base, s.control, i + 1, effect);
    } else {
      HaltLowers(p, l, base, Panic(StackUnderflow));
    }
  }

  lemma HaltLowers(p: Program, l: Placement, base: u32, h: Halt)
    requires Covers(p, l)
    ensures LowerOutcome(p, l, base, Halted(h)) == Halted(h)
  {
  }

  lemma NextAddress(p: Program, l: Placement, base: u32, i: nat)
    requires Laid(p, l) && i < |p.insns| && p.insns[i].Mach?
    ensures Address(p, l, base, i + 1) == Wrap(Address(p, l, base, i) + 1 + OperandBytes(p.insns[i].op))
  {
    hide Extent, OperandBytes;
    MachineUnpadded(p, l, i);
    WrapAdd(base + Extent(p, l.counts, i) - p.startVa, 1 + OperandBytes(p.insns[i].op));
  }

  // ---------- Whole runs ----------

  predicate InList(p: Program, s: State<nat>) {
    s.pos <= |p.insns| && forall f :: 0 <= f < |s.control| ==> s.control[f].returnTo <= |p.insns|
  }

  lemma StepStaysInList(p: Program, l: Placement, base: u32, env: Env, s: State<nat>)
    requires p.Valid() && Covers(p, l) && InList(p, s)
    requires SourceStep(p, l, base, env, s).Ran? && SourceStep(p, l, base, env, s).outcome.Running?
    ensures InList(p, SourceStep(p, l, base, env, s).outcome.state)
  {
    hide Exec, Meant, StackIn;
  }

  /** The source run never writes over machine code. */
  ghost predicate KeepsCode(p: Program, l: Placement, base: u32, envs: nat -> Env, s: State<nat>, k: nat)
    requires p.Valid() && Covers(p, l)
  {
    forall j | 0 <= j < k :: KeepsCodeAt(p, l, base, SourceRun(p, l, base, envs, s, j))
  }

  ghost predicate KeepsCodeAt(p: Program, l: Placement, base: u32, o: SourceOutcome)
    requires p.Valid() && Covers(p, l)
  {
    o.Ran? && o.outcome.Running? ==> CodeIntact(p, l, base, o.outcome.state.mem)
  }

  /** Whole-run simulation: as long as control stays on listed machine instructions and the code
      is not overwritten, `k` steps over the emitted bytes at any base are `k` steps over the
      instruction list, halts included. */
  lemma {:induction false} RunSimulates(p: Program, l: Placement, base: u32, envs: nat -> Env, s: State<nat>, k: nat)
    requires Emits(p, l) && InList(p, s)
    requires KeepsCode(p, l, base, envs, s, k) && SourceRun(p, l, base, envs, s, k).Ran?
    ensures Run(envs, Lower(p, l, base, s), k) == LowerOutcome(p, l, base, SourceRun(p, l, base, envs, s, k).outcome)
    ensures var o := SourceRun(p, l, base, envs, s, k).outcome; o.Running? ==> InList(p, o.state)
  {
    hide Step, SourceStep, Lower, CodeIntact, Pass1, Pass2, Extent, InList;
    if k > 0 {
      RunSimulates(p, l, base, envs, s, k - 1);
      var o := SourceRun(p, l, base, envs, s, k - 1);
      assert KeepsCodeAt(p, l, base, o);
      if o.outcome.Running? {
        InListPosition(p, o.outcome.state);
        StepSimulates(p, l, base, envs(k - 1), o.outcome.state);
        if SourceRun(p, l, base, envs, s, k).outcome.Running? {
          StepStaysInList(p, l, base, envs(k - 1), o.outcome.state);
        }
      }
    }
  }

  lemma InListPosition(p: Program, s: State<nat>)
    requires InList(p, s)
    ensures s.pos <= |p.insns|
  {
  }

  /** Distinct machine instructions have distinct addresses, so a label in front of a machine
      instruction names that instruction and no other. */
  lemma LabelFindsItsInstruction(p: Program, l: Placement, j: nat)
    requires Laid(p, l) && j < |p.insns| && l.aligns[j] == 0 && AtMachine(p, l, j)
    ensures Find(p, l, l.addrs[j]) == Some(Settle(p, l, j))
  {
    hide OperandBytes, AlignUp, SizeOf;
    var k := Settle(p, l, j);
    PlacedAtExtent(p, l, j);
    SettleExtent(p, l, j);
    MachineUnpadded(p, l, k);
    var r := Find(p, l, l.addrs[j]);
    if r.Some? {
      MachineUnpadded(p, l, r.value);
      if r.value < k {
        ExtentMonotone(p, l.counts, r.value + 1, k);
      } else if k < r.value {
        ExtentMonotone(p, l.counts, k + 1, r.value);
      }
    }
  }

  /** A body copied to `base` puts every machine instruction's bytes at its address. */
  lemma LoadedCodeIntact(p: Program, l: Placement, base: u32, mem: Memory)
    requires Emits(p, l)
    requires Read(mem, base, |Body(p, l)|) == Some(Body(p, l))
    ensures CodeIntact(p, l, base, mem)
  {
    hide MachineBytes, Extent, Body, Read, Pass1, Pass2, Cut, Wrap;
    forall i | 0 <= i < |p.insns| && p.insns[i].Mach?
      ensures Read(mem, Address(p, l, base, i), |MachineBytes(p, l, i)|) == Some(MachineBytes(p, l, i))
    {
      MachineEmitted(p, l, i);
      MachineUnpadded(p, l, i);
      ReadInside(mem, base, |Body(p, l)|, l.addrs[i] - p.startVa, |MachineBytes(p, l, i)|);
    }
  }

  lemma {:induction false} ReadFront(mem: Memory, addr: u32, n: nat, m: nat)
    requires Read(mem, addr, n).Some? && m <= n
    ensures Read(mem, addr, m) == Some(Read(mem, addr, n).value[..m])
    decreases n
  {
    hide Wrap;
    if m > 0 {
      var rest := Read(mem, Wrap(addr + 1), n - 1).value;
      ReadFront(mem, Wrap(addr + 1), n - 1, m - 1);
      assert ([mem[addr]] + rest)[..m] == [mem[addr]] + rest[..m - 1];
    }
  }

  lemma {:induction false} ReadInside(mem: Memory, addr: u32, n: nat, from: nat, m: nat)
    requires Read(mem, addr, n).Some? && from + m <= n
    ensures Read(mem, Wrap(addr + from), m) == Some(Read(mem, addr, n).value[from..from + m])
    decreases n
  {
    if from > 0 {
      hide Wrap;
      var rest := Read(mem, Wrap(addr + 1), n - 1).value;
      ReadInside(mem, Wrap(addr + 1), n - 1, from - 1, m);
      WrapAdd(addr + 1, from - 1);
      assert ([mem[addr]] + rest)[from..from + m] == rest[from - 1..from - 1 + m];
    } else {
      ReadFront(mem, addr, n, m);
    }
  }
}
