/** The VM as it keeps frames and locals in memory blocks, and why it runs as the machine that keeps
    them as values, as long as the program stays out of the blocks in use. */
module Frames {
  import opened Numbers
  import opened Words
  import opened Opcodes
  import opened Machine
  import opened Runs
  import opened Handlers
  import S = Simulation

  const FRAME_SIZE := 12

  // The control stack holds frame addresses, and `locals` the address of a block, or zero.
  // `own` are the bytes that belong to the program.
  datatype Raw = Raw(pos: u32, data: seq<u32>, control: seq<u32>, locals: u32, mem: Memory, own: set<u32>)
  datatype RawOutcome = RawRunning(state: Raw) | RawHalted(halt: Halt)

  // What the allocator leaves of memory in front of a step, and the block it returns in the step.
  datatype Service = Service(mem: Memory, block: u32)

  /** A block of locals: the count, then one word each. */
  function LocalsSize(count: nat): nat {
    4 + 4 * count
  }

  function WordAt(mem: Memory, addr: u32): Option<u32> {
    match Read(mem, addr, 4)
    case None => None
    case Some(b) => Some(Fetch32(b))
  }

  function CellAddr(locals: u32, index: nat): u32 {
    Wrap(locals + 4 + 4 * index)
  }

  /** Memory as the program sees it. */
  function Seen(own: set<u32>, mem: Memory): Memory {
    map a | a in own && a in mem :: mem[a]
  }

  // ---------- The raw machine ----------

  /** LOCALS, LDLOC and STLOC, on the block `r.locals` or a new one at `block`. */
  function RawLocals(op: Op, imm: u32, x: u32, next: u32, block: u32, r: Raw): RawOutcome {
    if op == LOCALS then
      match Write(r.mem, block, Le32(imm))
      case None => RawHalted(Fault)
      case Some(m) => RawRunning(r.(pos := next, locals := block, mem := m))
    else if r.locals == 0 then RawHalted(Panic(NoLocalsAllocated))
    else
      match WordAt(r.mem, r.locals)
      case None => RawHalted(Fault)
      case Some(count) =>
        if imm >= count then RawHalted(Panic(LocalOutOfBounds))
        else if op == LDLOC then
          match WordAt(r.mem, CellAddr(r.locals, imm))
          case None => RawHalted(Fault)
          case Some(v) =>
            if 1 + |r.data| > DATA_CAPACITY then RawHalted(Panic(StackOverflow))
            else RawRunning(r.(pos := next, data := [v] + r.data))
        else
          match Write(r.mem, CellAddr(r.locals, imm), Le32(x))
          case None => RawHalted(Fault)
          case Some(m) => RawRunning(r.(pos := next, mem := m))
  }

  /** Fills a new frame at `block`, pushes its address and goes to `target` without locals. */
  function RawEnter(target: u32, next: u32, block: u32, r: Raw): RawOutcome {
    match Write(r.mem, block, Le32(next) + (Le32(r.locals) + Le32(Wrap(|r.data|))))
    case None => RawHalted(Fault)
    case Some(m) =>
      if |r.control| >= CONTROL_CAPACITY then RawHalted(Panic(StackOverflow))
      else RawRunning(Raw(target, r.data, [block] + r.control, 0, m, r.own))
  }

  /** Pops a frame address and takes return address and locals from that frame. */
  function RawLeave(r: Raw): RawOutcome {
    if |r.control| == 0 then RawHalted(Panic(StackUnderflow)) else
    match (WordAt(r.mem, r.control[0]), WordAt(r.mem, Wrap(r.control[0] as int + 4)))
    case (Some(returnTo), Some(locals)) => RawRunning(Raw(returnTo, r.data, r.control[1..], locals, r.mem, r.own))
    case _ => RawHalted(Fault)
  }

  /** A thunk works on the program's bytes; it may take bytes and give bytes up. */
  function RawNative(env: Env, index: u32, next: u32, r: Raw): RawOutcome {
    match CallNative(env, index, Core(r.data, NoLocals, Seen(r.own, r.mem)))
    case Stop(h) => RawHalted(h)
    case Done(core, _) =>
      RawRunning(r.(pos := next, data := core.data, mem := r.mem + core.mem, own := core.mem.Keys))
  }

  /** Every other operation only touches the data stack, memory and the program counter. */
  function RawPlain(env: Env, op: Op, imm: u32, a: seq<u32>, next: u32, r: Raw): RawOutcome {
    match Exec(env, op, imm, a, Core(r.data, NoLocals, r.mem))
    case Stop(h) => RawHalted(h)
    case Done(core, flow) =>
      RawRunning(r.(pos := if flow.Goto? then flow.target else next, data := core.data, mem := core.mem))
  }

  predicate OnLocals(op: Op) {
    op == LOCALS || op == LDLOC || op == STLOC
  }

  /** Operations that see neither frames nor locals, nor leave the VM. */
  predicate Plain(op: Op) {
    !OnLocals(op) && op != CALL && op != ICALL && op != RET && op != NCALL
  }

  /** One operation with its operands `a` already popped off `r.data`; `block` is what the allocator
      would return. */
  function RawExec(env: Env, op: Op, imm: u32, a: seq<u32>, next: u32, block: u32, r: Raw): RawOutcome {
    if |a| < Uses(op) then RawHalted(Undefined) else
    var x := if |a| > 0 then a[0] else 0;
    if OnLocals(op) then RawLocals(op, imm, x, next, block, r)
    else if op == CALL then RawEnter(imm, next, block, r)
    else if op == ICALL then RawEnter(x, next, block, r)
    else if op == RET then RawLeave(r)
    else if op == NCALL then RawNative(env, imm, next, r)
    else RawPlain(env, op, imm, a, next, r)
  }

  function RawStep(env: Env, block: u32, r: Raw): RawOutcome {
    if r.pos !in r.mem then RawHalted(Fault) else
    var byte := r.mem[r.pos];
    var n := DecodeCount(byte);
    if n > |r.data| then RawHalted(Panic(StackUnderflow)) else
    match DecodeOp(byte)
    case None => RawHalted(Panic(UnknownOpcode))
    case Some(op) =>
      match Read(r.mem, Wrap(r.pos + 1), OperandBytes(op))
      case None => RawHalted(Fault)
      case Some(bytes) =>
        var next := Wrap(r.pos + 1 + OperandBytes(op));
        RawExec(env, op, Immediate(op, bytes, next), r.data[..n], next, block, r.(data := r.data[n..]))
  }

  /** `k` steps, each behind what the allocator did. */
  function RawRun(envs: nat -> Env, serve: nat -> Service, r: Raw, k: nat): RawOutcome {
    if k == 0 then RawRunning(r) else
    match RawRun(envs, serve, r, k - 1)
    case RawRunning(t) => RawStep(envs(k - 1), serve(k - 1).block, t.(mem := serve(k - 1).mem))
    case RawHalted(h) => RawHalted(h)
  }

  // ---------- Blocks ----------

  function Block(addr: u32, n: nat): set<u32> {
    set a: u32 | Offset(a, addr) < n
  }

  /** A part of a block. */
  lemma PartOfBlock(addr: u32, n: nat, from: nat, m: nat)
    requires from + m <= n <= WORD
    ensures Block(Wrap(addr + from), m) <= Block(addr, n)
  {
    hide Offset;
    forall a | a in Block(Wrap(addr + from), m) ensures a in Block(addr, n) {
      ShiftedOffset(a, addr, from, m);
    }
  }

  lemma ShiftedOffset(a: u32, addr: u32, from: nat, m: nat)
    requires Offset(a, Wrap(addr + from)) < m && from + m <= WORD
    ensures Offset(a, addr) == from + Offset(a, Wrap(addr + from))
  {
    var d := Offset(a, Wrap(addr + from));
    var k := (a - Wrap(addr + from)) / WORD;
    assert a - Wrap(addr + from) == k * WORD + d;
    var q := (addr + from) / WORD;
    assert a - addr == from + d + (k - q) * WORD;
    WrapShift(from + d, k - q);
    WrapIsRemainder(from + d);
  }

  /** The memories hold the same on `cells`. */
  ghost predicate Agree(mem: Memory, other: Memory, cells: set<u32>) {
    forall a :: a in cells ==> a in mem && a in other && other[a] == mem[a]
  }

  lemma {:induction false} ReadAgrees(mem: Memory, other: Memory, addr: u32, n: nat, cells: set<u32>)
    requires Agree(mem, other, cells) && Block(addr, n) <= cells && n <= WORD
    ensures Read(other, addr, n) == Read(mem, addr, n) && Read(mem, addr, n).Some?
    decreases n
  {
    hide Wrap;
    if n > 0 {
      PartOfBlock(addr, n, 1, n - 1);
      PartOfBlock(addr, n, 0, 1);
      FirstOfBlock(addr, n);
      ReadAgrees(mem, other, Wrap(addr + 1), n - 1, cells);
    }
  }

  lemma FirstOfBlock(addr: u32, n: nat)
    requires n > 0
    ensures addr in Block(addr, n)
  {
    assert Offset(addr, addr) == 0;
  }

  /** A store agrees with the memory before it on everything outside its range. */
  lemma WriteAgrees(mem: Memory, addr: u32, bytes: seq<u8>, cells: set<u32>)
    requires Write(mem, addr, bytes).Some? && |bytes| < WORD
    requires (forall a :: a in cells ==> a in mem) && Block(addr, |bytes|) !! cells
    ensures Agree(mem, Write(mem, addr, bytes).value, cells)
  {
    hide Write, Offset;
    forall a | a in cells ensures a in Write(mem, addr, bytes).value && Write(mem, addr, bytes).value[a] == mem[a] {
      WriteKeepsOthers(mem, addr, bytes, a);
    }
  }

  // ---------- What the program sees ----------

  /** `mem` holds all of `visible`. */
  ghost predicate Within(visible: Memory, mem: Memory) {
    forall a :: a in visible ==> a in mem && mem[a] == visible[a]
  }

  lemma {:induction false} ReadLifts(visible: Memory, mem: Memory, addr: u32, n: nat)
    requires Within(visible, mem) && Read(visible, addr, n).Some?
    ensures Read(mem, addr, n) == Read(visible, addr, n)
    decreases n
  {
    if n > 0 {
      ReadLifts(visible, mem, Wrap(addr + 1), n - 1);
    }
  }

  /** A store into visible memory goes through on the whole and leaves hidden bytes alone. */
  lemma {:induction false} WriteLifts(visible: Memory, mem: Memory, addr: u32, bytes: seq<u8>, cells: set<u32>)
    requires Within(visible, mem) && Write(visible, addr, bytes).Some?
    requires cells <= mem.Keys && cells !! visible.Keys
    ensures Write(mem, addr, bytes).Some? && Write(visible, addr, bytes).value.Keys == visible.Keys
    ensures Within(Write(visible, addr, bytes).value, Write(mem, addr, bytes).value)
    ensures Agree(mem, Write(mem, addr, bytes).value, cells)
    decreases |bytes|
  {
    if |bytes| > 0 {
      var v, m := visible[addr := bytes[0]], mem[addr := bytes[0]];
      WriteLifts(v, m, Wrap(addr + 1), bytes[1..], cells);
    }
  }

  /** A store into hidden bytes is invisible. */
  lemma HiddenWrite(visible: Memory, mem: Memory, addr: u32, bytes: seq<u8>)
    requires Within(visible, mem) && |bytes| < WORD
    requires Block(addr, |bytes|) <= mem.Keys && Block(addr, |bytes|) !! visible.Keys
    ensures Write(mem, addr, bytes).Some? && Within(visible, Write(mem, addr, bytes).value)
    ensures Write(mem, addr, bytes).value.Keys == mem.Keys
    ensures Read(Write(mem, addr, bytes).value, addr, |bytes|) == Some(bytes)
  {
    hide Write, Offset, Read;
    var cells := Block(addr, |bytes|);
    assert Agree(mem, mem, cells);
    ReadAgrees(mem, mem, addr, |bytes|, cells);
    ReadsBack(mem, addr, bytes);
    var m := Write(mem, addr, bytes).value;
    forall a: u32 ensures (a in m <==> a in mem) && (a !in cells && a in mem ==> m[a] == mem[a]) {
      WriteKeepsOthers(mem, addr, bytes, a);
    }
  }

  /** Bytes `own` of `mem` are the visible ones. */
  lemma SeesVisible(visible: Memory, mem: Memory)
    requires Within(visible, mem)
    ensures Seen(visible.Keys, mem) == visible
  {
  }

  // ---------- The blocks that stand for frames and locals ----------

  ghost predicate LocalsHold(mem: Memory, block: u32, locals: Locals) {
    match locals
    case NoLocals => block == 0
    case Locals(cells) =>
      && block != 0 && |cells| < 0x100 && Read(mem, block, 4) == Some(Le32(|cells|))
      && forall i :: 0 <= i < |cells| ==> CellHolds(mem, CellAddr(block, i), cells[i])
  }

  ghost predicate CellHolds(mem: Memory, addr: u32, cell: Cell) {
    cell.Set? ==> Read(mem, addr, 4) == Some(Le32(cell.value))
  }

  function LocalsFeet(block: u32, locals: Locals): set<u32> {
    match locals
    case NoLocals => {}
    case Locals(cells) => Block(block, LocalsSize(|cells|))
  }

  function SavedLocals(mem: Memory, frame: u32): u32 {
    match WordAt(mem, Wrap(frame + 4))
    case None => 0
    case Some(p) => p
  }

  ghost predicate FrameHolds(mem: Memory, block: u32, frame: Frame<u32>) {
    && Read(mem, block, 4) == Some(Le32(frame.returnTo)) && WordAt(mem, Wrap(block + 4)).Some?
    && LocalsHold(mem, SavedLocals(mem, block), frame.locals)
    && Block(block, FRAME_SIZE) !! LocalsFeet(SavedLocals(mem, block), frame.locals)
  }

  function FrameFeet(mem: Memory, block: u32, frame: Frame<u32>): set<u32> {
    Block(block, FRAME_SIZE) + LocalsFeet(SavedLocals(mem, block), frame.locals)
  }

  function ControlFeet(mem: Memory, control: seq<u32>, frames: seq<Frame<u32>>): set<u32> {
    if |control| == 0 || |frames| == 0 then {}
    else FrameFeet(mem, control[0], frames[0]) + ControlFeet(mem, control[1..], frames[1..])
  }

  ghost predicate ControlHolds(mem: Memory, control: seq<u32>, frames: seq<Frame<u32>>) {
    |control| == |frames| &&
    (|control| > 0 ==>
      && FrameHolds(mem, control[0], frames[0])
      && FrameFeet(mem, control[0], frames[0]) !! ControlFeet(mem, control[1..], frames[1..])
      && ControlHolds(mem, control[1..], frames[1..]))
  }

  /** All bytes of the blocks in use. */
  function Feet(s: State<u32>, r: Raw): set<u32> {
    LocalsFeet(r.locals, s.locals) + ControlFeet(r.mem, r.control, s.control)
  }

  /** The raw state keeps in blocks what the other keeps as values; the program's memory is `own`, and
      the blocks lie outside it. */
  ghost predicate Refines(s: State<u32>, r: Raw) {
    && r.pos == s.pos && r.data == s.data && Within(s.mem, r.mem) && r.own == s.mem.Keys
    && ControlHolds(r.mem, r.control, s.control) && LocalsHold(r.mem, r.locals, s.locals)
    && LocalsFeet(r.locals, s.locals) !! ControlFeet(r.mem, r.control, s.control)
    && Feet(s, r) <= r.mem.Keys && Feet(s, r) !! s.mem.Keys
  }

  /** A block the allocator may return: mapped, not at zero, apart from all blocks in use and from the
      program's bytes. */
  ghost predicate Fresh(s: State<u32>, r: Raw, block: u32, n: nat) {
    && block != 0 && Block(block, n) <= r.mem.Keys && Block(block, n) !! s.mem.Keys && Block(block, n) !! Feet(s, r)
  }

  /** The step takes no byte of a block in use for the program, which only a thunk could do. */
  ghost predicate Apart(s: State<u32>, r: Raw, o: Outcome<u32>) {
    o.Running? ==> o.state.mem.Keys !! Feet(s, r)
  }

  // ---------- Blocks stay as long as their bytes do ----------

  lemma LocalsKept(mem: Memory, other: Memory, block: u32, locals: Locals, cells: set<u32>)
    requires Agree(mem, other, cells) && LocalsFeet(block, locals) <= cells && LocalsHold(mem, block, locals)
    ensures LocalsHold(other, block, locals)
  {
    hide Read, Agree, Block;
    if locals.Locals? {
      var n := |locals.cells|;
      PartOfBlock(block, LocalsSize(n), 0, 4);
      BlockStart(block);
      ReadAgrees(mem, other, block, 4, cells);
      forall i | 0 <= i < n ensures CellHolds(other, CellAddr(block, i), locals.cells[i]) {
        assert CellHolds(mem, CellAddr(block, i), locals.cells[i]);
        PartOfBlock(block, LocalsSize(n), 4 + 4 * i, 4);
        ReadAgrees(mem, other, CellAddr(block, i), 4, cells);
      }
    }
  }

  lemma BlockStart(addr: u32)
    ensures Wrap(addr + 0) == addr
  {
  }

  lemma FrameKept(mem: Memory, other: Memory, block: u32, frame: Frame<u32>, cells: set<u32>)
    requires Agree(mem, other, cells) && FrameFeet(mem, block, frame) <= cells && FrameHolds(mem, block, frame)
    ensures FrameHolds(other, block, frame) && FrameFeet(other, block, frame) == FrameFeet(mem, block, frame)
    ensures SavedLocals(other, block) == SavedLocals(mem, block)
  {
    hide Read, Agree, Block;
    PartOfBlock(block, FRAME_SIZE, 0, 4);
    PartOfBlock(block, FRAME_SIZE, 4, 4);
    BlockStart(block);
    ReadAgrees(mem, other, block, 4, cells);
    ReadAgrees(mem, other, Wrap(block + 4), 4, cells);
    LocalsKept(mem, other, SavedLocals(mem, block), frame.locals, cells);
  }

  lemma {:induction false} ControlKept(mem: Memory, other: Memory, control: seq<u32>,
                                       frames: seq<Frame<u32>>, cells: set<u32>)
    requires ControlHolds(mem, control, frames) && Agree(mem, other, cells)
    requires ControlFeet(mem, control, frames) <= cells
    ensures ControlHolds(other, control, frames)
    ensures ControlFeet(other, control, frames) == ControlFeet(mem, control, frames)
    decreases |control|
  {
    hide Agree, FrameHolds, FrameFeet;
    if |control| > 0 {
      FrameKept(mem, other, control[0], frames[0], cells);
      ControlKept(mem, other, control[1..], frames[1..], cells);
    }
  }

  // ---------- One operation ----------

  /** What a step leaves of the control stack: nothing moves, one address is pushed, or one is popped
      with the locals saved in its frame; and no frame in use is written. */
  ghost predicate Moves(feet: set<u32>, r: Raw, u: Raw) {
    && Agree(r.mem, u.mem, feet)
    && (u.control == r.control
        || (|u.control| == |r.control| + 1 && u.control[1..] == r.control
            && SavedLocals(u.mem, u.control[0]) == r.locals)
        || (|r.control| > 0 && u.control == r.control[1..] && u.locals == SavedLocals(r.mem, r.control[0])))
  }

  ghost predicate Matches(s: State<u32>, r: Raw, o: Outcome<u32>, w: RawOutcome) {
    match o
    case Halted(h) => w == RawHalted(h)
    case Running(t) =>
      w.RawRunning? && Refines(t, w.state) && Moves(ControlFeet(r.mem, r.control, s.control), r, w.state)
  }

  lemma AgreeLess(mem: Memory, other: Memory, cells: set<u32>, more: set<u32>)
    requires Agree(mem, other, more) && cells <= more
    ensures Agree(mem, other, cells)
  {
  }

  /** Nothing but the position, the data stack and the program's memory changed. */
  lemma RefinesKept(s: State<u32>, r: Raw, t: State<u32>, u: Raw)
    requires Refines(s, r) && Agree(r.mem, u.mem, Feet(s, r)) && Within(t.mem, u.mem)
    requires u.own == t.mem.Keys && t.mem.Keys !! Feet(s, r)
    requires u.pos == t.pos && u.data == t.data && u.control == r.control && u.locals == r.locals
    requires t.control == s.control && t.locals == s.locals
    ensures Refines(t, u) && Moves(ControlFeet(r.mem, r.control, s.control), r, u) && Feet(t, u) == Feet(s, r)
  {
    hide *;
    RefinesParts(s, r);
    FeetHeld(s, r);
    var feet := Feet(s, r);
    ControlKept(r.mem, u.mem, r.control, s.control, feet);
    LocalsKept(r.mem, u.mem, r.locals, s.locals, feet);
    AgreeLess(r.mem, u.mem, ControlFeet(r.mem, r.control, s.control), feet);
    SameFeet(s, r, t, u);
    AgreeMapped(r.mem, u.mem, feet);
    RefinesBuilt(t, u);
    StillMoves(ControlFeet(r.mem, r.control, s.control), r, u);
  }

  lemma SameFeet(s: State<u32>, r: Raw, t: State<u32>, u: Raw)
    requires u.control == r.control && u.locals == r.locals && t.control == s.control && t.locals == s.locals
    requires ControlFeet(u.mem, r.control, s.control) == ControlFeet(r.mem, r.control, s.control)
    ensures Feet(t, u) == Feet(s, r)
  {
    hide ControlFeet, LocalsFeet;
  }

  lemma AgreeMapped(mem: Memory, other: Memory, cells: set<u32>)
    requires Agree(mem, other, cells)
    ensures cells <= other.Keys
  {
  }

  lemma RefinesBuilt(s: State<u32>, r: Raw)
    requires r.pos == s.pos && r.data == s.data && Within(s.mem, r.mem) && r.own == s.mem.Keys
    requires ControlHolds(r.mem, r.control, s.control) && LocalsHold(r.mem, r.locals, s.locals)
    requires LocalsFeet(r.locals, s.locals) !! ControlFeet(r.mem, r.control, s.control)
    requires Feet(s, r) <= r.mem.Keys && Feet(s, r) !! s.mem.Keys
    ensures Refines(s, r)
  {
    hide ControlHolds, LocalsHold, ControlFeet, LocalsFeet, Within, Feet;
  }

  lemma StillMoves(feet: set<u32>, r: Raw, u: Raw)
    requires Agree(r.mem, u.mem, feet) && u.control == r.control
    ensures Moves(feet, r, u)
  {
    hide Agree, SavedLocals;
  }

  /** The allocator leaves the program's bytes and the blocks in use alone. */
  ghost predicate Undisturbed(s: State<u32>, r: Raw, mem: Memory) {
    Within(s.mem, mem) && Agree(r.mem, mem, Feet(s, r))
  }

  /** Nothing else in memory matters. */
  lemma UndisturbedRefines(s: State<u32>, r: Raw, mem: Memory)
    requires Refines(s, r) && Undisturbed(s, r, mem)
    ensures Refines(s, r.(mem := mem)) && Feet(s, r.(mem := mem)) == Feet(s, r)
    ensures ControlFeet(mem, r.control, s.control) == ControlFeet(r.mem, r.control, s.control)
    ensures Moves(ControlFeet(r.mem, r.control, s.control), r, r.(mem := mem))
  {
    RefinesParts(s, r);
    RefinesKept(s, r, s, r.(mem := mem));
    hide ControlHolds, Within, ControlFeet, LocalsFeet, LocalsHold;
    FeetHeld(s, r);
    ControlKept(r.mem, mem, r.control, s.control, Feet(s, r));
  }

  lemma FeetHeld(s: State<u32>, r: Raw)
    requires Refines(s, r)
    ensures ControlHolds(r.mem, r.control, s.control) && ControlFeet(r.mem, r.control, s.control) <= Feet(s, r)
    ensures LocalsHold(r.mem, r.locals, s.locals) && LocalsFeet(r.locals, s.locals) <= Feet(s, r)
    ensures LocalsFeet(r.locals, s.locals) !! ControlFeet(r.mem, r.control, s.control)
  {
  }

  lemma AgreeItself(mem: Memory, cells: set<u32>)
    requires cells <= mem.Keys
    ensures Agree(mem, mem, cells)
  {
  }

  /** A plain operation asks for the same on both memories, or for the same store. */
  lemma PlainActs(op: Op, imm: u32, x: u32, y: u32, locals: Locals, visible: Memory, mem: Memory, cells: set<u32>)
    requires Plain(op) && Within(visible, mem) && cells <= mem.Keys && cells !! visible.Keys
    requires Act(op, imm, x, y, locals, visible) != Halting(Fault)
    ensures
      var act, raw := Act(op, imm, x, y, locals, visible), Act(op, imm, x, y, NoLocals, mem);
      if act.Update? then
        && raw.Update? && act.locals == locals && Within(act.mem, raw.mem) && Agree(mem, raw.mem, cells)
        && act.mem.Keys == visible.Keys
      else act == raw && !act.Native? && (act.Transfer? ==> act.flow.Fall? || act.flow.Goto?)
  {
    hide Read, Write, Compute, Le16, Le32, SignExtend8, SignExtend16, Byte, Half, Word, Within, Agree;
    if Computes(op) {
      ActComputes(op, imm, x, y, locals, visible);
      ActComputes(op, imm, x, y, NoLocals, mem);
      ComputeShape(op, x, y);
    } else if op == LDM_UB || op == LDM_SB {
      ReadLifts(visible, mem, x, 1);
    } else if op == LDM_UH || op == LDM_SH {
      ReadLifts(visible, mem, x, 2);
    } else if op == LDM_W {
      ReadLifts(visible, mem, x, 4);
    } else if op == STM_B {
      WriteLifts(visible, mem, x, [y % 0x100], cells);
    } else if op == STM_H {
      WriteLifts(visible, mem, x, Le16(y % 0x1_0000), cells);
    } else if op == STM_W {
      WriteLifts(visible, mem, x, Le32(y), cells);
    }
  }

  /** What an operation does to the value machine. */
  function Carried(env: Env, op: Op, imm: u32, a: seq<u32>, next: u32, s: State<u32>): Outcome<u32> {
    Resume(s.control, next, Exec(env, op, imm, a, Core(s.data, s.locals, s.mem)))
  }

  predicate Defined(o: Outcome<u32>) {
    o != Halted(Fault) && o != Halted(Undefined)
  }

  lemma RunningDefined(o: Outcome<u32>)
    requires o.Running?
    ensures Defined(o)
  {
  }

  lemma PlainRaw(env: Env, op: Op, imm: u32, a: seq<u32>, next: u32, block: u32, r: Raw)
    requires Plain(op) && |a| >= Uses(op)
    ensures RawExec(env, op, imm, a, next, block, r) == RawPlain(env, op, imm, a, next, r)
  {
    hide RawPlain, Uses;
  }

  /** Carrying out such actions leaves the same data stack and flow, and memories that agree. */
  lemma PlainPerforms(env: Env, act: Action, raw: Action, data: seq<u32>, locals: Locals, visible: Memory,
                      mem: Memory, cells: set<u32>)
    requires Within(visible, mem) && cells <= mem.Keys
    requires if act.Update? then
        raw.Update? && act.locals == locals && Within(act.mem, raw.mem) && Agree(mem, raw.mem, cells)
        && act.mem.Keys == visible.Keys
      else act == raw && !act.Native? && (act.Transfer? ==> act.flow.Fall? || act.flow.Goto?)
    ensures
      var e := Perform(env, act, Core(data, locals, visible));
      var f := Perform(env, raw, Core(data, NoLocals, mem));
      if e.Stop? then f == e
      else
        && f.Done? && f.core.data == e.core.data && f.flow == e.flow && (f.flow.Fall? || f.flow.Goto?)
        && e.core.locals == locals && Within(e.core.mem, f.core.mem) && Agree(mem, f.core.mem, cells)
        && e.core.mem.Keys == visible.Keys
  {
    hide Within, Agree, CallNative;
    AgreeItself(mem, cells);
  }

  lemma PlainRefines(env: Env, op: Op, imm: u32, a: seq<u32>, next: u32, block: u32,
                     s: State<u32>, r: Raw)
    requires Plain(op) && Refines(s, r) && Defined(Carried(env, op, imm, a, next, s))
    ensures Matches(s, r, Carried(env, op, imm, a, next, s), RawExec(env, op, imm, a, next, block, r))
  {
    hide Act, Refines, Moves, Uses, Plain, Within, Agree, Exec, RawExec, Perform;
    RefinesParts(s, r);
    var x := if |a| > 0 then a[0] else 0;
    var y := if |a| > 1 then a[1] else 0;
    ExecActs(env, op, imm, a, Core(s.data, s.locals, s.mem));
    ExecActs(env, op, imm, a, Core(r.data, NoLocals, r.mem));
    if |a| >= Uses(op) {
      var act, raw := Act(op, imm, x, y, s.locals, s.mem), Act(op, imm, x, y, NoLocals, r.mem);
      PlainRaw(env, op, imm, a, next, block, r);
      HaltingStops(env, Core(s.data, s.locals, s.mem));
      PlainActs(op, imm, x, y, s.locals, s.mem, r.mem, Feet(s, r));
      PlainPerforms(env, act, raw, s.data, s.locals, s.mem, r.mem, Feet(s, r));
      var o, w := Carried(env, op, imm, a, next, s), RawExec(env, op, imm, a, next, block, r);
      if o.Running? {
        RefinesKept(s, r, o.state, w.state);
      }
    }
  }

  lemma HaltingStops(env: Env, core: Core)
    ensures Perform(env, Halting(Fault), core) == Stop(Fault)
  {
  }

  lemma RefinesParts(s: State<u32>, r: Raw)
    requires Refines(s, r)
    ensures r.pos == s.pos && r.data == s.data && Within(s.mem, r.mem) && r.own == s.mem.Keys
    ensures |r.control| == |s.control| && Feet(s, r) <= r.mem.Keys && Feet(s, r) !! s.mem.Keys
  {
  }

  lemma LocalsActs(imm: u32, x: u32, y: u32, locals: Locals, mem: Memory)
    ensures Act(LOCALS, imm, x, y, locals, mem) == Update(Locals(seq(imm, _ => Unset)), mem)
    ensures Act(LDLOC, imm, x, y, locals, mem) == LoadLocal(locals, imm)
    ensures Act(STLOC, imm, x, y, locals, mem) == StoreLocal(locals, imm, x, mem)
  {
    hide LoadLocal, StoreLocal, Compute, Read, Write;
  }

  lemma FlowActs(imm: u32, x: u32, y: u32, locals: Locals, mem: Memory)
    ensures Act(CALL, imm, x, y, locals, mem) == Transfer(Enter(imm))
    ensures Act(ICALL, imm, x, y, locals, mem) == Transfer(Enter(x))
    ensures Act(RET, imm, x, y, locals, mem) == Transfer(Leave)
    ensures Act(NCALL, imm, x, y, locals, mem) == Native(imm)
  {
    hide LoadLocal, StoreLocal, Compute, Read, Write;
  }

  lemma UsesOf(op: Op)
    ensures (op == LOCALS || op == LDLOC || op == CALL || op == RET || op == NCALL) ==> Uses(op) == 0
    ensures op == STLOC || op == ICALL ==> Uses(op) == 1
  {
  }

  lemma UnsetCells(m: Memory, block: u32, count: nat)
    requires block != 0 && count < 0x100 && Read(m, block, 4) == Some(Le32(count))
    ensures LocalsHold(m, block, Locals(seq(count, _ => Unset)))
    ensures LocalsFeet(block, Locals(seq(count, _ => Unset))) == Block(block, LocalsSize(count))
  {
    hide Read, Le32, Block;
  }

  /** A fresh block with its count written holds locals without values. */
  lemma NewLocals(count: u32, next: u32, block: u32, s: State<u32>, r: Raw)
    requires count < 0x100 && Refines(s, r) && Fresh(s, r, block, LocalsSize(count))
    ensures Write(r.mem, block, Le32(count)).Some?
    ensures
      var t := s.(pos := next, locals := Locals(seq(count, _ => Unset)));
      var u := r.(pos := next, locals := block, mem := Write(r.mem, block, Le32(count)).value);
      Refines(t, u) && Moves(ControlFeet(r.mem, r.control, s.control), r, u)
  {
    RefinesParts(s, r);
    hide Within, Read, Write, Le32, ControlHolds, ControlFeet, Block, Agree, LocalsHold, LocalsFeet, LocalsSize;
    FetchInvertsStore32(count);
    BlockFront(block, count);
    HiddenWrite(s.mem, r.mem, block, Le32(count));
    var m := Write(r.mem, block, Le32(count)).value;
    var feet := ControlFeet(r.mem, r.control, s.control);
    WriteAgrees(r.mem, block, Le32(count), feet);
    ControlKept(r.mem, m, r.control, s.control, feet);
    UnsetCells(m, block, count);
  }

  lemma BlockFront(block: u32, count: nat)
    requires count < 0x100
    ensures Block(block, 4) <= Block(block, LocalsSize(count))
  {
    PartOfBlock(block, LocalsSize(count), 0, 4);
    BlockStart(block);
  }

  lemma LocalsRefines(env: Env, imm: u32, a: seq<u32>, next: u32, block: u32, s: State<u32>, r: Raw)
    requires imm < 0x100 && Refines(s, r) && Fresh(s, r, block, LocalsSize(imm))
    ensures Matches(s, r, Carried(env, LOCALS, imm, a, next, s),
                    RawExec(env, LOCALS, imm, a, next, block, r))
  {
    NewLocals(imm, next, block, s, r);
    RefinesParts(s, r);
    hide Act, Uses, Refines, Moves, Fresh, Write, Exec;
    UsesOf(LOCALS);
    ExecActs(env, LOCALS, imm, a, Core(s.data, s.locals, s.mem));
    LocalsActs(imm, if |a| > 0 then a[0] else 0, if |a| > 1 then a[1] else 0, s.locals, s.mem);
  }

  lemma LoadRefines(env: Env, imm: u32, a: seq<u32>, next: u32, block: u32, s: State<u32>, r: Raw)
    requires Refines(s, r) && Defined(Carried(env, LDLOC, imm, a, next, s))
    ensures Matches(s, r, Carried(env, LDLOC, imm, a, next, s), RawExec(env, LDLOC, imm, a, next, block, r))
  {
    hide Act, Uses, Within, Read, Write, Le32, Fetch32, ControlHolds, ControlFeet, Block, Moves, Exec;
    UsesOf(LDLOC);
    ExecActs(env, LDLOC, imm, a, Core(s.data, s.locals, s.mem));
    LocalsActs(imm, if |a| > 0 then a[0] else 0, if |a| > 1 then a[1] else 0, s.locals, s.mem);
    if s.locals.Locals? {
      var cells := s.locals.cells;
      FetchInvertsStore32(|cells|);
      if imm < |cells| {
        assert CellHolds(r.mem, CellAddr(r.locals, imm), cells[imm]);
        if cells[imm].Set? {
          FetchInvertsStore32(cells[imm].value);
        }
      }
    }
    AgreeItself(r.mem, Feet(s, r));
    var o, w := Carried(env, LDLOC, imm, a, next, s), RawExec(env, LDLOC, imm, a, next, block, r);
    if o.Running? {
      RefinesKept(s, r, o.state, w.state);
    }
  }

  /** Distinct cells of a block of locals, and its count, do not share bytes. */
  lemma CellsApart(locals: u32, i: nat, j: nat)
    requires i < 0x100 && j < 0x100 && i != j
    ensures Block(CellAddr(locals, i), 4) !! Block(CellAddr(locals, j), 4)
    ensures Block(CellAddr(locals, i), 4) !! Block(locals, 4)
  {
    hide Offset;
    forall a | a in Block(CellAddr(locals, i), 4)
      ensures a !in Block(CellAddr(locals, j), 4) && a !in Block(locals, 4)
    {
      ShiftedOffset(a, locals, 4 + 4 * i, 4);
      if a in Block(CellAddr(locals, j), 4) {
        ShiftedOffset(a, locals, 4 + 4 * j, 4);
      }
    }
  }

  lemma StoredCell(mem: Memory, locals: u32, cells: seq<Cell>, i: nat, x: u32, m: Memory)
    requires LocalsHold(mem, locals, Locals(cells)) && i < |cells|
    requires forall a :: a in LocalsFeet(locals, Locals(cells)) ==> a in mem
    requires Write(mem, CellAddr(locals, i), Le32(x)) == Some(m) && Read(m, CellAddr(locals, i), 4) == Some(Le32(x))
    ensures LocalsHold(m, locals, Locals(cells[i := Set(x)]))
  {
    hide Read, Write, Le32, Block, Agree;
    FetchInvertsStore32(x);
    var n := |cells|;
    PartOfBlock(locals, LocalsSize(n), 0, 4);
    BlockStart(locals);
    CellsApart(locals, i, if i == 0 then 1 else 0);
    WriteAgrees(mem, CellAddr(locals, i), Le32(x), Block(locals, 4));
    ReadAgrees(mem, m, locals, 4, Block(locals, 4));
    forall j | 0 <= j < n ensures CellHolds(m, CellAddr(locals, j), cells[i := Set(x)][j]) {
      if j != i {
        assert CellHolds(mem, CellAddr(locals, j), cells[j]);
        PartOfBlock(locals, LocalsSize(n), 4 + 4 * j, 4);
        CellsApart(locals, i, j);
        WriteAgrees(mem, CellAddr(locals, i), Le32(x), Block(CellAddr(locals, j), 4));
        ReadAgrees(mem, m, CellAddr(locals, j), 4, Block(CellAddr(locals, j), 4));
      }
    }
  }

  lemma CellInside(locals: u32, n: nat, i: nat)
    requires i < n < 0x100
    ensures Block(CellAddr(locals, i), 4) <= Block(locals, LocalsSize(n))
  {
    PartOfBlock(locals, LocalsSize(n), 4 + 4 * i, 4);
  }

  /** Storing into a cell of the current block. */
  lemma StoredRefines(i: u32, x: u32, next: u32, s: State<u32>, r: Raw)
    requires Refines(s, r) && s.locals.Locals? && i < |s.locals.cells|
    ensures |r.control| == |s.control| && Write(r.mem, CellAddr(r.locals, i), Le32(x)).Some?
    ensures
      var t := s.(pos := next, locals := Locals(s.locals.cells[i := Set(x)]));
      var u := r.(pos := next, mem := Write(r.mem, CellAddr(r.locals, i), Le32(x)).value);
      Refines(t, u) && Moves(ControlFeet(r.mem, r.control, s.control), r, u)
  {
    RefinesParts(s, r);
    hide Within, Read, Write, Le32, Fetch32, ControlHolds, ControlFeet, Block, Agree, LocalsHold, CellAddr, WordAt;
    var at, n := CellAddr(r.locals, i), |s.locals.cells|;
    FetchInvertsStore32(x);
    CountFits(r.mem, r.locals, s.locals);
    CellInside(r.locals, n, i);
    HiddenWrite(s.mem, r.mem, at, Le32(x));
    var m := Write(r.mem, at, Le32(x)).value;
    StoredCell(r.mem, r.locals, s.locals.cells, i, x, m);
    var feet := ControlFeet(r.mem, r.control, s.control);
    WriteAgrees(r.mem, at, Le32(x), feet);
    ControlKept(r.mem, m, r.control, s.control, feet);
  }

  /** The count word of a block of locals is the number of cells. */
  lemma CountFits(mem: Memory, block: u32, locals: Locals)
    requires LocalsHold(mem, block, locals)
    ensures block == 0 <==> locals.NoLocals?
    ensures locals.Locals? ==> |locals.cells| < 0x100 && WordAt(mem, block) == Some(|locals.cells|)
  {
    hide Read, Le32, Fetch32;
    if locals.Locals? {
      FetchInvertsStore32(|locals.cells|);
    }
  }

  lemma StoreRefines(env: Env, imm: u32, a: seq<u32>, next: u32, block: u32, s: State<u32>, r: Raw)
    requires Refines(s, r) && Defined(Carried(env, STLOC, imm, a, next, s))
    ensures Matches(s, r, Carried(env, STLOC, imm, a, next, s), RawExec(env, STLOC, imm, a, next, block, r))
  {
    CountFits(r.mem, r.locals, s.locals);
    RefinesParts(s, r);
    hide Act, Uses, Refines, Moves, WordAt, Write, Exec;
    UsesOf(STLOC);
    ExecActs(env, STLOC, imm, a, Core(s.data, s.locals, s.mem));
    LocalsActs(imm, if |a| > 0 then a[0] else 0, if |a| > 1 then a[1] else 0, s.locals, s.mem);
    if s.locals.Locals? && imm < |s.locals.cells| && |a| > 0 {
      StoredRefines(imm, a[0], next, s, r);
    }
  }

  /** The three words of a frame. */
  lemma FrameWords(mem: Memory, block: u32, next: u32, locals: u32, depth: u32)
    requires Read(mem, block, FRAME_SIZE) == Some(Le32(next) + (Le32(locals) + Le32(depth)))
    ensures Read(mem, block, 4) == Some(Le32(next)) && WordAt(mem, Wrap(block + 4)) == Some(locals)
  {
    hide Read, Le32, Fetch32, Wrap;
    FetchInvertsStore32(next);
    FetchInvertsStore32(locals);
    FetchInvertsStore32(depth);
    var bytes := Le32(next) + (Le32(locals) + Le32(depth));
    S.ReadInside(mem, block, FRAME_SIZE, 0, 4);
    S.ReadInside(mem, block, FRAME_SIZE, 4, 4);
    BlockStart(block);
    assert bytes[0..4] == Le32(next) && bytes[4..8] == Le32(locals);
  }

  /** The frame a call leaves: return address, caller's locals, depth of the data stack. */
  lemma FrameLayout(target: u32, next: u32, block: u32, r: Raw)
    requires RawEnter(target, next, block, r).RawRunning?
    ensures
      var u := RawEnter(target, next, block, r).state;
      && u.control == [block] + r.control && u.locals == 0 && u.pos == target
      && WordAt(u.mem, block) == Some(next) && WordAt(u.mem, Wrap(block + 4)) == Some(r.locals)
      && WordAt(u.mem, Wrap(block + 8)) == Some(Wrap(|r.data|))
  {
    hide Write, Read, Le32, Fetch32, Wrap;
    FetchInvertsStore32(next);
    FetchInvertsStore32(r.locals);
    FetchInvertsStore32(Wrap(|r.data|));
    var bytes := Le32(next) + (Le32(r.locals) + Le32(Wrap(|r.data|)));
    var m := RawEnter(target, next, block, r).state.mem;
    ReadsBack(r.mem, block, bytes);
    FrameWords(m, block, next, r.locals, Wrap(|r.data|));
    S.ReadInside(m, block, FRAME_SIZE, 8, 4);
    assert bytes[8..12] == Le32(Wrap(|r.data|));
  }

  /** LOCALS writes its count to the block, and local `i` is the word `4 + 4 * i` behind its start. */
  lemma LocalsLayout(op: Op, imm: u32, x: u32, next: u32, block: u32, r: Raw)
    requires (op == LOCALS || op == STLOC) && RawLocals(op, imm, x, next, block, r).RawRunning?
    ensures
      var u := RawLocals(op, imm, x, next, block, r).state;
      if op == LOCALS then u.locals == block && WordAt(u.mem, block) == Some(imm)
      else u.locals == r.locals && WordAt(u.mem, Wrap(r.locals + 4 + 4 * imm)) == Some(x)
  {
    hide Write, Read, Le32, Fetch32, Wrap;
    FetchInvertsStore32(imm);
    FetchInvertsStore32(x);
    if op == LOCALS {
      ReadsBack(r.mem, block, Le32(imm));
    } else {
      ReadsBack(r.mem, Wrap(r.locals + 4 + 4 * imm), Le32(x));
    }
  }

  lemma EnterRefines(target: u32, next: u32, block: u32, s: State<u32>, r: Raw)
    requires Refines(s, r) && Fresh(s, r, block, FRAME_SIZE)
    ensures Matches(s, r, Resume(s.control, next, Done(Core(s.data, s.locals, s.mem), Enter(target))),
                    RawEnter(target, next, block, r))
  {
    hide Within, Read, Write, Le32, Block, LocalsHold, Agree;
    FetchInvertsStore32(next);
    FetchInvertsStore32(r.locals);
    FetchInvertsStore32(Wrap(|r.data|));
    var bytes := Le32(next) + (Le32(r.locals) + Le32(Wrap(|r.data|)));
    HiddenWrite(s.mem, r.mem, block, bytes);
    var m := Write(r.mem, block, bytes).value;
    FrameWords(m, block, next, r.locals, Wrap(|r.data|));
    var feet, own := ControlFeet(r.mem, r.control, s.control), LocalsFeet(r.locals, s.locals);
    WriteAgrees(r.mem, block, bytes, feet + own);
    AgreeLess(r.mem, m, feet, feet + own);
    LocalsKept(r.mem, m, r.locals, s.locals, feet + own);
    ControlKept(r.mem, m, r.control, s.control, feet + own);
    if |r.control| < CONTROL_CAPACITY {
      PushedFrame(m, block, Frame(next, s.locals), r.control, s.control);
      NothingHeld(m);
    }
  }

  lemma PushedFrame(m: Memory, block: u32, frame: Frame<u32>, control: seq<u32>, frames: seq<Frame<u32>>)
    requires FrameHolds(m, block, frame) && ControlHolds(m, control, frames)
    requires FrameFeet(m, block, frame) !! ControlFeet(m, control, frames)
    ensures ControlHolds(m, [block] + control, [frame] + frames)
    ensures ControlFeet(m, [block] + control, [frame] + frames) ==
      FrameFeet(m, block, frame) + ControlFeet(m, control, frames)
  {
    hide FrameHolds, FrameFeet;
    assert ([block] + control)[1..] == control && ([frame] + frames)[1..] == frames;
  }

  lemma NothingHeld(m: Memory)
    ensures LocalsHold(m, 0, NoLocals) && LocalsFeet(0, NoLocals) == {}
  {
  }

  lemma LeaveRefines(next: u32, s: State<u32>, r: Raw)
    requires Refines(s, r)
    ensures Matches(s, r, Resume(s.control, next, Done(Core(s.data, s.locals, s.mem), Leave)), RawLeave(r))
  {
    hide Within, Read, Le32, Fetch32, Block, LocalsHold, Agree, LocalsFeet;
    AgreeItself(r.mem, ControlFeet(r.mem, r.control, s.control));
    if |s.control| > 0 {
      FetchInvertsStore32(s.control[0].returnTo);
    }
  }

  /** What a thunk leaves of the program's bytes, put into the whole memory. */
  lemma MergedWithin(mem: Memory, visible: Memory, cells: set<u32>)
    requires cells <= mem.Keys && visible.Keys !! cells
    ensures Within(visible, mem + visible) && Agree(mem, mem + visible, cells)
  {
  }

  lemma HaltsAlike(s: State<u32>, r: Raw, h: Halt)
    ensures Matches(s, r, Halted(h), RawHalted(h))
  {
  }

  lemma MatchesRunning(s: State<u32>, r: Raw, t: State<u32>, u: Raw)
    requires Refines(t, u) && Moves(ControlFeet(r.mem, r.control, s.control), r, u)
    ensures Matches(s, r, Running(t), RawRunning(u))
  {
  }

  /** A native call does not look at the locals. */
  lemma NativeIgnoresLocals(env: Env, index: u32, data: seq<u32>, locals: Locals, mem: Memory)
    ensures
      var e, f := CallNative(env, index, Core(data, locals, mem)), CallNative(env, index, Core(data, NoLocals, mem));
      e == if f.Stop? then f else Done(Core(f.core.data, locals, f.core.mem), Fall)
  {
  }

  lemma NativeExec(env: Env, imm: u32, a: seq<u32>, core: Core)
    ensures Exec(env, NCALL, imm, a, core) == CallNative(env, imm, core)
  {
    hide Act, Uses, CallNative;
    UsesOf(NCALL);
    FlowActs(imm, if |a| > 0 then a[0] else 0, if |a| > 1 then a[1] else 0, core.locals, core.mem);
  }

  lemma NativeExecs(env: Env, imm: u32, a: seq<u32>, next: u32, block: u32, core: Core, r: Raw)
    ensures Exec(env, NCALL, imm, a, core) == CallNative(env, imm, core)
    ensures RawExec(env, NCALL, imm, a, next, block, r) == RawNative(env, imm, next, r)
  {
    hide Exec, Uses, CallNative, RawNative;
    NativeExec(env, imm, a, core);
    UsesOf(NCALL);
  }

  /** A native call on both machines. */
  lemma NativeUnfolds(env: Env, imm: u32, a: seq<u32>, next: u32, block: u32, s: State<u32>, r: Raw)
    requires Within(s.mem, r.mem) && r.data == s.data && r.own == s.mem.Keys
    ensures
      var e := CallNative(env, imm, Core(s.data, NoLocals, s.mem));
      && Carried(env, NCALL, imm, a, next, s) ==
         (if e.Stop? then Halted(e.halt) else Running(State(next, e.core.data, s.control, s.locals, e.core.mem)))
      && RawExec(env, NCALL, imm, a, next, block, r) ==
         (if e.Stop? then RawHalted(e.halt)
          else RawRunning(r.(pos := next, data := e.core.data, mem := r.mem + e.core.mem, own := e.core.mem.Keys)))
  {
    hide Within, Seen, Exec, CallNative, RawExec;
    NativeIgnoresLocals(env, imm, s.data, s.locals, s.mem);
    NativeExecs(env, imm, a, next, block, Core(s.data, s.locals, s.mem), r);
    SeesVisible(s.mem, r.mem);
  }

  lemma NativeRefines(env: Env, imm: u32, a: seq<u32>, next: u32, block: u32, s: State<u32>, r: Raw)
    requires Refines(s, r) && Apart(s, r, Carried(env, NCALL, imm, a, next, s))
    ensures Matches(s, r, Carried(env, NCALL, imm, a, next, s),
                    RawExec(env, NCALL, imm, a, next, block, r))
  {
    hide *;
    RefinesParts(s, r);
    NativeUnfolds(env, imm, a, next, block, s, r);
    var e := CallNative(env, imm, Core(s.data, NoLocals, s.mem));
    if e.Stop? {
      HaltsAlike(s, r, e.halt);
    } else {
      var t := State(next, e.core.data, s.control, s.locals, e.core.mem);
      var u := r.(pos := next, data := e.core.data, mem := r.mem + e.core.mem, own := e.core.mem.Keys);
      ApartRunning(s, r, t);
      MergedWithin(r.mem, e.core.mem, Feet(s, r));
      RefinesKept(s, r, t, u);
      MatchesRunning(s, r, t, u);
    }
  }

  lemma ApartRunning(s: State<u32>, r: Raw, t: State<u32>)
    requires Apart(s, r, Running(t))
    ensures t.mem.Keys !! Feet(s, r)
  {
  }

  // ---------- One step ----------

  /** Bytes the operation allocates. */
  function Room(op: Op, imm: u32): nat {
    if op == CALL || op == ICALL then FRAME_SIZE else if op == LOCALS then LocalsSize(imm) else 0
  }

  lemma StopsUndefined(control: seq<Frame<u32>>, next: u32)
    ensures Resume(control, next, Stop(Undefined)) == Halted(Undefined)
  {
  }

  /** Where control goes on values and on blocks. */
  lemma FlowUnfolds(env: Env, op: Op, imm: u32, a: seq<u32>, next: u32, block: u32,
                    s: State<u32>, r: Raw)
    requires op == CALL || op == ICALL || op == RET
    requires op == ICALL ==> Defined(Carried(env, op, imm, a, next, s))
    ensures
      var x := if |a| > 0 then a[0] else 0;
      var flow := if op == RET then Leave else Enter(if op == CALL then imm else x);
      && Carried(env, op, imm, a, next, s) == Resume(s.control, next, Done(Core(s.data, s.locals, s.mem), flow))
      && RawExec(env, op, imm, a, next, block, r) ==
         (if op == RET then RawLeave(r) else RawEnter(if op == CALL then imm else x, next, block, r))
  {
    hide Act, Uses, Exec, RawEnter, RawLeave, Resume;
    UsesOf(op);
    ExecActs(env, op, imm, a, Core(s.data, s.locals, s.mem));
    FlowActs(imm, if |a| > 0 then a[0] else 0, if |a| > 1 then a[1] else 0, s.locals, s.mem);
    StopsUndefined(s.control, next);
  }

  lemma FlowRefines(env: Env, op: Op, imm: u32, a: seq<u32>, next: u32, block: u32,
                    s: State<u32>, r: Raw)
    requires op == CALL || op == ICALL || op == RET
    requires Refines(s, r) && Defined(Carried(env, op, imm, a, next, s))
    requires op != RET ==> Fresh(s, r, block, FRAME_SIZE)
    ensures Matches(s, r, Carried(env, op, imm, a, next, s), RawExec(env, op, imm, a, next, block, r))
  {
    hide *;
    RefinesParts(s, r);
    FlowUnfolds(env, op, imm, a, next, block, s, r);
    if op == RET {
      LeaveRefines(next, s, r);
    } else {
      EnterRefines(if op == CALL then imm else if |a| > 0 then a[0] else 0, next, block, s, r);
    }
  }

  lemma RoomOf(op: Op, imm: u32)
    ensures Room(op, imm) ==
      if op == CALL || op == ICALL then FRAME_SIZE else if op == LOCALS then LocalsSize(imm) else 0
    ensures LocalsSize(imm) > 0 && FRAME_SIZE > 0
  {
  }

  lemma PlainOps(op: Op)
    ensures Plain(op) <==>
      op != LOCALS && op != LDLOC && op != STLOC && op != CALL && op != ICALL && op != RET && op != NCALL
  {
  }

  lemma ExecRefines(env: Env, op: Op, imm: u32, a: seq<u32>, next: u32, block: u32,
                    s: State<u32>, r: Raw)
    requires Refines(s, r) && Defined(Carried(env, op, imm, a, next, s))
    requires Apart(s, r, Carried(env, op, imm, a, next, s))
    requires op == LOCALS ==> imm < 0x100
    requires Room(op, imm) > 0 ==> Fresh(s, r, block, Room(op, imm))
    ensures Matches(s, r, Carried(env, op, imm, a, next, s), RawExec(env, op, imm, a, next, block, r))
  {
    hide *;
    RoomOf(op, imm);
    PlainOps(op);
    if op == LOCALS {
      LocalsRefines(env, imm, a, next, block, s, r);
    } else if op == LDLOC {
      LoadRefines(env, imm, a, next, block, s, r);
    } else if op == STLOC {
      StoreRefines(env, imm, a, next, block, s, r);
    } else if op == CALL || op == ICALL || op == RET {
      FlowRefines(env, op, imm, a, next, block, s, r);
    } else if op == NCALL {
      NativeRefines(env, imm, a, next, block, s, r);
    } else {
      PlainRefines(env, op, imm, a, next, block, s, r);
    }
  }

  // An operation about to run: its inline operand, its popped operands and the address behind it.
  datatype Decoding = Decoding(op: Op, imm: u32, popped: nat, next: u32)

  /** What a state is about to run, unless it stops before that. */
  function Decode(s: State<u32>): (d: Option<Decoding>)
    ensures d.Some? ==> d.value.popped <= |s.data|
  {
    if s.pos !in s.mem || DecodeCount(s.mem[s.pos]) > |s.data| then None else
    match DecodeOp(s.mem[s.pos])
    case None => None
    case Some(op) =>
      match Read(s.mem, Wrap(s.pos + 1), OperandBytes(op))
      case None => None
      case Some(bytes) =>
        var next := Wrap(s.pos + 1 + OperandBytes(op));
        Some(Decoding(op, Immediate(op, bytes, next), DecodeCount(s.mem[s.pos]), next))
  }

  /** Bytes the upcoming operation allocates. */
  function Needs(s: State<u32>): nat {
    match Decode(s)
    case None => 0
    case Some(d) => Room(d.op, d.imm)
  }

  /** A call asks for three words, LOCALS for one and as many as it makes locals, and nothing else for
      any. */
  lemma NeedsExactly(s: State<u32>)
    requires Decode(s).Some?
    ensures
      var d := Decode(s).value;
      Needs(s) ==
        if d.op == CALL || d.op == ICALL then 12 else if d.op == LOCALS then 4 + 4 * d.imm as int else 0
  {
    hide Decode;
  }

  lemma LocalsCount(s: State<u32>)
    ensures Decode(s).Some? && Decode(s).value.op == LOCALS ==> Decode(s).value.imm < 0x100
  {
    hide Read, SlotOp, DecodeCount;
  }

  /** The data stack is no part of the blocks. */
  lemma Popping(s: State<u32>, r: Raw, data: seq<u32>, block: u32, n: nat)
    requires Refines(s, r)
    ensures Refines(s.(data := data), r.(data := data)) && Feet(s.(data := data), r.(data := data)) == Feet(s, r)
    ensures n > 0 ==> (Fresh(s, r, block, n) ==> Fresh(s.(data := data), r.(data := data), block, n))
  {
    RefinesParts(s, r);
    hide Within, ControlHolds, LocalsHold;
  }

  lemma Unpopping(s: State<u32>, r: Raw, data: seq<u32>, o: Outcome<u32>, w: RawOutcome)
    requires Matches(s.(data := data), r.(data := data), o, w)
    ensures Matches(s, r, o, w)
  {
    hide Refines;
  }

  lemma ApartSame(s: State<u32>, r: Raw, s': State<u32>, r': Raw, o: Outcome<u32>)
    requires Apart(s, r, o) && Feet(s', r') == Feet(s, r)
    ensures Apart(s', r', o)
  {
    hide Feet;
  }

  lemma SamePlace(s: State<u32>, r: Raw)
    requires Within(s.mem, r.mem) && r.pos == s.pos
    ensures s.pos in s.mem ==> r.pos in r.mem && r.mem[r.pos] == s.mem[s.pos]
  {
  }

  /** Both machines run the same operation with the same operand, or stop before they do. */
  lemma DecodesAlike(env: Env, block: u32, s: State<u32>, r: Raw)
    requires Within(s.mem, r.mem) && r.pos == s.pos && r.data == s.data && Defined(Step(env, s))
    ensures match Decode(s)
      case None => Step(env, s).Halted? && RawStep(env, block, r) == RawHalted(Step(env, s).halt)
      case Some(d) =>
        var a, rest := s.data[..d.popped], s.data[d.popped..];
        && Step(env, s) == Carried(env, d.op, d.imm, a, d.next, s.(data := rest))
        && RawStep(env, block, r) == RawExec(env, d.op, d.imm, a, d.next, block, r.(data := rest))
  {
    hide Exec, Immediate, OperandBytes, SlotOp, Resume, RawExec, Read, Within, DecodeCount;
    SamePlace(s, r);
    if Upcoming(s).Some? {
      var operand := Read(s.mem, Wrap(s.pos + 1), OperandBytes(Upcoming(s).value));
      if operand.Some? {
        ReadLifts(s.mem, r.mem, Wrap(s.pos + 1), OperandBytes(Upcoming(s).value));
      }
    }
  }

  lemma PoppedRefines(env: Env, op: Op, imm: u32, n: nat, next: u32, block: u32, s: State<u32>, r: Raw)
    requires Refines(s, r) && n <= |s.data|
    requires Defined(Carried(env, op, imm, s.data[..n], next, s.(data := s.data[n..])))
    requires Apart(s, r, Carried(env, op, imm, s.data[..n], next, s.(data := s.data[n..])))
    requires op == LOCALS ==> imm < 0x100
    requires Room(op, imm) > 0 ==> Fresh(s, r, block, Room(op, imm))
    ensures Matches(s, r, Carried(env, op, imm, s.data[..n], next, s.(data := s.data[n..])),
                    RawExec(env, op, imm, s.data[..n], next, block, r.(data := s.data[n..])))
  {
    hide *;
    Popping(s, r, s.data[n..], block, Room(op, imm));
    var popped, raw := s.(data := s.data[n..]), r.(data := s.data[n..]);
    ApartSame(s, r, popped, raw, Carried(env, op, imm, s.data[..n], next, popped));
    ExecRefines(env, op, imm, s.data[..n], next, block, popped, raw);
    Unpopping(s, r, s.data[n..], Carried(env, op, imm, s.data[..n], next, popped),
              RawExec(env, op, imm, s.data[..n], next, block, raw));
  }

  lemma NeedsRoom(s: State<u32>)
    ensures Decode(s).Some? ==> Needs(s) == Room(Decode(s).value.op, Decode(s).value.imm)
  {
    hide Decode, Room;
  }

  lemma BlockStepRefines(env: Env, block: u32, s: State<u32>, r: Raw)
    requires Refines(s, r) && Defined(Step(env, s)) && Apart(s, r, Step(env, s))
    requires Needs(s) > 0 ==> Fresh(s, r, block, Needs(s))
    ensures Matches(s, r, Step(env, s), RawStep(env, block, r))
  {
    hide *;
    RefinesParts(s, r);
    DecodesAlike(env, block, s, r);
    NeedsRoom(s);
    LocalsCount(s);
    var d := Decode(s);
    if d.Some? {
      PoppedRefines(env, d.value.op, d.value.imm, d.value.popped, d.value.next, block, s, r);
    } else {
      HaltsAlike(s, r, Step(env, s).halt);
    }
  }

  /** The allocator may change any byte but the program's and those of the blocks in use, and returns
      a fresh block when one is asked for; and the step takes no byte of a block in use. */
  ghost predicate Served(env: Env, s: State<u32>, r: Raw, v: Service) {
    && Undisturbed(s, r, v.mem) && Apart(s, r, Step(env, s))
    && (Needs(s) > 0 ==> Fresh(s, r.(mem := v.mem), v.block, Needs(s)))
  }

  /** One step on values that neither traps nor reads something indeterminate is one step on blocks,
      whatever the allocator does outside the blocks in use. */
  lemma StepRefines(env: Env, s: State<u32>, r: Raw, v: Service)
    requires Refines(s, r) && Defined(Step(env, s)) && Served(env, s, r, v)
    ensures Matches(s, r, Step(env, s), RawStep(env, v.block, r.(mem := v.mem)))
  {
    hide Step, RawStep, Refines, Apart, Matches, Fresh, Needs, Undisturbed, Feet, Moves, ControlFeet;
    var x := r.(mem := v.mem);
    UndisturbedRefines(s, r, v.mem);
    ApartSame(s, r, s, x, Step(env, s));
    BlockStepRefines(env, v.block, s, x);
    ServedMatches(s, r, v.mem, Step(env, s), RawStep(env, v.block, x));
  }

  lemma AgreeThen(mem: Memory, other: Memory, last: Memory, cells: set<u32>)
    requires Agree(mem, other, cells) && Agree(other, last, cells)
    ensures Agree(mem, last, cells)
  {
  }

  lemma MovesThen(feet: set<u32>, r: Raw, mem: Memory, u: Raw)
    requires Agree(r.mem, mem, feet) && Moves(feet, r.(mem := mem), u)
    requires |r.control| > 0 ==> SavedLocals(mem, r.control[0]) == SavedLocals(r.mem, r.control[0])
    ensures Moves(feet, r, u)
  {
    AgreeThen(r.mem, mem, u.mem, feet);
    hide Agree, SavedLocals;
  }

  /** What the allocator did in front of a step is no move of its own. */
  lemma ServedMatches(s: State<u32>, r: Raw, mem: Memory, o: Outcome<u32>, w: RawOutcome)
    requires Refines(s, r) && Matches(s, r.(mem := mem), o, w)
    requires Moves(ControlFeet(r.mem, r.control, s.control), r, r.(mem := mem))
    requires ControlFeet(mem, r.control, s.control) == ControlFeet(r.mem, r.control, s.control)
    ensures Matches(s, r, o, w)
  {
    hide Refines, ControlFeet, SavedLocals, Moves;
    RefinesParts(s, r);
    if o.Running? {
      var feet := ControlFeet(r.mem, r.control, s.control);
      if |r.control| > 0 {
        SavedStays(r, r.(mem := mem), s.control, 0);
      }
      MovesAgree(feet, r, r.(mem := mem));
      MovesThen(feet, r, mem, w.state);
    }
  }

  lemma MovesAgree(feet: set<u32>, r: Raw, u: Raw)
    requires Moves(feet, r, u)
    ensures Agree(r.mem, u.mem, feet)
  {
  }

  // ---------- Who takes bytes ----------

  lemma WithinItself(mem: Memory)
    ensures Within(mem, mem)
  {
  }

  lemma PlainKeys(env: Env, op: Op, imm: u32, a: seq<u32>, next: u32, s: State<u32>)
    requires Plain(op) && Carried(env, op, imm, a, next, s).Running?
    ensures Carried(env, op, imm, a, next, s).state.mem.Keys == s.mem.Keys
  {
    hide Act, Uses, Exec, Perform, Within, Agree;
    ExecActs(env, op, imm, a, Core(s.data, s.locals, s.mem));
    if |a| >= Uses(op) {
      HaltingStops(env, Core(s.data, s.locals, s.mem));
      var x, y := if |a| > 0 then a[0] else 0, if |a| > 1 then a[1] else 0;
      WithinItself(s.mem);
      PlainActs(op, imm, x, y, s.locals, s.mem, s.mem, {});
      PlainPerforms(env, Act(op, imm, x, y, s.locals, s.mem), Act(op, imm, x, y, NoLocals, s.mem), s.data, s.locals,
                    s.mem, s.mem, {});
    }
  }

  lemma OtherKeys(env: Env, op: Op, imm: u32, a: seq<u32>, next: u32, s: State<u32>)
    requires !Plain(op) && op != NCALL && Carried(env, op, imm, a, next, s).Running?
    ensures Carried(env, op, imm, a, next, s).state.mem.Keys == s.mem.Keys
  {
    hide Act, Uses, Exec;
    UsesOf(op);
    ExecActs(env, op, imm, a, Core(s.data, s.locals, s.mem));
    if OnLocals(op) {
      LocalsActs(imm, if |a| > 0 then a[0] else 0, if |a| > 1 then a[1] else 0, s.locals, s.mem);
    } else {
      FlowActs(imm, if |a| > 0 then a[0] else 0, if |a| > 1 then a[1] else 0, s.locals, s.mem);
    }
  }

  /** Thunks that map no further bytes for the program. */
  ghost predicate Quiet(env: Env) {
    forall proc: u32, data: seq<u32>, mem: Memory ::
      env.native(proc, data, mem).Returned? ==> env.native(proc, data, mem).mem.Keys <= mem.Keys
  }

  lemma QuietKeys(env: Env, imm: u32, a: seq<u32>, next: u32, s: State<u32>)
    requires Quiet(env) && Carried(env, NCALL, imm, a, next, s).Running?
    ensures Carried(env, NCALL, imm, a, next, s).state.mem.Keys <= s.mem.Keys
  {
    hide Exec;
    NativeExec(env, imm, a, Core(s.data, s.locals, s.mem));
  }

  /** Only a thunk that maps further bytes can take one of a block in use. */
  lemma OnlyThunksTake(env: Env, s: State<u32>, r: Raw)
    requires Refines(s, r) && (Upcoming(s) == Some(NCALL) ==> Quiet(env))
    ensures Apart(s, r, Step(env, s))
  {
    hide *;
    RefinesParts(s, r);
    if Step(env, s).Running? {
      StepCarries(env, s);
      var d := Decode(s).value;
      var a, popped := s.data[..d.popped], s.(data := s.data[d.popped..]);
      if d.op == NCALL {
        QuietKeys(env, d.imm, a, d.next, popped);
      } else if Plain(d.op) {
        PlainKeys(env, d.op, d.imm, a, d.next, popped);
      } else {
        OtherKeys(env, d.op, d.imm, a, d.next, popped);
      }
    }
    ApartKeys(s, r, Step(env, s));
  }

  lemma ApartKeys(s: State<u32>, r: Raw, o: Outcome<u32>)
    requires Feet(s, r) !! s.mem.Keys && (o.Running? ==> o.state.mem.Keys <= s.mem.Keys)
    ensures Apart(s, r, o)
  {
    hide Feet;
  }

  /** A state that runs has an operation to run. */
  lemma StepCarries(env: Env, s: State<u32>)
    ensures Step(env, s).Running? ==> Decode(s).Some?
    ensures Decode(s).Some? ==>
      var d := Decode(s).value;
      && Upcoming(s) == Some(d.op)
      && Step(env, s) == Carried(env, d.op, d.imm, s.data[..d.popped], d.next, s.(data := s.data[d.popped..]))
  {
    hide Exec, Immediate, OperandBytes, SlotOp, Resume, Read, DecodeCount;
  }

  // ---------- Whole runs ----------

  ghost predicate ServedAt(env: Env, v: Service, o: Outcome<u32>, w: RawOutcome) {
    o.Running? && w.RawRunning? ==> Served(env, o.state, w.state, v)
  }

  /** The allocator serves the first `k` steps well. */
  ghost predicate AllServed(envs: nat -> Env, serve: nat -> Service, s: State<u32>, r: Raw, k: nat) {
    forall j | 0 <= j < k :: ServedAt(envs(j), serve(j), Run(envs, s, j), RawRun(envs, serve, r, j))
  }

  ghost predicate SameOutcome(o: Outcome<u32>, w: RawOutcome) {
    match o
    case Halted(h) => w == RawHalted(h)
    case Running(t) => w.RawRunning? && Refines(t, w.state)
  }

  lemma MatchesSame(s: State<u32>, r: Raw, o: Outcome<u32>, w: RawOutcome)
    requires Matches(s, r, o, w)
    ensures SameOutcome(o, w)
  {
    hide Refines, Moves;
  }

  /** As long as the run on values neither traps nor reads something indeterminate, the run on blocks
      does the same: whatever the allocator does with memory that is not in use, and although blocks
      given back may be handed out again, to the VM or to the program. */
  lemma {:induction false} RunRefines(envs: nat -> Env, serve: nat -> Service, s: State<u32>, r: Raw, k: nat)
    requires Refines(s, r) && AllServed(envs, serve, s, r, k) && Defined(Run(envs, s, k))
    ensures SameOutcome(Run(envs, s, k), RawRun(envs, serve, r, k))
  {
    hide Step, RawStep, Refines, Matches, Served;
    if k > 0 {
      RunRefines(envs, serve, s, r, k - 1);
      var o, w := Run(envs, s, k - 1), RawRun(envs, serve, r, k - 1);
      if o.Running? {
        var env, v := envs(k - 1), serve(k - 1);
        assert ServedAt(env, v, o, w);
        StepRefines(env, o.state, w.state, v);
        MatchesSame(o.state, w.state, Step(env, o.state), RawStep(env, v.block, w.state.(mem := v.mem)));
      }
    }
  }

  /** How one step inside a run moves frames. */
  lemma RunMoves(envs: nat -> Env, serve: nat -> Service, s: State<u32>, r: Raw, k: nat)
    requires Refines(s, r) && AllServed(envs, serve, s, r, k + 1)
    requires Run(envs, s, k + 1).Running?
    ensures Run(envs, s, k).Running? && RawRun(envs, serve, r, k).RawRunning?
    ensures RawRun(envs, serve, r, k + 1).RawRunning?
    ensures Run(envs, s, k + 1) == Step(envs(k), Run(envs, s, k).state)
    ensures
      var a, x := Run(envs, s, k).state, RawRun(envs, serve, r, k).state;
      var b, y := Run(envs, s, k + 1).state, RawRun(envs, serve, r, k + 1).state;
      && |x.control| == |a.control| && |y.control| == |b.control|
      && Refines(a, x) && Refines(b, y) && Moves(ControlFeet(x.mem, x.control, a.control), x, y)
  {
    hide Step, RawStep, Refines, Served, Moves, ControlFeet;
    RunRefines(envs, serve, s, r, k);
    var o, w := Run(envs, s, k), RawRun(envs, serve, r, k);
    assert ServedAt(envs(k), serve(k), o, w);
    RefinesParts(o.state, w.state);
    StepRefines(envs(k), o.state, w.state, serve(k));
    RefinesParts(Run(envs, s, k + 1).state, RawRun(envs, serve, r, k + 1).state);
  }

  /** A context without frames and locals to begin with. */
  lemma StartRefines(pos: u32, data: seq<u32>, mem: Memory, own: set<u32>)
    requires own <= mem.Keys
    ensures Refines(State(pos, data, [], NoLocals, Seen(own, mem)), Raw(pos, data, [], 0, mem, own))
  {
    assert Seen(own, mem).Keys == own;
  }

  // ---------- Calls ----------

  lemma {:induction false} FrameInFeet(mem: Memory, control: seq<u32>, frames: seq<Frame<u32>>, i: nat)
    requires |control| == |frames| && i < |control|
    ensures Block(control[i], FRAME_SIZE) <= ControlFeet(mem, control, frames)
    decreases |control|
  {
    hide Block;
    if i > 0 {
      FrameInFeet(mem, control[1..], frames[1..], i - 1);
    }
  }

  /** A frame in use keeps the locals it saved. */
  lemma SavedStays(r: Raw, u: Raw, frames: seq<Frame<u32>>, i: nat)
    requires |r.control| == |frames| && i < |r.control| && Moves(ControlFeet(r.mem, r.control, frames), r, u)
    ensures SavedLocals(u.mem, r.control[i]) == SavedLocals(r.mem, r.control[i])
  {
    hide Block, ControlFeet, Read, Agree;
    FrameInFeet(r.mem, r.control, frames, i);
    PartOfBlock(r.control[i], FRAME_SIZE, 4, 4);
    ReadAgrees(r.mem, u.mem, Wrap(r.control[i] as int + 4), 4, ControlFeet(r.mem, r.control, frames));
  }

  lemma CallPushes(envs: nat -> Env, serve: nat -> Service, s: State<u32>, r: Raw)
    requires Refines(s, r) && AllServed(envs, serve, s, r, 1)
    requires AtCall(s) && Run(envs, s, 1).Running?
    ensures RawRun(envs, serve, r, 1).RawRunning?
    ensures
      var u := RawRun(envs, serve, r, 1).state;
      |u.control| == |r.control| + 1 && u.control[1..] == r.control && SavedLocals(u.mem, u.control[0]) == r.locals
  {
    hide Refines, AllServed, RawStep, Step, ControlFeet;
    assert Run(envs, s, 0) == Running(s) && RawRun(envs, serve, r, 0) == RawRunning(r);
    assert Run(envs, s, 0 + 1) == Step(envs(0), s);
    RunMoves(envs, serve, s, r, 0);
    RefinesParts(s, r);
    CallPushesFrame(envs(0), s);
  }

  /** While the callee runs, the caller's frame block stays where it was, with the caller's locals
      saved in it. */
  lemma {:induction false} BlockStays(envs: nat -> Env, serve: nat -> Service, s: State<u32>, r: Raw, k: nat)
    requires Refines(s, r) && AllServed(envs, serve, s, r, k)
    requires AtCall(s) && k > 0 && Inside(envs, s, k + 1) && Run(envs, s, k).Running?
    ensures RawRun(envs, serve, r, k).RawRunning?
    ensures
      var u := RawRun(envs, serve, r, k).state;
      && |u.control| > |r.control| && u.control[|u.control| - |r.control|..] == r.control
      && SavedLocals(u.mem, u.control[|u.control| - |r.control| - 1]) == r.locals
  {
    hide Refines, RawStep, Step, ControlFeet, Moves, ServedAt, RawRun, SavedLocals, AtCall, Run;
    RefinesParts(s, r);
    if k == 1 {
      CallPushes(envs, serve, s, r);
    } else {
      assert Inside(envs, s, k);
      RunMoves(envs, serve, s, r, k - 1);
      BlockStays(envs, serve, s, r, k - 1);
      var x, u := RawRun(envs, serve, r, k - 1).state, RawRun(envs, serve, r, k).state;
      SavedStays(x, u, Run(envs, s, k - 1).state.control, |x.control| - |r.control| - 1);
      TailMoves(x, u, r.control, ControlFeet(x.mem, x.control, Run(envs, s, k - 1).state.control));
    }
  }

  /** The part of the control stack below stays below. */
  lemma TailMoves(x: Raw, u: Raw, below: seq<u32>, feet: set<u32>)
    requires Moves(feet, x, u) && |x.control| > |below| && |u.control| > |below|
    requires x.control[|x.control| - |below|..] == below
    ensures u.control[|u.control| - |below|..] == below
    ensures u.control[|u.control| - |below| - 1] == x.control[|x.control| - |below| - 1]
  {
    hide Agree;
    var n := |below|;
    if |u.control| == |x.control| + 1 {
      assert u.control[|u.control| - n..] == u.control[1..][|x.control| - n..];
    } else if u.control != x.control {
      assert u.control[|u.control| - n..] == x.control[1..][|u.control| - n..];
    }
  }

  /** Call discipline with frames in memory: when the control stack first comes back to its depth at
      the call, execution is at the byte after the call, with the caller's control stack, the
      caller's own block of locals, and in it every value the caller had stored. */
  lemma RawCallReturns(envs: nat -> Env, serve: nat -> Service, s: State<u32>, r: Raw, k: nat)
    requires Refines(s, r) && AllServed(envs, serve, s, r, k)
    requires AtCall(s) && k > 0 && Inside(envs, s, k) && Run(envs, s, k).Running?
    requires |Run(envs, s, k).state.control| == |s.control|
    ensures RawRun(envs, serve, r, k).RawRunning?
    ensures
      var u := RawRun(envs, serve, r, k).state;
      && u.pos == Runs.After(s) && u.control == r.control && u.locals == r.locals
      && LocalsHold(u.mem, r.locals, s.locals)
  {
    hide Refines, RawStep, Step, ControlFeet, Moves, ServedAt, RawRun;
    hide Inside, AtCall, Run, LocalsHold, SavedLocals;
    CallReturns(envs, s, k);
    RefinesParts(s, r);
    if k == 1 {
      CallPushes(envs, serve, s, r);
      RunMoves(envs, serve, s, r, 0);
    } else {
      RunMoves(envs, serve, s, r, k - 1);
      BlockStays(envs, serve, s, r, k - 1);
      var x, u := RawRun(envs, serve, r, k - 1).state, RawRun(envs, serve, r, k).state;
      StepMovesOneFrame(envs(k - 1), Run(envs, s, k - 1).state);
      PoppedBack(x, u, r, ControlFeet(x.mem, x.control, Run(envs, s, k - 1).state.control));
      RefinesParts(Run(envs, s, k).state, u);
      RefinesLocals(Run(envs, s, k).state, u);
    }
  }

  lemma PoppedBack(x: Raw, u: Raw, r: Raw, feet: set<u32>)
    requires Moves(feet, x, u) && |x.control| == |r.control| + 1 && |u.control| == |r.control|
    requires x.control[1..] == r.control && SavedLocals(x.mem, x.control[0]) == r.locals
    ensures u.control == r.control && u.locals == r.locals
  {
    hide Agree;
  }

  lemma RefinesLocals(s: State<u32>, r: Raw)
    requires Refines(s, r)
    ensures LocalsHold(r.mem, r.locals, s.locals)
  {
  }
}
