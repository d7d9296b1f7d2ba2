/** The stack machine as a transition function on values: what one VM step does to the program
    counter, the two stacks, the locals and memory. The imperative VM is proved against it. */
module Machine {
  import opened Numbers
  import opened Words
  import opened Opcodes

  const DATA_CAPACITY := 16384
  const CONTROL_CAPACITY := 2048

  type Memory = map<u32, u8>

  // A local that has been allocated but never stored to has no defined value.
  datatype Cell = Unset | Set(value: u32)
  datatype Locals = NoLocals | Locals(cells: seq<Cell>)

  // Positions are addresses for the byte machine and list positions for the source machine.
  datatype Frame<+P> = Frame(returnTo: P, locals: Locals)
  datatype State<+P> = State(pos: P, data: seq<u32>, control: seq<Frame<P>>, locals: Locals, mem: Memory)

  datatype PanicReason =
    | UnknownOpcode | StackUnderflow | StackOverflow
    | NoLocalsAllocated | LocalOutOfBounds | NoNativeCalls

  // Fault is a hardware trap; Undefined is an indeterminate read the C code does not guard.
  datatype Halt = Panic(reason: PanicReason) | Fault | Undefined | Exited
  datatype Outcome<+P> = Running(state: State<P>) | Halted(halt: Halt)

  datatype NativeResult = Returned(data: seq<u32>, mem: Memory) | Exit

  /** What a thunk, by its address, does to the data stack and memory. */
  type Thunks = (u32, seq<u32>, Memory) -> NativeResult

  /** The fixed-up native call table and the thunks' answers in one step. */
  datatype Env = Env(natives: Option<seq<u32>>, native: Thunks)

  /** One table, and answers that may differ from step to step. */
  function Answering(natives: Option<seq<u32>>, world: nat -> Thunks): nat -> Env {
    (j: nat) => Env(natives, world(j))
  }

  datatype Core = Core(data: seq<u32>, locals: Locals, mem: Memory)
  datatype Flow = Fall | Goto(target: u32) | Enter(target: u32) | Leave
  datatype Effect = Done(core: Core, flow: Flow) | Stop(halt: Halt)

  // What a handler asks for once it has looked at its operands.
  datatype Action =
    | Push(values: seq<u32>)
    | Update(locals: Locals, mem: Memory)
    | Transfer(flow: Flow)
    | Native(index: u32)
    | Halting(halt: Halt)

  /** The `n` bytes from `addr` on, if all of them are mapped. */
  function Read(mem: Memory, addr: u32, n: nat): (r: Option<seq<u8>>)
    ensures r.Some? ==> |r.value| == n
    decreases n
  {
    if n == 0 then Some([])
    else if addr !in mem then None
    else
      match Read(mem, Wrap(addr + 1), n - 1)
      case None => None
      case Some(rest) => Some([mem[addr]] + rest)
  }

  function Write(mem: Memory, addr: u32, bytes: seq<u8>): Option<Memory>
    decreases |bytes|
  {
    if |bytes| == 0 then Some(mem)
    else if addr !in mem then None
    else Write(mem[addr := bytes[0]], Wrap(addr + 1), bytes[1..])
  }

  /** C division truncates toward zero. */
  function TruncatedQuotient(x: int, y: int): int
    requires y != 0
  {
    var q := (if x < 0 then -x else x) / (if y < 0 then -y else y);
    if (x < 0) == (y < 0) then q else -q
  }

  function TruncatedRemainder(x: int, y: int): int
    requires y != 0
  {
    x - y * TruncatedQuotient(x, y)
  }

  function Flag(b: bool): u32 {
    if b then 1 else 0
  }

  /** Operands an operation's handler reads. NOT pops two but looks at one. */
  function Uses(op: Op): nat {
    if op == NOT then 1 else StackIn(op)
  }

  function PushLoaded(bytes: Option<seq<u8>>, decode: seq<u8> -> u32): Action {
    if bytes.None? then Halting(Fault) else Push([decode(bytes.value)])
  }

  function Stored(locals: Locals, mem: Option<Memory>): Action {
    if mem.None? then Halting(Fault) else Update(locals, mem.value)
  }

  function Divide(x: int, y: int, trap: bool): Action
    requires !trap ==> x != 0
  {
    if trap then Halting(Fault)
    else Push([Wrap(TruncatedRemainder(y, x)), Wrap(TruncatedQuotient(y, x))])
  }

  function Byte(b: seq<u8>): u8 {
    if |b| == 1 then b[0] else 0
  }

  function Half(b: seq<u8>): u16 {
    if |b| == 2 then Fetch16(b) else 0
  }

  function Word(b: seq<u8>): u32 {
    if |b| == 4 then Fetch32(b) else 0
  }

  function LoadLocal(locals: Locals, index: u32): Action {
    if locals.NoLocals? then Halting(Panic(NoLocalsAllocated))
    else if index >= |locals.cells| then Halting(Panic(LocalOutOfBounds))
    else if locals.cells[index].Unset? then Halting(Undefined)
    else Push([locals.cells[index].value])
  }

  function StoreLocal(locals: Locals, index: u32, x: u32, mem: Memory): Action {
    if locals.NoLocals? then Halting(Panic(NoLocalsAllocated))
    else if index >= |locals.cells| then Halting(Panic(LocalOutOfBounds))
    else Update(Locals(locals.cells[index := Set(x)]), mem)
  }

  /** Operations that only map operands to results. */
  predicate Computes(op: Op) {
    match op
    case LDC_UB | LDC_SB | LDC_W | LEA | LDM_UB | LDM_SB | LDM_UH | LDM_SH | LDM_W
       | STM_B | STM_H | STM_W | LOCALS | LDLOC | STLOC
       | BR | BR_T | BR_F | CALL | RET | ICALL | IJMP | NCALL => false
    case _ => true
  }

  /** The computing handlers. `x` is the topmost popped operand, `y` the next. Results are listed
      top first; products are pushed as high and low words. */
  function Compute(op: Op, x: u32, y: u32): Action {
    match op
    case ADD => Push([Wrap(y + x)])
    case SUB => Push([Wrap(y - x)])
    case MULU => Push([Wrap((x * y) / 0x1_0000_0000), Wrap(x * y)])
    case MULS =>
      var p := Signed32(x) * Signed32(y);
      Push([Wrap(p / 0x1_0000_0000), Wrap(p)])
    case DIVU => Divide(x, y, x == 0)
    case DIVS => Divide(Signed32(x), Signed32(y), x == 0 || (x == 0xFFFF_FFFF && y == 0x8000_0000))
    case AND => Push([BitAnd(x, y)])
    case OR => Push([BitOr(x, y)])
    case XOR => Push([BitXor(x, y)])
    case NOT => Push([BitNot(x)])
    case LSL => Push([Wrap(y * Power(2, x % 32))])
    case LSR => Push([Wrap(y / Power(2, x % 32))])
    case ASR => Push([Wrap(Signed32(y) / Power(2, x % 32))])
    case CMP_LT => Push([Flag(Signed32(x) < Signed32(y))])
    case CMP_GT => Push([Flag(Signed32(x) > Signed32(y))])
    case CMP_B => Push([Flag(x < y)])
    case CMP_A => Push([Flag(x > y)])
    case CMP_EQ => Push([Flag(y == x)])
    case LDC_0 => Push([0])
    case LDC_1 => Push([1])
    case LDC_2 => Push([2])
    case DUP => Push([x, x])
    case SWAP => Push([y, x])
    case _ => Push([])
  }

  /** All handlers; `imm` is the inline operand, an absolute address for LEA, branches and calls. */
  function Act(op: Op, imm: u32, x: u32, y: u32, locals: Locals, mem: Memory): Action {
    match op
    case LDC_UB => Push([imm])
    case LDC_SB => Push([imm])
    case LDC_W => Push([imm])
    case LEA => Push([imm])
    case LDM_UB => PushLoaded(Read(mem, x, 1), b => Byte(b))
    case LDM_SB => PushLoaded(Read(mem, x, 1), b => SignExtend8(Byte(b)))
    case LDM_UH => PushLoaded(Read(mem, x, 2), b => Half(b))
    case LDM_SH => PushLoaded(Read(mem, x, 2), b => SignExtend16(Half(b)))
    case LDM_W => PushLoaded(Read(mem, x, 4), b => Word(b))
    case STM_B => Stored(locals, Write(mem, x, [y % 0x100]))
    case STM_H => Stored(locals, Write(mem, x, Le16(y % 0x1_0000)))
    case STM_W => Stored(locals, Write(mem, x, Le32(y)))
    case LOCALS => Update(Locals(seq(imm, _ => Unset)), mem)
    case LDLOC => LoadLocal(locals, imm)
    case STLOC => StoreLocal(locals, imm, x, mem)
    case BR => Transfer(Goto(imm))
    case BR_T => Transfer(if x != 0 then Goto(imm) else Fall)
    case BR_F => Transfer(if x == 0 then Goto(imm) else Fall)
    case CALL => Transfer(Enter(imm))
    case RET => Transfer(Leave)
    case ICALL => Transfer(Enter(x))
    case IJMP => Transfer(Goto(x))
    case NCALL => Native(imm)
    case _ => Compute(op, x, y)
  }

  function CallNative(env: Env, index: u32, core: Core): Effect {
    if env.natives.None? then Stop(Panic(NoNativeCalls))
    else if index >= |env.natives.value| then Stop(Undefined)
    else
      match env.native(env.natives.value[index], core.data, core.mem)
      case Exit => Stop(Exited)
      case Returned(data, mem) =>
        if |data| > DATA_CAPACITY then Stop(Panic(StackOverflow))
        else Done(core.(data := data, mem := mem), Fall)
  }

  /** Carries out an action on the state left after popping. */
  function Perform(env: Env, action: Action, core: Core): Effect {
    match action
    case Push(values) =>
      if |values| + |core.data| > DATA_CAPACITY then Stop(Panic(StackOverflow))
      else Done(core.(data := values + core.data), Fall)
    case Update(locals, mem) => Done(Core(core.data, locals, mem), Fall)
    case Transfer(flow) => Done(core, flow)
    case Native(index) => CallNative(env, index, core)
    case Halting(halt) => Stop(halt)
  }

  /** One operation with its operands `a` already popped off `core.data`. */
  function Exec(env: Env, op: Op, imm: u32, a: seq<u32>, core: Core): Effect {
    if |a| < Uses(op) then Stop(Undefined)
    else
      var x := if |a| > 0 then a[0] else 0;
      var y := if |a| > 1 then a[1] else 0;
      Perform(env, Act(op, imm, x, y, core.locals, core.mem), core)
  }

  lemma ExecActs(env: Env, op: Op, imm: u32, a: seq<u32>, core: Core)
    ensures Exec(env, op, imm, a, core) ==
      if |a| < Uses(op) then Stop(Undefined)
      else
        var x, y := if |a| > 0 then a[0] else 0, if |a| > 1 then a[1] else 0;
        Perform(env, Act(op, imm, x, y, core.locals, core.mem), core)
  {
    hide Act, Perform, Uses;
  }

  /** The inline operand as the handlers read it; `next` is the address after the operand. */
  function Immediate(op: Op, bytes: seq<u8>, next: u32): u32
    requires |bytes| == OperandBytes(op)
  {
    match op
    case LDC_UB => bytes[0]
    case LDC_SB => SignExtend8(bytes[0])
    case LOCALS => bytes[0]
    case LDLOC => bytes[0]
    case STLOC => bytes[0]
    case BR => Wrap(next + Signed8(bytes[0]))
    case BR_T => Wrap(next + Signed8(bytes[0]))
    case BR_F => Wrap(next + Signed8(bytes[0]))
    case NCALL => Fetch16(bytes)
    case LDC_W => Fetch32(bytes)
    case LEA => Wrap(next + Fetch32(bytes))
    case CALL => Wrap(next + Signed32(Fetch32(bytes)))
    case _ => 0
  }

  /** Where control goes once the operation's effect is known. */
  function Resume(control: seq<Frame<u32>>, next: u32, effect: Effect): Outcome<u32> {
    match effect
    case Stop(halt) => Halted(halt)
    case Done(core, flow) =>
      match flow
      case Fall => Running(State(next, core.data, control, core.locals, core.mem))
      case Goto(target) => Running(State(target, core.data, control, core.locals, core.mem))
      case Enter(target) =>
        if |control| >= CONTROL_CAPACITY then Halted(Panic(StackOverflow))
        else Running(State(target, core.data, [Frame(next, core.locals)] + control, NoLocals, core.mem))
      case Leave =>
        if |control| == 0 then Halted(Panic(StackUnderflow))
        else Running(State(control[0].returnTo, core.data, control[1..], control[0].locals, core.mem))
  }

  /** One step of the byte machine. */
  function Step(env: Env, s: State<u32>): Outcome<u32> {
    if s.pos !in s.mem then Halted(Fault) else
    var byte := s.mem[s.pos];
    var n := DecodeCount(byte);
    if n > |s.data| then Halted(Panic(StackUnderflow)) else
    match DecodeOp(byte)
    case None => Halted(Panic(UnknownOpcode))
    case Some(op) =>
      match Read(s.mem, Wrap(s.pos + 1), OperandBytes(op))
      case None => Halted(Fault)
      case Some(bytes) =>
        var next := Wrap(s.pos + 1 + OperandBytes(op));
        Resume(s.control, next,
               Exec(env, op, Immediate(op, bytes, next), s.data[..n], Core(s.data[n..], s.locals, s.mem)))
  }

  /** The outcome of `k` steps, with the thunks' answers at each step; a halted machine stays halted. */
  function Run(envs: nat -> Env, s: State<u32>, k: nat): Outcome<u32> {
    if k == 0 then Running(s) else
    match Run(envs, s, k - 1)
    case Running(t) => Step(envs(k - 1), t)
    case Halted(h) => Halted(h)
  }
}
