/** What each instruction does to a running machine, in plain arithmetic on its bytes, its operands
    and memory. */
module Effects {
  import opened Numbers
  import opened Words
  import opened Opcodes
  import opened Machine
  import opened Handlers

  /** The instruction at hand is `op`, with its operands on the stack and its inline bytes mapped. */
  ghost predicate Ready(s: State<u32>, op: Op) {
    && s.pos in s.mem && s.mem[s.pos] == OpcodeByte(op) && StackIn(op) <= |s.data|
    && Read(s.mem, Wrap(s.pos + 1), OperandBytes(op)).Some?
  }

  function ByteAt(mem: Memory, addr: int): u8 {
    if Wrap(addr) in mem then mem[Wrap(addr)] else 0
  }

  /** The `i`-th inline byte behind the opcode. */
  function Inline(s: State<u32>, i: nat): u8 {
    ByteAt(s.mem, s.pos + 1 + i)
  }

  function InlineHalf(s: State<u32>): int {
    Inline(s, 0) + 0x100 * Inline(s, 1) as int
  }

  function InlineWord(s: State<u32>): int {
    Inline(s, 0) + 0x100 * Inline(s, 1) as int + 0x1_0000 * Inline(s, 2) as int + 0x100_0000 * Inline(s, 3) as int
  }

  /** The step replaces its operands by `values`, top first, or panics when they do not fit. */
  ghost predicate Pushes(env: Env, s: State<u32>, op: Op, values: seq<u32>) {
    && StackIn(op) <= |s.data|
    && Step(env, s) ==
      if |values| + |s.data| - StackIn(op) > 16384 then Halted(Panic(StackOverflow))
      else
        Running(State((s.pos + 1 + OperandBytes(op)) % 0x1_0000_0000, values + s.data[StackIn(op)..], s.control,
                      s.locals, s.mem))
  }

  // ---------- From a step to its handler ----------

  function Imm(s: State<u32>, op: Op): u32
    requires Ready(s, op)
  {
    Immediate(op, Read(s.mem, Wrap(s.pos + 1), OperandBytes(op)).value, Wrap(s.pos + 1 + OperandBytes(op)))
  }

  function Top(s: State<u32>, op: Op): u32 {
    if StackIn(op) > 0 && |s.data| > 0 then s.data[0] else 0
  }

  function Second(s: State<u32>, op: Op): u32 {
    if StackIn(op) > 1 && |s.data| > 1 then s.data[1] else 0
  }

  lemma UsesFit(op: Op)
    ensures Uses(op) <= StackIn(op)
  {
  }

  lemma StepActs(env: Env, s: State<u32>, op: Op)
    requires Ready(s, op)
    ensures
      Step(env, s) ==
        Resume(s.control, Wrap(s.pos + 1 + OperandBytes(op)),
               Perform(env, Act(op, Imm(s, op), Top(s, op), Second(s, op), s.locals, s.mem),
                       Core(s.data[StackIn(op)..], s.locals, s.mem)))
  {
    hide Act, Perform, Resume, Immediate, Read, OperandBytes, OpcodeByte, StackIn, SlotOp, Exec, Uses;
    DecodeInvertsTable(op);
    UsesFit(op);
    var n := StackIn(op);
    var imm := Imm(s, op);
    ExecActs(env, op, imm, s.data[..n], Core(s.data[n..], s.locals, s.mem));
    assert n > 0 ==> s.data[..n][0] == s.data[0];
    assert n > 1 ==> s.data[..n][1] == s.data[1];
  }

  /** What a step does once its handler's action is known. */
  function Afterwards(env: Env, s: State<u32>, taken: nat, size: nat, action: Action): Outcome<u32>
    requires taken <= |s.data|
  {
    Resume(s.control, Wrap(s.pos + 1 + size), Perform(env, action, Core(s.data[taken..], s.locals, s.mem)))
  }

  lemma ActionStep(env: Env, s: State<u32>, op: Op, action: Action)
    requires Ready(s, op) && Act(op, Imm(s, op), Top(s, op), Second(s, op), s.locals, s.mem) == action
    ensures StackIn(op) <= |s.data|
    ensures Step(env, s) == Afterwards(env, s, StackIn(op), OperandBytes(op), action)
  {
    hide Act, Imm, Read, OperandBytes, OpcodeByte, StackIn, Step, Resume, Perform, Top, Second, Wrap;
    StepActs(env, s, op);
  }

  lemma UpdateAfterwards(env: Env, s: State<u32>, taken: nat, size: nat, locals: Locals, mem: Memory)
    requires taken <= |s.data|
    ensures
      Afterwards(env, s, taken, size, Update(locals, mem)) ==
        Running(State((s.pos + 1 + size) % 0x1_0000_0000, s.data[taken..], s.control, locals, mem))
    ensures Afterwards(env, s, taken, size, Halting(Fault)) == Halted(Fault)
  {
  }

  lemma GoAfterwards(env: Env, s: State<u32>, taken: nat, size: nat, target: u32)
    requires taken <= |s.data|
    ensures
      Afterwards(env, s, taken, size, Transfer(Goto(target))) ==
        Running(s.(pos := target, data := s.data[taken..]))
    ensures
      Afterwards(env, s, taken, size, Transfer(Fall)) ==
        Running(s.(pos := (s.pos + 1 + size) % 0x1_0000_0000, data := s.data[taken..]))
  {
  }

  lemma EnterAfterwards(env: Env, s: State<u32>, taken: nat, size: nat, target: u32)
    requires taken <= |s.data|
    ensures
      Afterwards(env, s, taken, size, Transfer(Enter(target))) ==
        if |s.control| >= 2048 then Halted(Panic(StackOverflow))
        else
          Running(State(target, s.data[taken..], [Frame((s.pos + 1 + size) % 0x1_0000_0000, s.locals)] + s.control,
                        NoLocals, s.mem))
  {
  }

  lemma NativeAfterwards(env: Env, s: State<u32>, size: nat, id: u32)
    ensures
      var o := Afterwards(env, s, 0, size, Native(id));
      if env.natives.None? then o == Halted(Panic(NoNativeCalls))
      else if id >= |env.natives.value| then o == Halted(Undefined)
      else
        match env.native(env.natives.value[id], s.data, s.mem)
        case Exit => o == Halted(Exited)
        case Returned(data, mem) =>
          o ==
            if |data| > 16384 then Halted(Panic(StackOverflow))
            else Running(s.(pos := (s.pos + 1 + size) % 0x1_0000_0000, data := data, mem := mem))
  {
    assert s.data[0..] == s.data;
  }

  lemma PushedOutcome(env: Env, control: seq<Frame<u32>>, next: int, values: seq<u32>, core: Core)
    ensures
      Resume(control, Wrap(next), Perform(env, Push(values), core)) ==
        if |values| + |core.data| > 16384 then Halted(Panic(StackOverflow))
        else Running(State(next % 0x1_0000_0000, values + core.data, control, core.locals, core.mem))
  {
  }

  lemma PushStep(env: Env, s: State<u32>, op: Op, values: seq<u32>)
    requires Ready(s, op) && Act(op, Imm(s, op), Top(s, op), Second(s, op), s.locals, s.mem) == Push(values)
    ensures Pushes(env, s, op, values)
  {
    hide Act, Imm, Read, OperandBytes, OpcodeByte, StackIn, Step, Resume, Perform, Top, Second, Wrap;
    StepActs(env, s, op);
    PushedOutcome(env, s.control, s.pos + 1 + OperandBytes(op), values, Core(s.data[StackIn(op)..], s.locals, s.mem));
  }

  /** Every byte of a load. */
  lemma {:induction false} ReadBytes(mem: Memory, addr: u32, n: nat, i: nat)
    requires Read(mem, addr, n).Some? && i < n
    ensures Wrap(addr + i) in mem && Read(mem, addr, n).value[i] == mem[Wrap(addr + i)]
    decreases n
  {
    hide Wrap;
    SmallWraps(addr);
    if i > 0 {
      ReadBytes(mem, Wrap(addr + 1), n - 1, i - 1);
      WrapAdd(addr + 1, i - 1);
    }
  }

  lemma InlineBytes(s: State<u32>, op: Op, i: nat)
    requires Ready(s, op) && i < OperandBytes(op)
    ensures Read(s.mem, Wrap(s.pos + 1), OperandBytes(op)).value[i] == Inline(s, i)
  {
    hide Read, OperandBytes, Wrap;
    ReadBytes(s.mem, Wrap(s.pos + 1), OperandBytes(op), i);
    WrapAdd(s.pos + 1, i);
  }

  // ---------- The stack ----------

  lemma OperandsOf(s: State<u32>, op: Op)
    requires Ready(s, op)
    ensures StackIn(op) >= 1 ==> |s.data| >= 1 && Top(s, op) == s.data[0]
    ensures StackIn(op) >= 2 ==> |s.data| >= 2 && Second(s, op) == s.data[1]
  {
    hide Read, OpcodeByte, OperandBytes, StackIn;
  }

  /** A computing operation pushes what its handler computes. */
  lemma ComputeStep(env: Env, s: State<u32>, op: Op, values: seq<u32>)
    requires Ready(s, op) && Computes(op)
    requires Compute(op, Top(s, op), Second(s, op)) == Push(values)
    ensures Pushes(env, s, op, values)
  {
    hide Act, Step, Read, Pushes, Ready, Imm, StackIn, Compute, Computes, Top, Second;
    ActOfCompute(op, Imm(s, op), Top(s, op), Second(s, op), s.locals, s.mem);
    PushStep(env, s, op, values);
  }

  lemma ActOfCompute(op: Op, imm: u32, x: u32, y: u32, locals: Locals, mem: Memory)
    requires Computes(op)
    ensures Act(op, imm, x, y, locals, mem) == Compute(op, x, y)
  {
    hide Compute;
  }

  /** SWAP exchanges the two topmost entries. */
  lemma SwapMeans(env: Env, s: State<u32>)
    requires Ready(s, SWAP)
    ensures |s.data| >= 2 && Pushes(env, s, SWAP, [s.data[1], s.data[0]])
  {
    hide Act, Step, Read, Pushes, Ready, Imm;
    OperandsOf(s, SWAP);
    ComputeStep(env, s, SWAP, [s.data[1], s.data[0]]);
  }

  /** DUP doubles the topmost entry. */
  lemma DupMeans(env: Env, s: State<u32>)
    requires Ready(s, DUP)
    ensures |s.data| >= 1 && Pushes(env, s, DUP, [s.data[0], s.data[0]])
  {
    hide Act, Step, Read, Pushes, Ready, Imm;
    OperandsOf(s, DUP);
    ComputeStep(env, s, DUP, [s.data[0], s.data[0]]);
  }

  /** POP drops the topmost entry. */
  lemma PopMeans(env: Env, s: State<u32>)
    requires Ready(s, POP)
    ensures |s.data| >= 1 && Pushes(env, s, POP, [])
  {
    hide Act, Step, Read, Pushes, Ready, Imm;
    OperandsOf(s, POP);
    ComputeStep(env, s, POP, []);
  }

  lemma ConstantMeans(env: Env, s: State<u32>, op: Op)
    requires (op == LDC_0 || op == LDC_1 || op == LDC_2) && Ready(s, op)
    ensures Pushes(env, s, op, [if op == LDC_0 then 0 else if op == LDC_1 then 1 else 2])
  {
    hide Act, Step, Read, Pushes, Ready, Imm;
    OperandsOf(s, op);
    ComputeStep(env, s, op, [if op == LDC_0 then 0 else if op == LDC_1 then 1 else 2]);
  }

  // ---------- Arithmetic ----------

  lemma AddMeans(env: Env, s: State<u32>)
    requires Ready(s, ADD)
    ensures |s.data| >= 2 && Pushes(env, s, ADD, [(s.data[1] as int + s.data[0] as int) % 0x1_0000_0000])
  {
    hide Act, Step, Read, Pushes, Ready, Imm;
    OperandsOf(s, ADD);
    ComputeStep(env, s, ADD, [(s.data[1] as int + s.data[0] as int) % 0x1_0000_0000]);
  }

  /** The topmost entry is subtracted from the one below. */
  lemma SubMeans(env: Env, s: State<u32>)
    requires Ready(s, SUB)
    ensures |s.data| >= 2 && Pushes(env, s, SUB, [(s.data[1] as int - s.data[0] as int) % 0x1_0000_0000])
  {
    hide Act, Step, Read, Pushes, Ready, Imm;
    OperandsOf(s, SUB);
    ComputeStep(env, s, SUB, [(s.data[1] as int - s.data[0] as int) % 0x1_0000_0000]);
  }

  lemma ProductOf(op: Op, x: u32, y: u32)
    requires op == MULU || op == MULS
    ensures
      var p := if op == MULU then x * y else Signed32(x) * Signed32(y);
      Compute(op, x, y) == Push([p / 0x1_0000_0000 % 0x1_0000_0000, p % 0x1_0000_0000])
  {
    hide Signed32;
  }

  /** High and low word of the product, the high one on top. */
  lemma MultiplyMeans(env: Env, s: State<u32>, op: Op, hi: u32, lo: u32)
    requires (op == MULU || op == MULS) && Ready(s, op) && |s.data| >= 2
    requires op == MULU ==> hi * 0x1_0000_0000 + lo == s.data[0] as int * s.data[1] as int
    requires op == MULS ==> Signed32(hi) * 0x1_0000_0000 + lo == Signed32(s.data[0]) * Signed32(s.data[1])
    ensures Pushes(env, s, op, [hi, lo])
  {
    hide Act, Step, Read, Pushes, Ready, Imm, Compute, Wrap;
    OperandsOf(s, op);
    ProductOf(op, s.data[0], s.data[1]);
    TwoWords(hi, lo);
    ComputeStep(env, s, op, [hi, lo]);
  }

  lemma TwoWords(hi: u32, lo: u32)
    ensures (hi * WORD + lo) / WORD % WORD == hi && (hi * WORD + lo) % WORD == lo
    ensures (Signed32(hi) * WORD + lo) / WORD % WORD == hi && (Signed32(hi) * WORD + lo) % WORD == lo
  {
    UniqueRemainder(hi * WORD + lo, WORD, hi, lo);
    UniqueQuotient(hi * WORD + lo, WORD, hi, lo);
    UniqueRemainder(Signed32(hi) * WORD + lo, WORD, Signed32(hi), lo);
    UniqueQuotient(Signed32(hi) * WORD + lo, WORD, Signed32(hi), lo);
  }

  /** Unsigned division leaves the remainder on top of the quotient, and traps on zero. */
  lemma UnsignedDivideMeans(env: Env, s: State<u32>, q: u32, r: u32)
    requires Ready(s, DIVU) && |s.data| >= 2
    ensures s.data[0] == 0 ==> Step(env, s) == Halted(Fault)
    ensures s.data[1] == q * s.data[0] + r && r < s.data[0] ==> Pushes(env, s, DIVU, [r, q])
  {
    hide Act, Step, Read, Pushes, Ready, Imm, Compute;
    OperandsOf(s, DIVU);
    UnsignedDivisionMeans(s.data[0], s.data[1]);
    if s.data[0] == 0 {
      TrapStep(env, s, DIVU);
    } else if s.data[1] == q * s.data[0] + r && r < s.data[0] {
      var v := Compute(DIVU, s.data[0], s.data[1]).values;
      UniqueRemainder(s.data[1], s.data[0], q, r);
      UniqueQuotient(s.data[1], s.data[0], q, r);
      UniqueRemainder(s.data[1], s.data[0], v[1], v[0]);
      UniqueQuotient(s.data[1], s.data[0], v[1], v[0]);
      assert v == [r, q];
      ComputeStep(env, s, DIVU, [r, q]);
    }
  }

  lemma TrapStep(env: Env, s: State<u32>, op: Op)
    requires Ready(s, op) && Computes(op) && Compute(op, Top(s, op), Second(s, op)) == Halting(Fault)
    ensures Step(env, s) == Halted(Fault)
  {
    hide Act, Step, Read, Ready, Imm, StackIn, Compute, Computes, Top, Second;
    ActOfCompute(op, Imm(s, op), Top(s, op), Second(s, op), s.locals, s.mem);
    StepActs(env, s, op);
  }

  /** A truncated quotient and its remainder are determined. */
  lemma TruncatedUnique(x: int, y: int, q: int, r: int, q': int, r': int)
    requires y != 0 && x == q * y + r && x == q' * y + r'
    requires (r == 0 || (r > 0 <==> x > 0)) && (r' == 0 || (r' > 0 <==> x > 0))
    requires (y > 0 ==> -y < r < y && -y < r' < y) && (y < 0 ==> y < r < -y && y < r' < -y)
    ensures q == q' && r == r'
  {
    assert (q - q') * y == r' - r;
    if y > 0 {
      Scale(q - q', y);
    } else {
      assert (q - q') * -y == r - r';
      Scale(q - q', -y);
    }
  }

  /** Signed division truncates, with the remainder on top, and traps on zero and on 2^31. */
  lemma SignedDivideMeans(env: Env, s: State<u32>, q: int, r: int)
    requires Ready(s, DIVS) && |s.data| >= 2
    ensures
      var x, y := Signed32(s.data[1]), Signed32(s.data[0]);
      && (y == 0 || (x == -0x8000_0000 && y == -1) ==> Step(env, s) == Halted(Fault))
      && (x == q * y + r && (r == 0 || (r > 0 <==> x > 0)) && (y > 0 ==> -y < r < y) && (y < 0 ==> y < r < -y)
          && y != 0 && !(x == -0x8000_0000 && y == -1) ==>
            Pushes(env, s, DIVS, [r % 0x1_0000_0000, q % 0x1_0000_0000]))
  {
    hide Act, Step, Read, Pushes, Ready, Imm, Compute;
    OperandsOf(s, DIVS);
    SignedDivisionMeans(s.data[0], s.data[1]);
    var x, y := Signed32(s.data[1]), Signed32(s.data[0]);
    if Compute(DIVS, s.data[0], s.data[1]) == Halting(Fault) {
      TrapStep(env, s, DIVS);
    } else if x == q * y + r && (r == 0 || (r > 0 <==> x > 0)) && (y > 0 ==> -y < r < y) && (y < 0 ==> y < r < -y) {
      var v := Compute(DIVS, s.data[0], s.data[1]).values;
      TruncatedUnique(x, y, q, r, Signed32(v[1]), Signed32(v[0]));
      UnsignedOf(v[0]);
      UnsignedOf(v[1]);
      assert v == [r % 0x1_0000_0000, q % 0x1_0000_0000];
      ComputeStep(env, s, DIVS, v);
    }
  }

  lemma UnsignedOf(v: u32)
    ensures Signed32(v) % 0x1_0000_0000 == v
  {
  }

  // ---------- Bits ----------

  /** Bit `k` of `v` is what the operation makes of the bits `k` of `x` and `y`. */
  ghost predicate BitByBit(op: Op, v: u32, x: u32, y: u32) {
    forall k: nat | k < 32 ::
      var a, b := x / Power(2, k) % 2, y / Power(2, k) % 2;
      v / Power(2, k) % 2 ==
        if op == AND then a * b
        else if op == OR then (if a + b == 0 then 0 else 1)
        else if op == XOR then (a + b) % 2
        else 1 - a
  }

  /** AND, OR and XOR bit by bit. */
  lemma BitOperations(env: Env, s: State<u32>, op: Op)
    requires (op == AND || op == OR || op == XOR) && Ready(s, op)
    ensures |s.data| >= 2 && exists v :: Pushes(env, s, op, [v]) && BitByBit(op, v, s.data[0], s.data[1])
  {
    hide Act, Step, Read, Pushes, Ready, Imm, BitAnd, BitOr, BitXor, Power;
    OperandsOf(s, op);
    var x, y := s.data[0], s.data[1];
    var v := if op == AND then BitAnd(x, y) else if op == OR then BitOr(x, y) else BitXor(x, y);
    assert BitByBit(op, v, x, y) by {
      forall k: nat | k < 32
        ensures
          var a, b := x / Power(2, k) % 2, y / Power(2, k) % 2;
          v / Power(2, k) % 2 ==
            if op == AND then a * b else if op == OR then (if a + b == 0 then 0 else 1) else (a + b) % 2
      {
        BitsMean(x, y, k);
      }
    }
    ComputeStep(env, s, op, [v]);
  }

  /** NOT inverts the topmost entry and drops the one below. */
  lemma NotMeans(env: Env, s: State<u32>)
    requires Ready(s, NOT)
    ensures |s.data| >= 2 && exists v :: Pushes(env, s, NOT, [v]) && BitByBit(NOT, v, s.data[0], s.data[1])
  {
    hide Act, Step, Read, Pushes, Ready, Imm, BitNot, Power;
    OperandsOf(s, NOT);
    var x, y := s.data[0], s.data[1];
    assert BitByBit(NOT, BitNot(x), x, y) by {
      forall k: nat | k < 32 ensures BitNot(x) / Power(2, k) % 2 == 1 - x / Power(2, k) % 2 {
        BitsMean(x, y, k);
      }
    }
    ComputeStep(env, s, NOT, [BitNot(x)]);
  }

  /** Left shifts multiply modulo 2^32, right shifts divide and round down, ASR on the signed value. */
  lemma ShiftMeans(env: Env, s: State<u32>, op: Op)
    requires (op == LSL || op == LSR || op == ASR) && Ready(s, op)
    ensures |s.data| >= 2
    ensures
      var y, p := s.data[1] as int, Power(2, s.data[0] % 32);
      Pushes(env, s, op, [
        (if op == LSL then y * p else if op == LSR then y / p else Signed32(s.data[1]) / p) % 0x1_0000_0000])
  {
    hide Act, Step, Read, Pushes, Ready, Imm, Power, Compute, Signed32;
    OperandsOf(s, op);
    var y, p := s.data[1] as int, Power(2, s.data[0] % 32);
    Unfolds(s.data[0], s.data[1]);
    ComputeStep(env, s, op, [
      (if op == LSL then y * p else if op == LSR then y / p else Signed32(s.data[1]) / p) % 0x1_0000_0000]);
  }

  // ---------- Comparisons ----------

  /** How the topmost entry compares with the one below. */
  ghost predicate Compares(op: Op, x: u32, y: u32) {
    var a, b := if x < 0x8000_0000 then x else x - 0x1_0000_0000, if y < 0x8000_0000 then y else y - 0x1_0000_0000;
    match op
    case CMP_LT => a < b
    case CMP_GT => a > b
    case CMP_B => x < y
    case CMP_A => x > y
    case _ => x == y
  }

  lemma CompareMeans(env: Env, s: State<u32>, op: Op)
    requires (op == CMP_LT || op == CMP_GT || op == CMP_B || op == CMP_A || op == CMP_EQ) && Ready(s, op)
    ensures |s.data| >= 2 && Pushes(env, s, op, [if Compares(op, s.data[0], s.data[1]) then 1 else 0])
  {
    hide Act, Step, Read, Pushes, Ready, Imm, Compute;
    OperandsOf(s, op);
    ComparisonFlags(s.data[0], s.data[1]);
    ComputeStep(env, s, op, [if Compares(op, s.data[0], s.data[1]) then 1 else 0]);
  }

  // ---------- Inline operands ----------

  lemma ImmediateOf(s: State<u32>, op: Op)
    requires Ready(s, op)
    ensures OperandBytes(op) == 1 ==> Imm(s, op) == Immediate(op, [Inline(s, 0)], Wrap(s.pos + 2))
    ensures OperandBytes(op) == 2 ==> Imm(s, op) == Immediate(op, [Inline(s, 0), Inline(s, 1)], Wrap(s.pos + 3))
    ensures OperandBytes(op) == 4 ==>
      Imm(s, op) == Immediate(op, [Inline(s, 0), Inline(s, 1), Inline(s, 2), Inline(s, 3)], Wrap(s.pos + 5))
  {
    hide Read, OpcodeByte, StackIn, Immediate, Inline, OperandBytes;
    var bytes := Read(s.mem, Wrap(s.pos + 1), OperandBytes(op)).value;
    if OperandBytes(op) == 1 {
      InlineBytes(s, op, 0);
      assert bytes == [Inline(s, 0)];
    } else if OperandBytes(op) == 2 {
      InlineBytes(s, op, 0);
      InlineBytes(s, op, 1);
      assert bytes == [Inline(s, 0), Inline(s, 1)];
    } else if OperandBytes(op) == 4 {
      InlineBytes(s, op, 0);
      InlineBytes(s, op, 1);
      InlineBytes(s, op, 2);
      InlineBytes(s, op, 3);
      assert bytes == [Inline(s, 0), Inline(s, 1), Inline(s, 2), Inline(s, 3)];
    }
  }

  lemma ConstantHandlers(op: Op, imm: u32, x: u32, y: u32, locals: Locals, mem: Memory)
    requires op == LDC_UB || op == LDC_SB || op == LDC_W || op == LEA
    ensures Act(op, imm, x, y, locals, mem) == Push([imm])
  {
    hide Compute, Read, Write;
  }

  /** The inline byte as it is, and sign-extended. */
  lemma InlineByteMeans(env: Env, s: State<u32>, op: Op)
    requires (op == LDC_UB || op == LDC_SB) && Ready(s, op)
    ensures
      var b := Inline(s, 0);
      Pushes(env, s, op, [if op == LDC_SB && b >= 128 then b + 0xFFFF_FF00 else b])
  {
    hide Act, Step, Read, Pushes, Ready, Inline;
    ImmediateOf(s, op);
    ConstantHandlers(op, Imm(s, op), Top(s, op), Second(s, op), s.locals, s.mem);
    PushStep(env, s, op, [Imm(s, op)]);
  }

  /** The inline word, and for LEA its distance from the end of the instruction. */
  lemma InlineWordMeans(env: Env, s: State<u32>, op: Op)
    requires (op == LDC_W || op == LEA) && Ready(s, op)
    ensures
      var w := InlineWord(s) + if op == LEA then s.pos + 5 else 0;
      Pushes(env, s, op, [w % 0x1_0000_0000])
  {
    hide Act, Step, Read, Pushes, Ready, Inline, Wrap, Imm;
    ImmediateOf(s, op);
    ConstantHandlers(op, Imm(s, op), Top(s, op), Second(s, op), s.locals, s.mem);
    WrapAdd(InlineWord(s), s.pos + 5);
    WrapIsRemainder(InlineWord(s) + s.pos + 5);
    WrapIsRemainder(InlineWord(s));
    SmallWraps(InlineWord(s));
    PushStep(env, s, op, [Imm(s, op)]);
  }

  // ---------- Memory ----------

  /** The bytes from `addr` on, around the end of the address space, are mapped. */
  ghost predicate Mapped(mem: Memory, addr: u32, n: nat) {
    forall i: nat | i < n :: MappedAt(mem, addr, i)
  }

  predicate MappedAt(mem: Memory, addr: u32, i: nat) {
    Wrap(addr + i) in mem
  }

  lemma {:induction false} ReadMapped(mem: Memory, addr: u32, n: nat)
    ensures Read(mem, addr, n).Some? <==> Mapped(mem, addr, n)
    decreases n
  {
    hide Wrap;
    SmallWraps(addr);
    if n > 0 {
      var next := Wrap(addr + 1);
      ReadMapped(mem, next, n - 1);
      if Mapped(mem, next, n - 1) && addr in mem {
        forall i: nat | i < n ensures MappedAt(mem, addr, i) {
          if i > 0 {
            assert MappedAt(mem, next, i - 1);
            WrapAdd(addr + 1, i - 1);
          }
        }
      }
      if Mapped(mem, addr, n) {
        assert MappedAt(mem, addr, 0);
        forall i: nat | i < n - 1 ensures MappedAt(mem, next, i) {
          assert MappedAt(mem, addr, i + 1);
          WrapAdd(addr + 1, i);
        }
      }
    }
  }

  lemma LoadedByte(mem: Memory, addr: u32, n: nat, i: nat)
    requires Read(mem, addr, n).Some? && i < n
    ensures Read(mem, addr, n).value[i] == ByteAt(mem, addr + i)
  {
    hide Read, Wrap;
    ReadBytes(mem, addr, n, i);
  }

  function Loads(op: Op): nat {
    if op == LDM_UB || op == LDM_SB then 1 else if op == LDM_UH || op == LDM_SH then 2 else 4
  }

  predicate IsLoad(op: Op) {
    op == LDM_UB || op == LDM_SB || op == LDM_UH || op == LDM_SH || op == LDM_W
  }

  /** The little-endian value at `x`, sign-extended when the operation says so. */
  function LoadedValue(op: Op, mem: Memory, x: u32): int {
    var a, b, c, d := ByteAt(mem, x), ByteAt(mem, x + 1), ByteAt(mem, x + 2), ByteAt(mem, x + 3);
    match op
    case LDM_UB => a
    case LDM_SB => if a >= 0x80 then a + 0xFFFF_FF00 else a
    case LDM_UH => a + 0x100 * b as int
    case LDM_SH => a + 0x100 * b as int + if b >= 0x80 then 0xFFFF_0000 else 0
    case _ => a + 0x100 * b as int + 0x1_0000 * c as int + 0x100_0000 * d as int
  }

  lemma LoadHandlers(op: Op, imm: u32, x: u32, y: u32, locals: Locals, mem: Memory)
    requires IsLoad(op)
    ensures Read(mem, x, Loads(op)).None? ==> Act(op, imm, x, y, locals, mem) == Halting(Fault)
    ensures Read(mem, x, Loads(op)).Some? ==>
      var b := Read(mem, x, Loads(op)).value;
      Act(op, imm, x, y, locals, mem) == Push([
        if op == LDM_UB then b[0]
        else if op == LDM_SB then SignExtend8(b[0])
        else if op == LDM_UH then Fetch16(b)
        else if op == LDM_SH then SignExtend16(Fetch16(b))
        else Fetch32(b)])
  {
    hide Compute, Read, Write, SignExtend8, SignExtend16, Fetch16, Fetch32;
  }

  /** A load pushes the little-endian value at its address, and faults where a byte is unmapped. */
  lemma LoadMeans(env: Env, s: State<u32>, op: Op)
    requires IsLoad(op) && Ready(s, op)
    ensures |s.data| >= 1
    ensures
      var x := s.data[0];
      if Mapped(s.mem, x, Loads(op)) then
        0 <= LoadedValue(op, s.mem, x) < 0x1_0000_0000 && Pushes(env, s, op, [LoadedValue(op, s.mem, x)])
      else Step(env, s) == Halted(Fault)
  {
    hide Act, Step, Read, Pushes, Ready, Imm, Mapped, ByteAt;
    OperandsOf(s, op);
    var x, n := s.data[0], Loads(op);
    ReadMapped(s.mem, x, n);
    LoadHandlers(op, Imm(s, op), x, Second(s, op), s.locals, s.mem);
    if Mapped(s.mem, x, n) {
      LoadedBytes(op, s.mem, x);
      PushStep(env, s, op, [LoadedValue(op, s.mem, x)]);
    } else {
      HaltStep(env, s, op, Fault);
    }
  }

  lemma LoadedBytes(op: Op, mem: Memory, x: u32)
    requires IsLoad(op) && Read(mem, x, Loads(op)).Some?
    ensures
      var b := Read(mem, x, Loads(op)).value;
      LoadedValue(op, mem, x) ==
        if op == LDM_UB then b[0]
        else if op == LDM_SB then SignExtend8(b[0])
        else if op == LDM_UH then Fetch16(b)
        else if op == LDM_SH then SignExtend16(Fetch16(b))
        else Fetch32(b)
  {
    hide Read, ByteAt, SignExtend8, SignExtend16, Wrap, Fetch16, Fetch32;
    ExtendedValues(ByteAt(mem, x), ByteAt(mem, x + 1));
    LoadedList(mem, x, Loads(op));
    FetchedSums(Read(mem, x, Loads(op)).value);
  }

  lemma FetchedSums(b: seq<u8>)
    ensures |b| == 2 ==> Fetch16(b) == b[0] as int + 0x100 * b[1] as int
    ensures |b| == 4 ==>
      Fetch32(b) == b[0] as int + 0x100 * b[1] as int + 0x1_0000 * b[2] as int + 0x100_0000 * b[3] as int
  {
  }

  lemma LoadedList(mem: Memory, x: u32, n: nat)
    requires (n == 1 || n == 2 || n == 4) && Read(mem, x, n).Some?
    ensures
      var b := Read(mem, x, n).value;
      && b[0] == ByteAt(mem, x) && (n > 1 ==> b[1] == ByteAt(mem, x + 1))
      && (n > 2 ==> b[2] == ByteAt(mem, x + 2) && b[3] == ByteAt(mem, x + 3))
  {
    hide Read, ByteAt;
    LoadedByte(mem, x, n, 0);
    if n > 1 {
      LoadedByte(mem, x, n, 1);
    }
    if n > 2 {
      LoadedByte(mem, x, n, 2);
      LoadedByte(mem, x, n, 3);
    }
  }

  lemma ExtendedValues(a: u8, b: u8)
    ensures SignExtend8(a) == if a >= 0x80 then a + 0xFFFF_FF00 else a
    ensures
      SignExtend16(a as int + 0x100 * b as int) == a as int + 0x100 * b as int + if b >= 0x80 then 0xFFFF_0000 else 0
  {
  }

  lemma HaltStep(env: Env, s: State<u32>, op: Op, h: Halt)
    requires Ready(s, op) && Act(op, Imm(s, op), Top(s, op), Second(s, op), s.locals, s.mem) == Halting(h)
    ensures Step(env, s) == Halted(h)
  {
    hide Act, Step, Read, Ready, Imm, StackIn, Top, Second;
    StepActs(env, s, op);
  }

  predicate IsStore(op: Op) {
    op == STM_B || op == STM_H || op == STM_W
  }

  function Stores(op: Op): nat {
    if op == STM_B then 1 else if op == STM_H then 2 else 4
  }

  /** Memory with the low bytes of `y` at `x`, least significant first. */
  function StoredMemory(op: Op, mem: Memory, x: u32, y: u32): Memory {
    var one := mem[x := y % 0x100];
    if op == STM_B then one else
    var two := one[Wrap(x + 1) := y / 0x100 % 0x100];
    if op == STM_H then two else two[Wrap(x + 2) := y / 0x1_0000 % 0x100][Wrap(x + 3) := y / 0x100_0000]
  }

  lemma StoreHandlers(op: Op, imm: u32, x: u32, y: u32, locals: Locals, mem: Memory)
    requires IsStore(op)
    ensures
      var bytes := if op == STM_B then [y % 0x100] else if op == STM_H then Le16(y % 0x1_0000) else Le32(y);
      Act(op, imm, x, y, locals, mem) == Stored(locals, Write(mem, x, bytes))
  {
    hide Compute, Read, Write, Le16, Le32, Stored;
  }

  lemma WriteFirst(mem: Memory, addr: u32, bytes: seq<u8>)
    ensures |bytes| == 0 ==> Write(mem, addr, bytes) == Some(mem)
    ensures |bytes| > 0 ==>
      Write(mem, addr, bytes) ==
        if addr in mem then Write(mem[addr := bytes[0]], Wrap(addr + 1), bytes[1..]) else None
  {
    hide Wrap;
  }

  lemma WriteMapped(mem: Memory, addr: u32, bytes: seq<u8>)
    requires |bytes| < WORD
    ensures Write(mem, addr, bytes).Some? <==> Mapped(mem, addr, |bytes|)
  {
    hide Write, Read, Mapped;
    ReadsBack(mem, addr, bytes);
    ReadMapped(mem, addr, |bytes|);
  }

  lemma WrittenBytes(mem: Memory, x: u32, bytes: seq<u8>)
    requires (|bytes| == 1 || |bytes| == 2 || |bytes| == 4) && Write(mem, x, bytes).Some?
    ensures
      var one := mem[x := bytes[0]];
      Write(mem, x, bytes).value ==
        if |bytes| == 1 then one
        else
          var two := one[Wrap(x + 1) := bytes[1]];
          if |bytes| == 2 then two else two[Wrap(x + 2) := bytes[2]][Wrap(x + 3) := bytes[3]]
  {
    hide Write, Wrap;
    var one := mem[x := bytes[0]];
    WriteFirst(mem, x, bytes);
    WriteFirst(one, Wrap(x + 1), bytes[1..]);
    if |bytes| > 1 {
      var two := one[Wrap(x + 1) := bytes[1]];
      WrapAdd(x + 1, 1);
      assert bytes[1..][1..] == bytes[2..];
      WriteFirst(two, Wrap(x + 2), bytes[2..]);
      if |bytes| > 2 {
        var three := two[Wrap(x + 2) := bytes[2]];
        WrapAdd(x + 2, 1);
        assert bytes[2..][1..] == bytes[3..] && bytes[3..][1..] == [];
        WriteFirst(three, Wrap(x + 3), bytes[3..]);
        WriteFirst(three[Wrap(x + 3) := bytes[3]], Wrap(Wrap(x + 3) + 1), []);
      }
    }
  }

  function LowBytes(op: Op, y: u32): seq<u8> {
    if op == STM_B then [y % 0x100] else if op == STM_H then Le16(y % 0x1_0000) else Le32(y)
  }

  /** What the store handler asks for. */
  lemma StoreActs(op: Op, imm: u32, x: u32, y: u32, locals: Locals, mem: Memory)
    requires IsStore(op)
    ensures |LowBytes(op, y)| == Stores(op)
    ensures
      Act(op, imm, x, y, locals, mem) ==
        if Mapped(mem, x, Stores(op)) then Update(locals, StoredMemory(op, mem, x, y)) else Halting(Fault)
  {
    hide Act, Write, Mapped, Le16, Le32, Wrap;
    StoredBytes(y);
    var bytes := LowBytes(op, y);
    StoreHandlers(op, imm, x, y, locals, mem);
    WriteMapped(mem, x, bytes);
    if Write(mem, x, bytes).Some? {
      WrittenBytes(mem, x, bytes);
    }
  }

  lemma StoreSizes(op: Op)
    requires IsStore(op)
    ensures StackIn(op) == 2 && OperandBytes(op) == 0
  {
  }

  /** A store writes the low bytes of the second entry at the address on top, least significant
      first, and nothing else; it faults where a byte is unmapped. */
  lemma StoreMeans(env: Env, s: State<u32>, op: Op)
    requires IsStore(op) && Ready(s, op)
    ensures |s.data| >= 2
    ensures Step(env, s) ==
      if Mapped(s.mem, s.data[0], Stores(op)) then
        Running(State((s.pos + 1) % 0x1_0000_0000, s.data[2..], s.control, s.locals,
                      StoredMemory(op, s.mem, s.data[0], s.data[1])))
      else Halted(Fault)
  {
    hide *;
    StoreSizes(op);
    OperandsOf(s, op);
    var x, y := s.data[0], s.data[1];
    StoreActs(op, Imm(s, op), x, y, s.locals, s.mem);
    if Mapped(s.mem, x, Stores(op)) {
      ActionStep(env, s, op, Update(s.locals, StoredMemory(op, s.mem, x, y)));
      UpdateAfterwards(env, s, 2, 0, s.locals, StoredMemory(op, s.mem, x, y));
    } else {
      HaltStep(env, s, op, Fault);
    }
  }

  lemma StoredBytes(y: u32)
    ensures Le16(y % 0x1_0000) == [y % 0x100, y / 0x100 % 0x100]
    ensures Le32(y) == [y % 0x100, y / 0x100 % 0x100, y / 0x1_0000 % 0x100, y / 0x100_0000]
  {
    var h := y % 0x1_0000;
    LowHalf(y);
    assert Le16(h) == [h % 0x100, h / 0x100];
  }

  lemma LowHalf(y: u32)
    ensures y % 0x1_0000 % 0x100 == y % 0x100 && y % 0x1_0000 / 0x100 == y / 0x100 % 0x100
  {
    var q, r := y / 0x1_0000, y % 0x1_0000;
    var h, l := r / 0x100, r % 0x100;
    UniqueQuotient(y, 0x100, 0x100 * q + h, l);
    UniqueRemainder(y, 0x100, 0x100 * q + h, l);
    UniqueRemainder(0x100 * q + h, 0x100, q, h);
  }

  // ---------- Locals ----------

  lemma LocalHandlers(imm: u32, x: u32, y: u32, locals: Locals, mem: Memory)
    ensures Act(LOCALS, imm, x, y, locals, mem) == Update(Locals(seq(imm, _ => Unset)), mem)
    ensures Act(LDLOC, imm, x, y, locals, mem) == LoadLocal(locals, imm)
    ensures Act(STLOC, imm, x, y, locals, mem) == StoreLocal(locals, imm, x, mem)
  {
    hide Compute, Read, Write, LoadLocal, StoreLocal;
  }

  /** The operand is the inline byte. */
  lemma ByteOperand(s: State<u32>, op: Op)
    requires Ready(s, op) && (op == LOCALS || op == LDLOC || op == STLOC)
    ensures Imm(s, op) == Inline(s, 0)
  {
    hide Imm, Inline, Ready;
    ImmediateOf(s, op);
  }

  /** LOCALS makes as many locals as its inline byte says, none of them with a value. */
  lemma LocalsMean(env: Env, s: State<u32>)
    requires Ready(s, LOCALS)
    ensures
      Step(env, s) ==
        Running(s.(pos := (s.pos + 2) % 0x1_0000_0000, locals := Locals(seq(Inline(s, 0) as nat, _ => Unset))))
  {
    hide Act, Step, Read, Ready, Imm, Inline, Afterwards;
    ByteOperand(s, LOCALS);
    LocalHandlers(Imm(s, LOCALS), Top(s, LOCALS), Second(s, LOCALS), s.locals, s.mem);
    var made := Locals(seq(Inline(s, 0) as nat, _ => Unset));
    ActionStep(env, s, LOCALS, Update(made, s.mem));
    UpdateAfterwards(env, s, 0, 1, made, s.mem);
    assert s.data[0..] == s.data;
  }

  /** LDLOC pushes the local its inline byte names; it panics without locals and out of bounds. */
  lemma LoadLocalMeans(env: Env, s: State<u32>)
    requires Ready(s, LDLOC)
    ensures
      var i := Inline(s, 0);
      if s.locals.NoLocals? then Step(env, s) == Halted(Panic(NoLocalsAllocated))
      else if i >= |s.locals.cells| then Step(env, s) == Halted(Panic(LocalOutOfBounds))
      else if s.locals.cells[i].Unset? then Step(env, s) == Halted(Undefined)
      else Pushes(env, s, LDLOC, [s.locals.cells[i].value])
  {
    hide Act, Step, Read, Ready, Imm, Inline, Pushes, Top, Second;
    ByteOperand(s, LDLOC);
    LocalHandlers(Imm(s, LDLOC), Top(s, LDLOC), Second(s, LDLOC), s.locals, s.mem);
    var action := LoadLocal(s.locals, Inline(s, 0));
    if action.Push? {
      PushStep(env, s, LDLOC, action.values);
    } else {
      HaltStep(env, s, LDLOC, action.halt);
    }
  }

  /** STLOC moves the topmost entry into the local its inline byte names, with the same panics. */
  lemma StoreLocalMeans(env: Env, s: State<u32>)
    requires Ready(s, STLOC)
    ensures |s.data| >= 1
    ensures
      var i := Inline(s, 0);
      Step(env, s) ==
        if s.locals.NoLocals? then Halted(Panic(NoLocalsAllocated))
        else if i >= |s.locals.cells| then Halted(Panic(LocalOutOfBounds))
        else
          Running(s.(pos := (s.pos + 2) % 0x1_0000_0000, data := s.data[1..],
                     locals := Locals(s.locals.cells[i := Set(s.data[0])])))
  {
    hide Act, Step, Read, Ready, Imm, Inline, Afterwards, Top, Second;
    OperandsOf(s, STLOC);
    ByteOperand(s, STLOC);
    LocalHandlers(Imm(s, STLOC), s.data[0], Second(s, STLOC), s.locals, s.mem);
    var action := StoreLocal(s.locals, Inline(s, 0), s.data[0], s.mem);
    if action.Update? {
      ActionStep(env, s, STLOC, action);
      UpdateAfterwards(env, s, 1, 1, action.locals, action.mem);
    } else {
      HaltStep(env, s, STLOC, action.halt);
    }
  }

  // ---------- Control ----------

  /** The inline byte as a signed displacement. */
  function ShortDistance(s: State<u32>): int {
    if Inline(s, 0) < 128 then Inline(s, 0) else Inline(s, 0) - 256
  }

  lemma BranchHandlers(op: Op, imm: u32, x: u32, y: u32, locals: Locals, mem: Memory)
    requires op == BR || op == BR_T || op == BR_F
    ensures
      var taken := op == BR || ((op == BR_T) == (x != 0));
      Act(op, imm, x, y, locals, mem) == Transfer(if taken then Goto(imm) else Fall)
  {
    hide Compute, Read, Write;
  }

  lemma BranchSizes(op: Op)
    requires op == BR || op == BR_T || op == BR_F
    ensures OperandBytes(op) == 1 && StackIn(op) == if op == BR then 0 else 1
  {
  }

  lemma BranchTarget(s: State<u32>, op: Op)
    requires (op == BR || op == BR_T || op == BR_F) && Ready(s, op)
    ensures Imm(s, op) == (s.pos + 2 + ShortDistance(s)) % 0x1_0000_0000
  {
    hide Ready, Imm, Inline, Wrap;
    ImmediateOf(s, op);
    WrapAdd(s.pos + 2, ShortDistance(s));
    WrapIsRemainder(s.pos + 2 + ShortDistance(s));
  }

  /** A branch goes the inline distance from its end when taken: BR always, BR_T on a topmost entry
      other than zero, BR_F on zero; the entry is dropped. */
  lemma BranchMeans(env: Env, s: State<u32>, op: Op)
    requires (op == BR || op == BR_T || op == BR_F) && Ready(s, op)
    ensures op != BR ==> |s.data| >= 1
    ensures
      var taken := op == BR || (op == BR_T && s.data[0] != 0) || (op == BR_F && s.data[0] == 0);
      Step(env, s) ==
        Running(s.(pos := (s.pos + 2 + if taken then ShortDistance(s) else 0) % 0x1_0000_0000,
                   data := if op == BR then s.data else s.data[1..]))
  {
    hide *;
    BranchSizes(op);
    OperandsOf(s, op);
    BranchHandlers(op, Imm(s, op), Top(s, op), Second(s, op), s.locals, s.mem);
    BranchTarget(s, op);
    var taken := op == BR || (op == BR_T && s.data[0] != 0) || (op == BR_F && s.data[0] == 0);
    ActionStep(env, s, op, Transfer(if taken then Goto(Imm(s, op)) else Fall));
    GoAfterwards(env, s, StackIn(op), 1, Imm(s, op));
    assert s.data[0..] == s.data;
  }

  lemma EnterHandlers(imm: u32, x: u32, y: u32, locals: Locals, mem: Memory)
    ensures Act(CALL, imm, x, y, locals, mem) == Transfer(Enter(imm))
    ensures Act(ICALL, imm, x, y, locals, mem) == Transfer(Enter(x))
  {
    hide Compute, Read, Write, LoadLocal, StoreLocal;
  }

  lemma LeaveHandlers(imm: u32, x: u32, y: u32, locals: Locals, mem: Memory)
    ensures Act(IJMP, imm, x, y, locals, mem) == Transfer(Goto(x))
    ensures Act(RET, imm, x, y, locals, mem) == Transfer(Leave)
    ensures Act(NCALL, imm, x, y, locals, mem) == Native(imm)
  {
    hide Compute, Read, Write, LoadLocal, StoreLocal;
  }

  /** A call saves the address behind it and the locals, and goes the inline distance from its end, or
      for ICALL to the topmost entry; 2048 frames fit. */
  lemma CallMeans(env: Env, s: State<u32>, op: Op)
    requires (op == CALL || op == ICALL) && Ready(s, op)
    ensures op == ICALL ==> |s.data| >= 1
    ensures
      var behind := (s.pos + if op == CALL then 5 else 1) % 0x1_0000_0000;
      var target := if op == CALL then (s.pos + 5 + InlineWord(s)) % 0x1_0000_0000 else s.data[0];
      Step(env, s) ==
        if |s.control| >= 2048 then Halted(Panic(StackOverflow))
        else
          Running(State(target, if op == CALL then s.data else s.data[1..], [Frame(behind, s.locals)] + s.control,
                        NoLocals, s.mem))
  {
    hide *;
    CallSizes(op);
    OperandsOf(s, op);
    EnterHandlers(Imm(s, op), Top(s, op), Second(s, op), s.locals, s.mem);
    if op == CALL {
      CallTarget(s);
    }
    var target := if op == CALL then Imm(s, CALL) else s.data[0];
    ActionStep(env, s, op, Transfer(Enter(target)));
    EnterAfterwards(env, s, StackIn(op), OperandBytes(op), target);
    assert s.data[0..] == s.data;
  }

  lemma CallSizes(op: Op)
    requires op == CALL || op == ICALL
    ensures OperandBytes(op) == (if op == CALL then 4 else 0) && StackIn(op) == if op == CALL then 0 else 1
  {
  }

  lemma CallTarget(s: State<u32>)
    requires Ready(s, CALL)
    ensures Imm(s, CALL) == (s.pos + 5 + InlineWord(s)) % 0x1_0000_0000
  {
    hide Ready, Imm, Inline, Wrap, Signed32;
    ImmediateOf(s, CALL);
    WrapSigned(InlineWord(s), Wrap(s.pos + 5));
    WrapAdd(s.pos + 5, InlineWord(s));
    WrapIsRemainder(s.pos + 5 + InlineWord(s));
  }

  /** IJMP goes to the topmost entry. */
  lemma JumpMeans(env: Env, s: State<u32>)
    requires Ready(s, IJMP)
    ensures |s.data| >= 1 && Step(env, s) == Running(s.(pos := s.data[0], data := s.data[1..]))
  {
    hide Act, Step, Read, Ready, Imm, Afterwards, Second;
    OperandsOf(s, IJMP);
    LeaveHandlers(Imm(s, IJMP), s.data[0], Second(s, IJMP), s.locals, s.mem);
    ActionStep(env, s, IJMP, Transfer(Goto(s.data[0])));
    GoAfterwards(env, s, 1, 0, s.data[0]);
  }

  /** RET goes back to the topmost frame. */
  lemma ReturnMeans(env: Env, s: State<u32>)
    requires Ready(s, RET)
    ensures
      Step(env, s) ==
        if |s.control| == 0 then Halted(Panic(StackUnderflow))
        else Running(State(s.control[0].returnTo, s.data, s.control[1..], s.control[0].locals, s.mem))
  {
    hide Act, Step, Read, Ready, Imm, Top, Second, Wrap;
    LeaveHandlers(Imm(s, RET), Top(s, RET), Second(s, RET), s.locals, s.mem);
    ActionStep(env, s, RET, Transfer(Leave));
    assert s.data[0..] == s.data;
  }

  lemma NativeOperand(s: State<u32>)
    requires Ready(s, NCALL)
    ensures Imm(s, NCALL) == InlineHalf(s)
  {
    hide Imm, Inline, Ready, Wrap;
    ImmediateOf(s, NCALL);
  }

  /** NCALL hands data stack and memory to the thunk its inline half-word numbers. */
  lemma NativeMeans(env: Env, s: State<u32>)
    requires Ready(s, NCALL)
    ensures
      var id := InlineHalf(s);
      if env.natives.None? then Step(env, s) == Halted(Panic(NoNativeCalls))
      else if id >= |env.natives.value| then Step(env, s) == Halted(Undefined)
      else
        match env.native(env.natives.value[id], s.data, s.mem)
        case Exit => Step(env, s) == Halted(Exited)
        case Returned(data, mem) =>
          Step(env, s) ==
            if |data| > 16384 then Halted(Panic(StackOverflow))
            else Running(s.(pos := (s.pos + 3) % 0x1_0000_0000, data := data, mem := mem))
  {
    hide Act, Step, Read, Ready, Imm, Inline, Top, Second, Afterwards, Wrap;
    NativeOperand(s);
    LeaveHandlers(Imm(s, NCALL), Top(s, NCALL), Second(s, NCALL), s.locals, s.mem);
    ActionStep(env, s, NCALL, Native(InlineHalf(s)));
    NativeAfterwards(env, s, 2, InlineHalf(s));
  }

  // ---------- What is no instruction ----------

  /** Missing operands are noticed first, then an opcode byte outside the table, then an unmapped
      inline operand. */
  lemma NotReady(env: Env, s: State<u32>, op: Op)
    ensures s.pos !in s.mem ==> Step(env, s) == Halted(Fault)
    ensures s.pos in s.mem && s.mem[s.pos] / 0x40 > |s.data| ==> Step(env, s) == Halted(Panic(StackUnderflow))
    ensures s.pos in s.mem && s.mem[s.pos] / 0x40 <= |s.data| && s.mem[s.pos] % 0x40 >= 47 ==>
      Step(env, s) == Halted(Panic(UnknownOpcode))
    ensures s.pos in s.mem && s.mem[s.pos] == OpcodeByte(op) && StackIn(op) <= |s.data|
            && !Mapped(s.mem, Wrap(s.pos + 1), OperandBytes(op)) ==>
      Step(env, s) == Halted(Fault)
  {
    hide Exec, Immediate, Read, OperandBytes, Mapped, OpcodeByte, StackIn;
    DecodeInvertsTable(op);
    ReadMapped(s.mem, Wrap(s.pos + 1), OperandBytes(op));
  }
}
