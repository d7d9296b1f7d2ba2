/** Whole-run properties of the byte machine: stack accounting and the call discipline. */
module Runs {
  import opened Numbers
  import opened Words
  import opened Opcodes
  import opened Machine

  /** The operation a running machine is about to execute, if its opcode is a known one. */
  function Upcoming(s: State<u32>): Option<Op> {
    if s.pos in s.mem then DecodeOp(s.mem[s.pos]) else None
  }

  /** Entries popped before dispatch. */
  function Popped(s: State<u32>): nat {
    if s.pos in s.mem then DecodeCount(s.mem[s.pos]) else 0
  }

  function DepthChange(s: State<u32>): int {
    match Upcoming(s)
    case None => 0
    case Some(op) => StackOut(op) - Popped(s)
  }

  /** Sum of pushes minus pops over the first `k` executed opcodes. */
  function Balance(envs: nat -> Env, s: State<u32>, k: nat): int {
    if k == 0 then 0 else
    match Run(envs, s, k - 1)
    case Halted(_) => Balance(envs, s, k - 1)
    case Running(t) => Balance(envs, s, k - 1) + DepthChange(t)
  }

  ghost predicate NoNativeCall(envs: nat -> Env, s: State<u32>, k: nat) {
    forall j | 0 <= j < k :: Run(envs, s, j).Running? ==> Upcoming(Run(envs, s, j).state) != Some(NCALL)
  }

  predicate WithinCapacity(s: State<u32>) {
    |s.data| <= DATA_CAPACITY && |s.control| <= CONTROL_CAPACITY
  }

  lemma ComputeShape(op: Op, x: u32, y: u32)
    requires Computes(op)
    ensures var act := Compute(op, x, y);
      (act.Push? && |act.values| == StackOut(op)) || act == Halting(Fault)
  {
    hide Power, BitAnd, BitOr, BitXor, Signed32, Wrap, TruncatedQuotient, TruncatedRemainder;
  }

  lemma ActComputes(op: Op, imm: u32, x: u32, y: u32, locals: Locals, mem: Memory)
    requires Computes(op)
    ensures Act(op, imm, x, y, locals, mem) == Compute(op, x, y)
  {
    hide Compute;
  }

  /** What each handler may ask for: its table count of results, or a change that leaves the
      data stack alone; only CALL and ICALL enter, only RET leaves, only NCALL goes native. */
  lemma ActShape(op: Op, imm: u32, x: u32, y: u32, locals: Locals, mem: Memory)
    ensures var act := Act(op, imm, x, y, locals, mem);
      && (act.Push? ==> |act.values| == StackOut(op))
      && (act.Update? || act.Transfer? ==> StackOut(op) == 0)
      && (act.Native? <==> op == NCALL) && (act.Native? ==> act.index == imm)
      && (act.Transfer? ==> (act.flow.Enter? <==> op == CALL || op == ICALL) && (act.flow.Leave? <==> op == RET))
      && ((op == CALL || op == ICALL) ==> act.Transfer?)
  {
    hide Read, Write, Compute, Le16, Le32, SignExtend8, SignExtend16, Byte, Half, Word;
    if Computes(op) {
      hide Act;
      ActComputes(op, imm, x, y, locals, mem);
      ComputeShape(op, x, y);
    }
  }

  /** An operation other than NCALL puts its table count of results on top of what was left
      after popping, and nothing below moves. */
  lemma ExecPushes(env: Env, op: Op, imm: u32, a: seq<u32>, core: Core)
    requires op != NCALL && Exec(env, op, imm, a, core).Done?
    ensures var after := Exec(env, op, imm, a, core).core.data;
      |after| == StackOut(op) + |core.data| && after[StackOut(op)..] == core.data
  {
    hide Act, StackOut;
    var x := if |a| > 0 then a[0] else 0;
    var y := if |a| > 1 then a[1] else 0;
    ActShape(op, imm, x, y, core.locals, core.mem);
  }

  lemma ExecKeepsCapacity(env: Env, op: Op, imm: u32, a: seq<u32>, core: Core)
    requires Exec(env, op, imm, a, core).Done? && |core.data| <= DATA_CAPACITY
    ensures |Exec(env, op, imm, a, core).core.data| <= DATA_CAPACITY
  {
    hide Act;
  }

  /** One step: the depth moves by the popped and pushed counts, and the entries below the
      operands stay. */
  lemma StepAccounts(env: Env, s: State<u32>)
    requires Step(env, s).Running? && Upcoming(s) != Some(NCALL)
    ensures Upcoming(s).Some? && Popped(s) <= |s.data|
    ensures var t := Step(env, s).state;
      |t.data| == |s.data| + DepthChange(s) && t.data[StackOut(Upcoming(s).value)..] == s.data[Popped(s)..]
  {
    hide Exec, Immediate, StackOut, OperandBytes, SlotOp;
    var op := Upcoming(s).value;
    var n := Popped(s);
    var bytes := Read(s.mem, Wrap(s.pos + 1), OperandBytes(op)).value;
    var next := Wrap(s.pos + 1 + OperandBytes(op));
    ExecPushes(env, op, Immediate(op, bytes, next), s.data[..n], Core(s.data[n..], s.locals, s.mem));
  }

  lemma StepKeepsCapacity(env: Env, s: State<u32>)
    requires Step(env, s).Running? && WithinCapacity(s)
    ensures WithinCapacity(Step(env, s).state)
  {
    hide Exec, Immediate, OperandBytes, SlotOp;
    var op := Upcoming(s).value;
    var n := Popped(s);
    var bytes := Read(s.mem, Wrap(s.pos + 1), OperandBytes(op)).value;
    var next := Wrap(s.pos + 1 + OperandBytes(op));
    ExecKeepsCapacity(env, op, Immediate(op, bytes, next), s.data[..n], Core(s.data[n..], s.locals, s.mem));
  }

  lemma NotUnfolds(env: Env, imm: u32, a: seq<u32>, core: Core)
    requires |a| == 2
    ensures Exec(env, NOT, imm, a, core) ==
      if 1 + |core.data| > DATA_CAPACITY then Stop(Panic(StackOverflow))
      else Done(core.(data := [BitNot(a[0])] + core.data), Fall)
  {
    hide BitNot, Power, BitAnd, BitOr, BitXor, Divide, Read, Write;
    assert Act(NOT, imm, a[0], a[1], core.locals, core.mem) == Push([BitNot(a[0])]);
  }

  /** NOT needs two entries where one would do, and takes both: the second is lost. */
  lemma NotTakesTwo(env: Env, s: State<u32>)
    requires s.pos in s.mem && s.mem[s.pos] == OpcodeByte(NOT)
    ensures Step(env, s).Running? <==> 2 <= |s.data| <= DATA_CAPACITY + 1
    ensures Step(env, s).Running? ==> Step(env, s).state.data == [BitNot(s.data[0])] + s.data[2..]
    ensures |s.data| < 2 ==> Step(env, s) == Halted(Panic(StackUnderflow))
  {
    hide Exec, SlotOp, BitNot, OpcodeByte;
    DecodeInvertsTable(NOT);
    assert OperandBytes(NOT) == 0 && StackIn(NOT) == 2;
    if |s.data| >= 2 {
      NotUnfolds(env, 0, s.data[..2], Core(s.data[2..], s.locals, s.mem));
    }
  }

  /** Over any run, native calls included, the stacks stay within their mapped sizes. */
  lemma {:induction false} RunKeepsCapacity(envs: nat -> Env, s: State<u32>, k: nat)
    requires WithinCapacity(s) && Run(envs, s, k).Running?
    ensures WithinCapacity(Run(envs, s, k).state)
  {
    hide Step;
    if k > 0 {
      RunKeepsCapacity(envs, s, k - 1);
      StepKeepsCapacity(envs(k - 1), Run(envs, s, k - 1).state);
    }
  }

  /** Over any run without NCALL the data depth is the initial depth plus the executed opcodes'
      pushes minus pops. */
  lemma {:induction false} RunAccounts(envs: nat -> Env, s: State<u32>, k: nat)
    requires NoNativeCall(envs, s, k) && Run(envs, s, k).Running?
    ensures |Run(envs, s, k).state.data| == |s.data| + Balance(envs, s, k)
  {
    hide Step;
    if k > 0 {
      assert Run(envs, s, k - 1).Running?;
      RunAccounts(envs, s, k - 1);
      StepAccounts(envs(k - 1), Run(envs, s, k - 1).state);
    }
  }

  /** No executed opcode pops below depth `d`. */
  ghost predicate PopsStayAbove(envs: nat -> Env, s: State<u32>, k: nat, d: nat) {
    forall j | 0 <= j < k ::
      Run(envs, s, j).Running? ==> |Run(envs, s, j).state.data| - Popped(Run(envs, s, j).state) >= d
  }

  function Bottom(data: seq<u32>, d: nat): seq<u32>
    requires d <= |data|
  {
    data[|data| - d..]
  }

  /** Entries below every executed opcode's operands are the same at the end of the run. */
  lemma {:induction false} RunKeepsBottom(envs: nat -> Env, s: State<u32>, k: nat, d: nat)
    requires NoNativeCall(envs, s, k) && PopsStayAbove(envs, s, k, d)
    requires d <= |s.data| && Run(envs, s, k).Running?
    ensures d <= |Run(envs, s, k).state.data|
    ensures Bottom(Run(envs, s, k).state.data, d) == Bottom(s.data, d)
  {
    hide Step;
    if k > 0 {
      assert Run(envs, s, k - 1).Running?;
      RunKeepsBottom(envs, s, k - 1, d);
      var u := Run(envs, s, k - 1).state;
      var t := Run(envs, s, k).state;
      StepAccounts(envs(k - 1), u);
      var out := StackOut(Upcoming(u).value);
      assert Bottom(t.data, d) == Bottom(t.data[out..], d);
      assert Bottom(u.data, d) == Bottom(u.data[Popped(u)..], d);
    }
  }

  // ---------- Calls ----------

  predicate AtCall(s: State<u32>) {
    Upcoming(s) == Some(CALL) || Upcoming(s) == Some(ICALL)
  }

  /** The address of the byte after the instruction at `s.pos`. */
  function After(s: State<u32>): u32
    requires Upcoming(s).Some?
  {
    Wrap(s.pos + 1 + OperandBytes(Upcoming(s).value))
  }

  /** Until step `k` the control stack stays deeper than it was at the call. */
  ghost predicate Inside(envs: nat -> Env, s: State<u32>, k: nat) {
    forall j | 0 < j < k :: Run(envs, s, j).Running? ==> |Run(envs, s, j).state.control| > |s.control|
  }

  /** A step leaves the control stack alone, pushes one frame, or pops one and resumes there. */
  lemma StepMovesOneFrame(env: Env, s: State<u32>)
    requires Step(env, s).Running?
    ensures var t := Step(env, s).state;
      || t.control == s.control
      || (|t.control| == |s.control| + 1 && t.control[1..] == s.control)
      || (|s.control| > 0 && t.control == s.control[1..]
          && t.pos == s.control[0].returnTo && t.locals == s.control[0].locals)
  {
    hide Exec, Immediate, OperandBytes, SlotOp;
  }

  lemma ExecEnters(env: Env, op: Op, imm: u32, a: seq<u32>, core: Core)
    requires (op == CALL || op == ICALL) && Exec(env, op, imm, a, core).Done?
    ensures Exec(env, op, imm, a, core).flow.Enter? && Exec(env, op, imm, a, core).core == core
  {
    hide Act;
    var x := if |a| > 0 then a[0] else 0;
    var y := if |a| > 1 then a[1] else 0;
    ActShape(op, imm, x, y, core.locals, core.mem);
  }

  lemma CallPushesFrame(env: Env, s: State<u32>)
    requires AtCall(s) && Step(env, s).Running?
    ensures Step(env, s).state.control == [Frame(After(s), s.locals)] + s.control
  {
    hide Exec, Immediate, OperandBytes, SlotOp;
    var op := Upcoming(s).value;
    var n := Popped(s);
    var bytes := Read(s.mem, Wrap(s.pos + 1), OperandBytes(op)).value;
    ExecEnters(env, op, Immediate(op, bytes, After(s)), s.data[..n], Core(s.data[n..], s.locals, s.mem));
  }

  function Tail<T>(s: seq<T>, d: nat): seq<T>
    requires d <= |s|
  {
    s[|s| - d..]
  }

  /** While the callee runs, the caller's frame and everything under it stay in place. */
  lemma {:induction false} FrameStays(envs: nat -> Env, s: State<u32>, k: nat)
    requires AtCall(s) && k > 0 && Inside(envs, s, k + 1) && Run(envs, s, k).Running?
    ensures |Run(envs, s, k).state.control| > |s.control|
    ensures Tail(Run(envs, s, k).state.control, |s.control| + 1) == [Frame(After(s), s.locals)] + s.control
  {
    hide Step;
    var d := |s.control| + 1;
    var u := Run(envs, s, k - 1).state;
    var t := Run(envs, s, k).state;
    if k == 1 {
      assert u == s;
      CallPushesFrame(envs(0), s);
      assert Tail(t.control, d) == t.control;
    } else {
      FrameStays(envs, s, k - 1);
      StepMovesOneFrame(envs(k - 1), u);
      if |t.control| == |u.control| + 1 {
        assert Tail(t.control, d) == Tail(t.control[1..], d);
      } else if t.control != u.control {
        assert Tail(u.control, d) == Tail(u.control[1..], d);
      }
    }
  }

  /** Call discipline: when the control stack first comes back to its depth at the call, however
      many calls nested in between, execution is at the byte after the call with the caller's
      locals and control stack. */
  lemma CallReturns(envs: nat -> Env, s: State<u32>, k: nat)
    requires AtCall(s) && k > 0 && Inside(envs, s, k) && Run(envs, s, k).Running?
    requires |Run(envs, s, k).state.control| == |s.control|
    ensures var t := Run(envs, s, k).state;
      t.pos == After(s) && t.locals == s.locals && t.control == s.control
  {
    hide Step;
    var u := Run(envs, s, k - 1).state;
    var t := Run(envs, s, k).state;
    if k == 1 {
      assert u == s;
      CallPushesFrame(envs(0), s);
    } else {
      FrameStays(envs, s, k - 1);
      StepMovesOneFrame(envs(k - 1), u);
      assert Tail(u.control, |s.control| + 1) == u.control;
    }
  }
}
