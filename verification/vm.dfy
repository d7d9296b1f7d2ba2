/** The VM as it runs: downward-growing array stacks and a context whose fields every step
    updates. Proved against the transition function. */
module Vm {
  import opened Words
  import opened Opcodes
  import opened Machine

  /** A bounded stack in an array: `top` moves down from the end towards index zero. */
  class Stack<T(0)> {
    const cells: array<T>
    var top: nat

    ghost predicate Valid()
      reads this
    {
      top <= cells.Length
    }

    /** Topmost entry first. */
    ghost function Contents(): (s: seq<T>)
      reads this, cells
      requires Valid()
      ensures |s| == cells.Length - top
    {
      cells[top..]
    }

    constructor (capacity: nat)
      ensures Valid() && fresh(cells) && cells.Length == capacity && Contents() == []
    {
      cells := new T[capacity];
      top := capacity;
    }

    /** Pushes a block with its first element topmost, or refuses the whole block. */
    method PushBlock(src: seq<T>) returns (ok: bool)
      requires Valid()
      modifies this`top, cells
      ensures Valid()
      ensures ok <==> |src| + |old(Contents())| <= cells.Length
      ensures Contents() == if ok then src + old(Contents()) else old(Contents())
    {
      if top < |src| {
        return false;
      }
      var start := top - |src|;
      var offset := 0;
      while offset < |src|
        invariant offset <= |src| && top == old(top)
        invariant cells[start..start + offset] == src[..offset]
        invariant cells[top..] == old(cells[top..])
      {
        cells[start + offset] := src[offset];
        offset := offset + 1;
      }
      assert cells[start..] == cells[start..top] + cells[top..];
      top := start;
      ok := true;
    }

    /** Pops `count` entries into a buffer, topmost first, or refuses. */
    method PopBlock(dst: array<T>, count: nat) returns (ok: bool)
      requires Valid() && count <= dst.Length && dst != cells
      modifies this`top, dst
      ensures Valid() && cells[..] == old(cells[..])
      ensures ok <==> count <= |old(Contents())|
      ensures ok ==> dst[..count] == old(Contents())[..count] && Contents() == old(Contents())[count..]
      ensures !ok ==> Contents() == old(Contents())
    {
      if top + count > cells.Length {
        return false;
      }
      var offset := 0;
      while offset < count
        invariant offset <= count && top == old(top) && cells[..] == old(cells[..])
        invariant dst[..offset] == cells[top..top + offset]
      {
        dst[offset] := cells[top + offset];
        offset := offset + 1;
      }
      top := top + count;
      ok := true;
    }
  }

  class Context {
    const dstack: Stack<u32>
    const cstack: Stack<Frame<u32>>
    const natives: Option<seq<u32>>
    var pc: u32
    var locals: Locals
    var mem: Memory

    ghost predicate Valid()
      reads this, dstack, cstack
    {
      && dstack.Valid() && cstack.Valid()
      && dstack.cells.Length == DATA_CAPACITY && cstack.cells.Length == CONTROL_CAPACITY
    }

    ghost function Abs(): State<u32>
      reads this, dstack, dstack.cells, cstack, cstack.cells
      requires Valid()
    {
      State(pc, dstack.Contents(), cstack.Contents(), locals, mem)
    }

    /** A context at a module's entry with empty stacks and no locals. */
    constructor (entry: u32, memory: Memory, table: Option<seq<u32>>)
      ensures Valid() && Abs() == State(entry, [], [], NoLocals, memory) && natives == table
      ensures fresh(dstack) && fresh(dstack.cells) && fresh(cstack) && fresh(cstack.cells)
    {
      dstack := new Stack<u32>(65536 / 4);
      cstack := new Stack<Frame<u32>>(8192 / 4);
      natives, pc, locals, mem := table, entry, NoLocals, memory;
    }

    /** Pushes results one at a time, the last listed first. */
    method PushResults(values: seq<u32>) returns (ok: bool)
      requires Valid()
      modifies dstack, dstack.cells
      ensures Valid()
      ensures ok <==> |values| + |old(dstack.Contents())| <= DATA_CAPACITY
      ensures ok ==> dstack.Contents() == values + old(dstack.Contents())
    {
      var n := |values|;
      ok := true;
      while n > 0 && ok
        invariant Valid() && 0 <= n <= |values|
        invariant ok ==> dstack.Contents() == values[n..] + old(dstack.Contents())
        invariant !ok ==> |values| + |old(dstack.Contents())| > DATA_CAPACITY
        decreases n, ok
      {
        ok := dstack.PushBlock([values[n - 1]]);
        if ok {
          assert [values[n - 1]] + values[n..] == values[n - 1..];
          n := n - 1;
        }
      }
    }

    /** Saves the return address and the locals, and leaves the callee without locals. */
    method SaveFrame(returnPc: u32) returns (ok: bool)
      requires Valid()
      modifies this`locals, cstack, cstack.cells
      ensures Valid()
      ensures ok <==> |old(cstack.Contents())| < CONTROL_CAPACITY
      ensures ok ==> cstack.Contents() == [Frame(returnPc, old(locals))] + old(cstack.Contents()) && locals == NoLocals
    {
      ok := cstack.PushBlock([Frame(returnPc, locals)]);
      if ok {
        locals := NoLocals;
      }
    }

    method RestoreFrame() returns (ok: bool, returnPc: u32)
      requires Valid()
      modifies this`locals, cstack
      ensures Valid()
      ensures ok <==> |old(cstack.Contents())| > 0
      ensures ok ==>
        var frame := old(cstack.Contents())[0];
        returnPc == frame.returnTo && locals == frame.locals && cstack.Contents() == old(cstack.Contents())[1..]
    {
      var frame := new Frame<u32>[1];
      returnPc := 0;
      ok := cstack.PopBlock(frame, 1);
      if ok {
        assert frame[..1][0] == frame[0];
        locals, returnPc := frame[0].locals, frame[0].returnTo;
      }
    }

    /** What a step reports and leaves behind is what the transition function says. */
    ghost predicate Agrees(before: Outcome<u32>, halt: Option<Halt>)
      reads this, dstack, dstack.cells, cstack, cstack.cells
      requires Valid()
    {
      match before
      case Running(t) => halt == None && Abs() == t
      case Halted(h) => halt == Some(h)
    }

    /** Carries out a handler's action with the operands already popped. */
    method Dispatch(native: Thunks, action: Action, next: u32) returns (halt: Option<Halt>)
      requires Valid() && |dstack.Contents()| <= DATA_CAPACITY
      modifies this, dstack, dstack.cells, cstack, cstack.cells
      ensures Valid()
      ensures
        var core := Core(old(dstack.Contents()), old(locals), old(mem));
        Agrees(Resume(old(cstack.Contents()), next, Perform(Env(natives, native), action, core)), halt)
    {
      pc := next;
      match action {
        case Push(values) =>
          var ok := PushResults(values);
          return if ok then None else Some(Panic(StackOverflow));
        case Update(newLocals, newMem) =>
          locals, mem := newLocals, newMem;
        case Native(index) =>
          halt := RunNative(native, index);
          return;
        case Halting(h) =>
          return Some(h);
        case Transfer(flow) =>
          match flow {
            case Fall =>
            case Goto(target) =>
              pc := target;
            case Enter(target) =>
              var ok := SaveFrame(pc);
              if !ok {
                return Some(Panic(StackOverflow));
              }
              pc := target;
            case Leave =>
              var ok, returnPc := RestoreFrame();
              if !ok {
                return Some(Panic(StackUnderflow));
              }
              pc := returnPc;
          }
      }
      halt := None;
    }

    /** A thunk replaces the data stack's contents and memory. */
    method RunNative(native: Thunks, index: u32) returns (halt: Option<Halt>)
      requires Valid()
      modifies this`mem, dstack, dstack.cells
      ensures Valid()
      ensures
        var core := Core(old(dstack.Contents()), old(locals), old(mem));
        Agrees(Resume(old(cstack.Contents()), pc, CallNative(Env(natives, native), index, core)), halt)
    {
      if natives.None? {
        return Some(Panic(NoNativeCalls));
      }
      if index >= |natives.value| {
        return Some(Undefined);
      }
      ghost var before := dstack.Contents();
      var data := dstack.cells[dstack.top..];
      var result := native(natives.value[index], data, mem);
      match result {
        case Exit =>
          return Some(Exited);
        case Returned(after, newMem) =>
          if |after| > DATA_CAPACITY {
            return Some(Panic(StackOverflow));
          }
          dstack.top := dstack.cells.Length;
          var ok := dstack.PushBlock(after);
          mem := newMem;
          halt := None;
      }
    }

    /** Emulates one instruction; `native` is what a thunk would answer. */
    method StepOnce(native: Thunks) returns (halt: Option<Halt>)
      requires Valid()
      modifies this, dstack, dstack.cells, cstack, cstack.cells
      ensures Valid()
      ensures Agrees(Step(Env(natives, native), old(Abs())), halt)
    {
      hide Act, Perform, Resume, Immediate, SlotOp, OperandBytes, Exec, Uses, Read;
      if pc !in mem {
        return Some(Fault);
      }
      var byte := mem[pc];
      var opsIn := DecodeCount(byte);
      var buf := new u32[3];
      var ok := dstack.PopBlock(buf, opsIn);
      if !ok {
        return Some(Panic(StackUnderflow));
      }
      var op := DecodeOp(byte);
      if op.None? {
        return Some(Panic(UnknownOpcode));
      }
      var bytes := Read(mem, Wrap(pc + 1), OperandBytes(op.value));
      if bytes.None? {
        return Some(Fault);
      }
      var next := Wrap(pc + 1 + OperandBytes(op.value));
      ghost var data := old(dstack.Contents());
      ExecActs(Env(natives, native), op.value, Immediate(op.value, bytes.value, next), data[..opsIn],
               Core(data[opsIn..], locals, mem));
      if opsIn < Uses(op.value) {
        ResumeStops(old(cstack.Contents()), next, Undefined);
        return Some(Undefined);
      }
      assert buf[..opsIn] == data[..opsIn];
      assert opsIn > 0 ==> buf[0] == buf[..opsIn][0];
      assert opsIn > 1 ==> buf[1] == buf[..opsIn][1];
      var x := if opsIn > 0 then buf[0] else 0;
      var y := if opsIn > 1 then buf[1] else 0;
      halt := Dispatch(native, Act(op.value, Immediate(op.value, bytes.value, next), x, y, locals, mem), next);
    }

    /** The interpreter loop, cut after `k` steps, with the thunks' answers at each of them. */
    method Execute(world: nat -> Thunks, k: nat) returns (halt: Option<Halt>)
      requires Valid()
      modifies this, dstack, dstack.cells, cstack, cstack.cells
      ensures Valid()
      ensures Agrees(Run(Answering(natives, world), old(Abs()), k), halt)
    {
      hide Step;
      halt := None;
      var j := 0;
      while j < k && halt == None
        invariant Valid() && j <= k
        invariant halt == None ==> Run(Answering(natives, world), old(Abs()), j) == Running(Abs())
        invariant halt.Some? ==> Run(Answering(natives, world), old(Abs()), k) == Halted(halt.value)
        decreases k - j, halt.None?
      {
        ghost var s := Abs();
        halt := StepOnce(world(j));
        if halt == None {
          j := j + 1;
        } else {
          StaysHalted(Answering(natives, world), old(Abs()), j + 1, k);
        }
      }
    }
  }

  lemma ResumeStops(control: seq<Frame<u32>>, next: u32, h: Halt)
    ensures Resume(control, next, Stop(h)) == Halted(h)
  {
  }

  lemma {:induction false} StaysHalted(envs: nat -> Env, s: State<u32>, j: nat, k: nat)
    requires j <= k && Run(envs, s, j).Halted?
    ensures Run(envs, s, k) == Run(envs, s, j)
    decreases k - j
  {
    hide Step;
    if j < k {
      StaysHalted(envs, s, j + 1, k);
    }
  }
}
