/** The VM with its frames and locals in blocks of its own heap, which the program shares. */
module FrameHeap {
  import opened Numbers
  import opened Words
  import opened Opcodes
  import opened Machine
  import opened Runs
  import opened Handlers
  import opened Frames
  import Arena
  import Heap
  import opened HeapRuns

  const HEADER := Arena.UNIT

  // ---------- Blocks of the VM ----------

  function LocalsBlocks(block: u32, locals: Locals): set<(u32, nat)> {
    match locals
    case NoLocals => {}
    case Locals(cells) => {(block, LocalsSize(|cells|))}
  }

  function FrameBlocks(mem: Memory, block: u32, frame: Frame<u32>): set<(u32, nat)> {
    {(block, FRAME_SIZE)} + LocalsBlocks(SavedLocals(mem, block), frame.locals)
  }

  function ControlBlocks(mem: Memory, control: seq<u32>, frames: seq<Frame<u32>>): set<(u32, nat)> {
    if |control| == 0 || |frames| == 0 then {}
    else FrameBlocks(mem, control[0], frames[0]) + ControlBlocks(mem, control[1..], frames[1..])
  }

  /** Address and size of every block the VM has in use. */
  function Blocks(s: State<u32>, r: Raw): set<(u32, nat)> {
    LocalsBlocks(r.locals, s.locals) + ControlBlocks(r.mem, r.control, s.control)
  }

  /** The addresses alone. */
  function Pointers(blocks: set<(u32, nat)>): set<u32> {
    set b | b in blocks :: b.0
  }

  lemma {:induction false} ControlFeetAreBlocks(mem: Memory, control: seq<u32>, frames: seq<Frame<u32>>, a: u32)
    requires |control| == |frames| && a in ControlFeet(mem, control, frames)
    ensures exists b :: b in ControlBlocks(mem, control, frames) && a in Block(b.0, b.1)
    decreases |control|
  {
    hide Block, SavedLocals;
    if a in FrameFeet(mem, control[0], frames[0]) {
      FrameFeetAreBlocks(mem, control[0], frames[0], a);
    } else {
      ControlFeetAreBlocks(mem, control[1..], frames[1..], a);
    }
  }

  lemma FrameFeetAreBlocks(mem: Memory, block: u32, frame: Frame<u32>, a: u32)
    requires a in FrameFeet(mem, block, frame)
    ensures exists b :: b in FrameBlocks(mem, block, frame) && a in Block(b.0, b.1)
  {
    hide Block, SavedLocals;
    if a in Block(block, FRAME_SIZE) {
      assert (block, FRAME_SIZE) in FrameBlocks(mem, block, frame);
    } else {
      var b := (SavedLocals(mem, block), LocalsSize(|frame.locals.cells|));
      assert b in FrameBlocks(mem, block, frame);
    }
  }

  /** Every byte in use lies in a block in use. */
  lemma FeetAreBlocks(s: State<u32>, r: Raw, a: u32)
    requires |r.control| == |s.control| && a in Feet(s, r)
    ensures exists b :: b in Blocks(s, r) && a in Block(b.0, b.1)
  {
    hide Block, ControlFeet, ControlBlocks;
    if a in LocalsFeet(r.locals, s.locals) {
      assert (r.locals, LocalsSize(|s.locals.cells|)) in Blocks(s, r);
    } else {
      ControlFeetAreBlocks(r.mem, r.control, s.control, a);
    }
  }

  // ---------- Blocks of the heap ----------

  /** The block lies behind the header of a live slot. */
  ghost predicate Owned(live: set<(int, int)>, addr: int, n: nat) {
    exists b :: b in live && b.0 + HEADER == addr && addr + n <= b.1
  }

  ghost predicate AllOwned(live: set<(int, int)>, blocks: set<(u32, nat)>) {
    forall b :: b in blocks ==> Owned(live, b.0, b.1)
  }

  /** The allocator has given the byte away: it is outside the arena or behind the header of a live
      slot. */
  ghost predicate GivenAway(live: set<(int, int)>, first: int, brk: int, a: u32) {
    a < first || a >= brk || exists b :: b in live && b.0 + HEADER <= a < b.1
  }

  lemma BlockRange(addr: u32, n: nat, a: u32)
    requires addr + n <= WORD
    ensures a in Block(addr, n) <==> addr <= a < addr + n
  {
    if addr <= a {
      WrapIsRemainder(a - addr);
    } else {
      WrapShift(a - addr + WORD, -1);
      WrapIsRemainder(a - addr + WORD);
    }
  }

  lemma LiveInArena(h: Arrangement, b: (int, int))
    requires Sound(h) && b in Arena.Live(h.slots)
    ensures h.first <= b.0 < b.1 <= h.brk <= 0xC000_0000
  {
    var i :| 0 <= i < |h.slots| && h.slots[i].LiveSlot? && b == (h.slots[i].start, h.slots[i].end);
    Arena.Bounds(h.slots, h.first, h.brk, i);
  }

  /** The heap is sound and owns the blocks. */
  ghost predicate OwnsAll(h: Arrangement, blocks: set<(u32, nat)>) {
    Sound(h) && AllOwned(Arena.Live(h.slots), blocks)
  }

  /** The byte lies in the live slot `b`, which is one of the blocks. */
  ghost predicate InSlotOf(b: (int, int), blocks: set<(u32, nat)>, a: int) {
    b.0 + HEADER <= a < b.1 && exists k :: k in blocks && k.0 == b.0 + HEADER
  }

  /** Bytes of blocks in use lie in their live slots. */
  lemma FeetInSlots(h: Arrangement, s: State<u32>, r: Raw, a: u32)
    requires |r.control| == |s.control| && OwnsAll(h, Blocks(s, r)) && a in Feet(s, r)
    ensures exists b :: b in Arena.Live(h.slots) && InSlotOf(b, Blocks(s, r), a)
  {
    hide Sound, Arena.Live, Block, Blocks, Feet;
    FeetAreBlocks(s, r, a);
    var k :| k in Blocks(s, r) && a in Block(k.0, k.1);
    assert Owned(Arena.Live(h.slots), k.0, k.1);
    var b :| b in Arena.Live(h.slots) && b.0 + HEADER == k.0 && k.0 + k.1 <= b.1;
    LiveInArena(h, b);
    BlockRange(k.0, k.1, a);
    assert InSlotOf(b, Blocks(s, r), a);
  }

  // ---------- The allocator serves a step ----------

  /** The call hands out `block` for a request of `n` bytes. */
  ghost predicate HandsOver(h: Arrangement, c: Call, h': Arrangement, block: int, n: nat) {
    && HandsOut(c) && c.size == n && Does(h, c, h')
    && NewIndex(h, c) < |h'.slots| && block == h'.slots[NewIndex(h, c)].start + HEADER
  }

  function NewBlock(h: Arrangement, c: Call, h': Arrangement): (int, int)
    requires NewIndex(h, c) < |h'.slots|
  {
    (h'.slots[NewIndex(h, c)].start, h'.slots[NewIndex(h, c)].end)
  }

  /** The block handed out is a new live block with room for the request. */
  lemma HandedOver(h: Arrangement, c: Call, h': Arrangement, block: int, n: nat)
    requires Sound(h) && HandsOver(h, c, h', block, n) && n <= 0x1000
    ensures Sound(h') && NewIndex(h, c) < |h'.slots|
    ensures
      var b := NewBlock(h, c, h');
      && b !in Arena.Live(h.slots) && Arena.Live(h'.slots) == Arena.Live(h.slots) + {b}
      && b.0 + HEADER == block && block + n <= b.1
  {
    hide Sound, Does, Arena.Live, NewIndex;
    CallKeepsSound(h, c, h');
    CallChangesOneBlock(h, c, h');
    assert AddsBlock(h.slots, h'.slots, NewIndex(h, c), n);
    RoomInside(n);
  }

  lemma RoomInside(n: u32)
    requires n <= 0x1000
    ensures Arena.Units(n) * Arena.UNIT >= n + HEADER
  {
    hide Arena.Units;
    Arena.UnitsHoldRequest(n);
  }

  // The heap from the last step to a step, with the calls in between, and once it served the step.
  datatype Turn = Turn(states: seq<Arrangement>, calls: seq<Call>, after: Arrangement)

  /** The heap in front of the step. */
  function Before(turn: Turn): Arrangement
    requires |turn.states| > 0
  {
    turn.states[|turn.states| - 1]
  }

  /** The allocation a step asks for. */
  ghost predicate Allots(s: State<u32>, h: Arrangement, h': Arrangement, block: u32) {
    if Needs(s) == 0 then h' == h else exists c :: HandsOver(h, c, h', block, Needs(s))
  }

  /** The byte belongs to the header of a slot. */
  ghost predicate InHeader(h: Arrangement, a: int) {
    exists x :: x in Heap.Starts(h.slots) && x <= a < x + HEADER
  }

  /** Only header bytes of slots the heap went through changed, and none of the program's: what a
      thunk did with the program's bytes is part of its answer. */
  ghost predicate WritesHeaders(passed: seq<Arrangement>, own: set<u32>, mem: Memory, mem': Memory) {
    forall a :: a in mem ==>
      a in mem' && (mem'[a] == mem[a] || (a !in own && exists i :: 0 <= i < |passed| && InHeader(passed[i], a)))
  }

  /** Since the last step the allocator wrote only headers, and it serves the next step; its arena is
      mapped, and the program has only bytes it was given. */
  ghost predicate Serves(turn: Turn, s: State<u32>, r: Raw, v: Service)
    requires |turn.states| > 0
  {
    var live, first, brk := Arena.Live(Before(turn).slots), turn.after.first, turn.after.brk;
    && Allots(s, Before(turn), turn.after, v.block)
    && WritesHeaders(turn.states + [turn.after], s.mem.Keys, r.mem, v.mem)
    && (forall a: u32 :: first <= a < brk ==> a in v.mem)
    && (forall a :: a in s.mem ==> GivenAway(live, first, brk, a))
  }

  lemma NeedsSmall(s: State<u32>)
    ensures Needs(s) <= 0x1000
  {
    hide Decode;
    LocalsCount(s);
  }

  lemma HeaderFits(slots: seq<Arena.Slot>, first: int, brk: int, k: nat)
    requires Arena.Tiled(slots, first, brk) && k < |slots|
    ensures slots[k].start + HEADER <= slots[k].end
  {
    assert Arena.SlotFits(slots[k]);
  }

  /** No header byte lies in a live slot behind its header. */
  lemma NotInHeader(h: Arrangement, b: (int, int), a: int)
    requires Sound(h) && b in Arena.Live(h.slots) && b.0 + HEADER <= a < b.1
    ensures !InHeader(h, a)
  {
    hide Sound, Arena.Tiled;
    SoundTiled(h);
    var j :| 0 <= j < |h.slots| && h.slots[j].LiveSlot? && b == (h.slots[j].start, h.slots[j].end);
    forall x | x in Heap.Starts(h.slots) ensures !(x <= a < x + HEADER) {
      var k :| 0 <= k < |h.slots| && !h.slots[k].LostSlot? && x == h.slots[k].start;
      HeaderFits(h.slots, h.first, h.brk, k);
      if k < j {
        Arena.Ordered(h.slots, h.first, h.brk, k, j);
      } else if j < k {
        Arena.Ordered(h.slots, h.first, h.brk, j, k);
      }
    }
  }

  lemma FeetNotInHeaders(h: Arrangement, s: State<u32>, r: Raw, a: u32)
    requires |r.control| == |s.control| && OwnsAll(h, Blocks(s, r)) && a in Feet(s, r)
    ensures !InHeader(h, a)
  {
    hide Arena.Live, Blocks, Feet, InHeader, Sound;
    FeetInSlots(h, s, r, a);
    var b :| b in Arena.Live(h.slots) && InSlotOf(b, Blocks(s, r), a);
    NotInHeader(h, b, a);
  }

  /** Bytes that belong to no header the heap went through stay as they are. */
  lemma HeadersAgree(passed: seq<Arrangement>, own: set<u32>, mem: Memory, mem': Memory, cells: set<u32>)
    requires WritesHeaders(passed, own, mem, mem') && cells <= mem.Keys
    requires forall a, i :: a in cells && 0 <= i < |passed| ==> !InHeader(passed[i], a)
    ensures Agree(mem, mem', cells)
  {
    hide InHeader;
  }

  lemma OwnBytesStay(passed: seq<Arrangement>, visible: Memory, mem: Memory, mem': Memory)
    requires WritesHeaders(passed, visible.Keys, mem, mem') && Within(visible, mem)
    ensures Within(visible, mem')
  {
    hide InHeader;
  }

  lemma ServedUndisturbed(passed: seq<Arrangement>, s: State<u32>, r: Raw, mem: Memory)
    requires Refines(s, r) && forall i | 0 <= i < |passed| :: OwnsAll(passed[i], Blocks(s, r))
    requires WritesHeaders(passed, s.mem.Keys, r.mem, mem)
    ensures Undisturbed(s, r, mem)
  {
    hide Refines, Blocks, Feet, InHeader, OwnsAll, Within, Agree, WritesHeaders;
    RefinesParts(s, r);
    forall a, i | a in Feet(s, r) && 0 <= i < |passed| ensures !InHeader(passed[i], a) {
      FeetNotInHeaders(passed[i], s, r, a);
    }
    HeadersAgree(passed, s.mem.Keys, r.mem, mem, Feet(s, r));
    OwnBytesStay(passed, s.mem, r.mem, mem);
  }

  /** The block the allocator hands out is fresh, by what the allocator promises of its live blocks. */
  lemma HandedOverFresh(h: Arrangement, c: Call, h': Arrangement, s: State<u32>, r: Raw, block: u32, n: nat)
    requires Sound(h) && HandsOver(h, c, h', block, n) && 0 < n <= 0x1000
    requires |r.control| == |s.control| && OwnsAll(h, Blocks(s, r))
    requires forall a: u32 :: h'.first <= a < h'.brk ==> a in r.mem
    requires forall a :: a in s.mem ==> GivenAway(Arena.Live(h.slots), h'.first, h'.brk, a)
    ensures Fresh(s, r, block, n)
  {
    hide Sound, Blocks, HandsOver, Feet, AllOwned, Arena.Live, Block;
    assert Sound(h);
    HandedOver(h, c, h', block, n);
    var b := NewBlock(h, c, h');
    LiveInArena(h', b);
    forall a | a in Block(block, n) ensures a in r.mem && a !in s.mem && a !in Feet(s, r) {
      BlockRange(block, n, a);
      NotGivenAway(h, h', b, a);
      if a in Feet(s, r) {
        FeetInSlots(h, s, r, a);
      }
    }
    FirstSlotAboveZero(h', b);
  }

  lemma FirstSlotAboveZero(h: Arrangement, b: (int, int))
    requires Sound(h) && b in Arena.Live(h.slots)
    ensures b.0 >= 0
  {
    hide Arena.Live;
    LiveInArena(h, b);
  }

  /** No byte of a new block was given away before. */
  lemma NotGivenAway(h: Arrangement, h': Arrangement, b: (int, int), a: u32)
    requires Sound(h') && b !in Arena.Live(h.slots) && Arena.Live(h'.slots) == Arena.Live(h.slots) + {b}
    requires b.0 <= a < b.1
    ensures h'.first <= a < h'.brk && !GivenAway(Arena.Live(h.slots), h'.first, h'.brk, a)
  {
    hide Arena.Live;
    LiveInArena(h', b);
    forall c | c in Arena.Live(h.slots) ensures c.1 <= b.0 || b.1 <= c.0 {
      assert c in Arena.Live(h'.slots) && b in Arena.Live(h'.slots);
      SoundTiled(h');
      Arena.LiveDisjoint(h'.slots, h'.first, h'.brk, b, c);
    }
  }

  lemma SoundTiled(h: Arrangement)
    requires Sound(h)
    ensures Arena.Tiled(h.slots, h.first, h.brk)
  {
  }

  /** The block handed out for the step, if it asked for one. */
  function Handed(s: State<u32>, block: u32): set<(u32, nat)> {
    if Needs(s) == 0 then {} else {(block, Needs(s))}
  }

  /** An allocation keeps what the heap owned and adds the block handed out. */
  lemma HandedOverOwned(h: Arrangement, c: Call, h': Arrangement, blocks: set<(u32, nat)>, block: u32, n: nat)
    requires OwnsAll(h, blocks) && HandsOver(h, c, h', block, n) && n <= 0x1000
    ensures OwnsAll(h', blocks + {(block, n)})
  {
    hide Sound, HandsOver, Arena.Live, Owned;
    HandedOver(h, c, h', block, n);
    OwnedMember(Arena.Live(h'.slots), NewBlock(h, c, h'), block, n);
    forall b | b in blocks ensures Owned(Arena.Live(h'.slots), b.0, b.1) {
      OwnedMore(Arena.Live(h.slots), Arena.Live(h'.slots), b.0, b.1);
    }
  }

  lemma OwnedMember(live: set<(int, int)>, b: (int, int), addr: int, n: nat)
    requires b in live && b.0 + HEADER == addr && addr + n <= b.1
    ensures Owned(live, addr, n)
  {
  }

  lemma OwnedMore(live: set<(int, int)>, more: set<(int, int)>, addr: int, n: nat)
    requires live <= more && Owned(live, addr, n)
    ensures Owned(more, addr, n)
  {
  }

  lemma AllottedOwned(h: Arrangement, h': Arrangement, s: State<u32>, block: u32, blocks: set<(u32, nat)>)
    requires OwnsAll(h, blocks) && Allots(s, h, h', block)
    ensures OwnsAll(h', blocks + Handed(s, block))
  {
    hide Needs, HandsOver, OwnsAll;
    if Needs(s) > 0 {
      NeedsSmall(s);
      var c :| HandsOver(h, c, h', block, Needs(s));
      HandedOverOwned(h, c, h', blocks, block, Needs(s));
    } else {
      assert blocks + Handed(s, block) == blocks;
    }
  }

  lemma AllottedFresh(h: Arrangement, h': Arrangement, s: State<u32>, r: Raw, block: u32)
    requires |r.control| == |s.control| && OwnsAll(h, Blocks(s, r)) && Allots(s, h, h', block) && Needs(s) > 0
    requires forall a: u32 :: h'.first <= a < h'.brk ==> a in r.mem
    requires forall a :: a in s.mem ==> GivenAway(Arena.Live(h.slots), h'.first, h'.brk, a)
    ensures Fresh(s, r, block, Needs(s))
  {
    hide Needs, HandsOver, Blocks, GivenAway, Arena.Live, Fresh, AllOwned, Sound;
    NeedsSmall(s);
    var c :| HandsOver(h, c, h', block, Needs(s));
    HandedOverFresh(h, c, h', s, r, block, Needs(s));
  }

  lemma {:induction false} AgreedBlocks(mem: Memory, other: Memory, control: seq<u32>,
                                        frames: seq<Frame<u32>>, cells: set<u32>)
    requires ControlHolds(mem, control, frames) && Agree(mem, other, cells)
    requires ControlFeet(mem, control, frames) <= cells
    ensures ControlBlocks(other, control, frames) == ControlBlocks(mem, control, frames)
    decreases |control|
  {
    hide Agree, FrameHolds, FrameFeet, SavedLocals;
    if |control| > 0 {
      FrameKept(mem, other, control[0], frames[0], cells);
      AgreedBlocks(mem, other, control[1..], frames[1..], cells);
    }
  }

  lemma UndisturbedBlocks(s: State<u32>, r: Raw, mem: Memory)
    requires Refines(s, r) && Undisturbed(s, r, mem)
    ensures Blocks(s, r.(mem := mem)) == Blocks(s, r)
  {
    hide Within, Agree, ControlFeet, ControlBlocks, ControlHolds;
    AgreedBlocks(r.mem, mem, r.control, s.control, Feet(s, r));
  }

  // ---------- What a step does to the blocks ----------

  predicate SameCount(locals: Locals, locals': Locals) {
    if locals.Locals? then locals'.Locals? && |locals'.cells| == |locals.cells| else locals'.NoLocals?
  }

  /** How an operation changes control stack and locals, on values and on blocks. */
  ghost predicate Shape(op: Op, imm: u32, block: u32, s: State<u32>, r: Raw, t: State<u32>, u: Raw) {
    if op == LOCALS then
      && t.control == s.control && t.locals.Locals? && |t.locals.cells| == imm
      && u.control == r.control && u.locals == block
    else if op == CALL || op == ICALL then
      && |t.control| == |s.control| + 1 && t.control[1..] == s.control && t.control[0].locals == s.locals
      && t.locals.NoLocals? && u.control == [block] + r.control
    else if op == RET then
      && |s.control| > 0 && t.control == s.control[1..] && t.locals == s.control[0].locals
      && |r.control| > 0 && u.control == r.control[1..] && u.locals == SavedLocals(r.mem, r.control[0])
    else t.control == s.control && u.control == r.control && u.locals == r.locals && SameCount(s.locals, t.locals)
  }

  lemma LocalsShape(env: Env, op: Op, imm: u32, a: seq<u32>, next: u32, block: u32, s: State<u32>, r: Raw)
    requires OnLocals(op)
    requires Carried(env, op, imm, a, next, s).Running? && RawExec(env, op, imm, a, next, block, r).RawRunning?
    ensures Shape(op, imm, block, s, r, Carried(env, op, imm, a, next, s).state,
                  RawExec(env, op, imm, a, next, block, r).state)
  {
    hide Act, Uses, WordAt, Write, Exec;
    UsesOf(op);
    ExecActs(env, op, imm, a, Core(s.data, s.locals, s.mem));
    LocalsActs(imm, if |a| > 0 then a[0] else 0, if |a| > 1 then a[1] else 0, s.locals, s.mem);
  }

  lemma LeaveShape(imm: u32, next: u32, block: u32, s: State<u32>, r: Raw)
    requires Resume(s.control, next, Done(Core(s.data, s.locals, s.mem), Leave)).Running? && RawLeave(r).RawRunning?
    ensures Shape(RET, imm, block, s, r, Resume(s.control, next, Done(Core(s.data, s.locals, s.mem), Leave)).state,
                  RawLeave(r).state)
  {
    hide Read, Fetch32;
  }

  lemma EnterShape(op: Op, imm: u32, target: u32, next: u32, block: u32, s: State<u32>, r: Raw)
    requires op == CALL || op == ICALL
    requires Resume(s.control, next, Done(Core(s.data, s.locals, s.mem), Enter(target))).Running?
    requires RawEnter(target, next, block, r).RawRunning?
    ensures Shape(op, imm, block, s, r,
                  Resume(s.control, next, Done(Core(s.data, s.locals, s.mem), Enter(target))).state,
                  RawEnter(target, next, block, r).state)
  {
    hide Write, Le32;
  }

  lemma FlowShape(env: Env, op: Op, imm: u32, a: seq<u32>, next: u32, block: u32, s: State<u32>, r: Raw)
    requires op == CALL || op == ICALL || op == RET
    requires Carried(env, op, imm, a, next, s).Running? && RawExec(env, op, imm, a, next, block, r).RawRunning?
    ensures Shape(op, imm, block, s, r, Carried(env, op, imm, a, next, s).state,
                  RawExec(env, op, imm, a, next, block, r).state)
  {
    hide *;
    RunningDefined(Carried(env, op, imm, a, next, s));
    FlowUnfolds(env, op, imm, a, next, block, s, r);
    if op == RET {
      LeaveShape(imm, next, block, s, r);
    } else {
      EnterShape(op, imm, if op == CALL then imm else if |a| > 0 then a[0] else 0, next, block, s, r);
    }
  }

  lemma NativeShape(env: Env, imm: u32, a: seq<u32>, next: u32, block: u32, s: State<u32>, r: Raw)
    requires Carried(env, NCALL, imm, a, next, s).Running? && RawExec(env, NCALL, imm, a, next, block, r).RawRunning?
    ensures Shape(NCALL, imm, block, s, r, Carried(env, NCALL, imm, a, next, s).state,
                  RawExec(env, NCALL, imm, a, next, block, r).state)
  {
    NativeIgnoresLocals(env, imm, s.data, s.locals, s.mem);
    NativeExecs(env, imm, a, next, block, Core(s.data, s.locals, s.mem), r);
    hide CallNative, Exec, RawExec, Seen;
  }

  lemma PlainShape(env: Env, op: Op, imm: u32, a: seq<u32>, next: u32, block: u32, s: State<u32>, r: Raw)
    requires Plain(op)
    requires Carried(env, op, imm, a, next, s).Running? && RawExec(env, op, imm, a, next, block, r).RawRunning?
    ensures Shape(op, imm, block, s, r, Carried(env, op, imm, a, next, s).state,
                  RawExec(env, op, imm, a, next, block, r).state)
  {
    hide Act, Uses, Exec, Perform, Within, Agree;
    ExecActs(env, op, imm, a, Core(s.data, s.locals, s.mem));
    if |a| >= Uses(op) {
      PlainRaw(env, op, imm, a, next, block, r);
      HaltingStops(env, Core(s.data, s.locals, s.mem));
      var x, y := if |a| > 0 then a[0] else 0, if |a| > 1 then a[1] else 0;
      WithinItself(s.mem);
      PlainActs(op, imm, x, y, s.locals, s.mem, s.mem, {});
      PlainPerforms(env, Act(op, imm, x, y, s.locals, s.mem), Act(op, imm, x, y, NoLocals, s.mem), s.data, s.locals,
                    s.mem, s.mem, {});
    }
  }

  lemma ExecShape(env: Env, op: Op, imm: u32, a: seq<u32>, next: u32, block: u32, s: State<u32>, r: Raw)
    requires Carried(env, op, imm, a, next, s).Running? && RawExec(env, op, imm, a, next, block, r).RawRunning?
    ensures Shape(op, imm, block, s, r, Carried(env, op, imm, a, next, s).state,
                  RawExec(env, op, imm, a, next, block, r).state)
  {
    hide Carried, RawExec, Shape;
    if OnLocals(op) {
      LocalsShape(env, op, imm, a, next, block, s, r);
    } else if op == NCALL {
      NativeShape(env, imm, a, next, block, s, r);
    } else if Plain(op) {
      PlainShape(env, op, imm, a, next, block, s, r);
    } else {
      FlowShape(env, op, imm, a, next, block, s, r);
    }
  }

  lemma PoppedBlocks(mem: Memory, other: Memory, control: seq<u32>, frames: seq<Frame<u32>>)
    requires |control| == |frames| && |control| > 0
    requires ControlBlocks(other, control, frames) == ControlBlocks(mem, control, frames)
    ensures ControlBlocks(other, control[1..], frames[1..]) <= ControlBlocks(mem, control, frames)
    ensures LocalsBlocks(SavedLocals(mem, control[0]), frames[0].locals) <= ControlBlocks(mem, control, frames)
  {
    hide SavedLocals;
  }

  lemma EnteredSaved(feet: set<u32>, block: u32, r: Raw, u: Raw)
    requires Moves(feet, r, u) && u.control == [block] + r.control
    ensures SavedLocals(u.mem, block) == r.locals
  {
    hide Agree, SavedLocals;
  }

  lemma PushedBlocks(op: Op, imm: u32, block: u32, s: State<u32>, r: Raw, t: State<u32>, u: Raw, feet: set<u32>)
    requires (op == CALL || op == ICALL) && Shape(op, imm, block, s, r, t, u) && Moves(feet, r, u)
    requires ControlBlocks(u.mem, r.control, s.control) == ControlBlocks(r.mem, r.control, s.control)
    ensures Blocks(t, u) <= Blocks(s, r) + {(block, FRAME_SIZE)}
  {
    hide SavedLocals, Moves;
    EnteredSaved(feet, block, r, u);
    assert u.control[1..] == r.control;
  }

  lemma LeftBlocks(imm: u32, block: u32, s: State<u32>, r: Raw, t: State<u32>, u: Raw)
    requires Shape(RET, imm, block, s, r, t, u) && |r.control| == |s.control|
    requires ControlBlocks(u.mem, r.control, s.control) == ControlBlocks(r.mem, r.control, s.control)
    ensures Blocks(t, u) <= Blocks(s, r)
  {
    hide SavedLocals, ControlBlocks;
    PoppedBlocks(r.mem, u.mem, r.control, s.control);
  }

  lemma StayingBlocks(op: Op, imm: u32, block: u32, s: State<u32>, r: Raw, t: State<u32>, u: Raw)
    requires op != CALL && op != ICALL && op != RET && Shape(op, imm, block, s, r, t, u)
    requires ControlBlocks(u.mem, r.control, s.control) == ControlBlocks(r.mem, r.control, s.control)
    ensures Blocks(t, u) <= Blocks(s, r) + if op == LOCALS then {(block, LocalsSize(imm))} else {}
  {
    hide SavedLocals, ControlBlocks;
  }

  /** Only the block asked for can be new among the blocks in use. */
  lemma ShapeBlocks(op: Op, imm: u32, block: u32, s: State<u32>, r: Raw, t: State<u32>, u: Raw)
    requires Refines(s, r) && Shape(op, imm, block, s, r, t, u)
    requires Moves(ControlFeet(r.mem, r.control, s.control), r, u)
    ensures Blocks(t, u) <= Blocks(s, r) + if Room(op, imm) == 0 then {} else {(block, Room(op, imm))}
  {
    hide *;
    RefinesParts(s, r);
    FeetHeld(s, r);
    var feet := ControlFeet(r.mem, r.control, s.control);
    MovesAgree(feet, r, u);
    AgreedBlocks(r.mem, u.mem, r.control, s.control, feet);
    RoomOf(op, imm);
    if op == RET {
      LeftBlocks(imm, block, s, r, t, u);
    } else if op == CALL || op == ICALL {
      PushedBlocks(op, imm, block, s, r, t, u, feet);
    } else {
      StayingBlocks(op, imm, block, s, r, t, u);
    }
  }

  lemma ShapeSame(op: Op, imm: u32, block: u32, s: State<u32>, r: Raw, data: seq<u32>, t: State<u32>, u: Raw)
    requires Shape(op, imm, block, s.(data := data), r.(data := data), t, u)
    ensures Shape(op, imm, block, s, r, t, u)
  {
    hide SavedLocals;
  }

  lemma MatchesRuns(s: State<u32>, r: Raw, t: State<u32>, w: RawOutcome)
    requires Matches(s, r, Running(t), w)
    ensures w.RawRunning? && Refines(t, w.state) && Moves(ControlFeet(r.mem, r.control, s.control), r, w.state)
  {
    hide Refines, Moves;
  }

  lemma HandedRoom(s: State<u32>, block: u32, op: Op, imm: u32)
    requires Needs(s) == Room(op, imm)
    ensures Handed(s, block) == if Room(op, imm) == 0 then {} else {(block, Room(op, imm))}
  {
    hide Needs, Room;
  }

  /** The shape of a whole step. */
  lemma StepShape(env: Env, block: u32, s: State<u32>, r: Raw)
    requires Refines(s, r) && Step(env, s).Running? && RawStep(env, block, r).RawRunning?
    ensures Decode(s).Some?
    ensures Shape(Decode(s).value.op, Decode(s).value.imm, block, s, r, Step(env, s).state,
                  RawStep(env, block, r).state)
  {
    hide *;
    RefinesParts(s, r);
    RunningDefined(Step(env, s));
    DecodesAlike(env, block, s, r);
    var d := Decode(s).value;
    var rest := s.data[d.popped..];
    ExecShape(env, d.op, d.imm, s.data[..d.popped], d.next, block, s.(data := rest), r.(data := rest));
    ShapeSame(d.op, d.imm, block, s, r, rest, Step(env, s).state, RawStep(env, block, r).state);
  }

  lemma ServedParts(env: Env, s: State<u32>, r: Raw, v: Service)
    requires Refines(s, r) && Served(env, s, r, v)
    ensures Refines(s, r.(mem := v.mem)) && Blocks(s, r.(mem := v.mem)) == Blocks(s, r)
    ensures Apart(s, r.(mem := v.mem), Step(env, s))
    ensures Needs(s) > 0 ==> Fresh(s, r.(mem := v.mem), v.block, Needs(s))
  {
    hide Refines, Blocks, Undisturbed, Step, Needs, Fresh, Feet, Moves, Apart;
    UndisturbedRefines(s, r, v.mem);
    UndisturbedBlocks(s, r, v.mem);
    ApartSame(s, r, s, r.(mem := v.mem), Step(env, s));
  }

  lemma {:induction false} PointersInFeet(mem: Memory, control: seq<u32>, frames: seq<Frame<u32>>, p: u32)
    requires |control| == |frames| && p in Pointers(ControlBlocks(mem, control, frames))
    ensures p in ControlFeet(mem, control, frames)
    decreases |control|
  {
    hide Block, SavedLocals;
    FirstOfBlock(p, FRAME_SIZE);
    if p !in Pointers(FrameBlocks(mem, control[0], frames[0])) {
      PointersInFeet(mem, control[1..], frames[1..], p);
    } else if p != control[0] {
      FirstOfBlock(p, LocalsSize(|frames[0].locals.cells|));
    }
  }

  /** A served step from the memory the allocator left. */
  lemma ServedShape(env: Env, s: State<u32>, r: Raw, v: Service)
    requires Refines(s, r) && Step(env, s).Running? && Served(env, s, r, v)
    ensures RawStep(env, v.block, r.(mem := v.mem)).RawRunning? && Decode(s).Some?
    ensures
      var x, t, d := r.(mem := v.mem), Step(env, s).state, Decode(s).value;
      var u := RawStep(env, v.block, x).state;
      && Refines(s, x) && Blocks(s, x) == Blocks(s, r) && Moves(ControlFeet(x.mem, x.control, s.control), x, u)
      && Shape(d.op, d.imm, v.block, s, x, t, u) && Refines(t, u)
  {
    hide *;
    var x := r.(mem := v.mem);
    ServedParts(env, s, r, v);
    RunningDefined(Step(env, s));
    BlockStepRefines(env, v.block, s, x);
    MatchesRuns(s, x, Step(env, s).state, RawStep(env, v.block, x));
    StepShape(env, v.block, s, x);
  }

  /** A step leaves in use only what was in use and the block it asked for. */
  lemma StepBlocks(env: Env, s: State<u32>, r: Raw, v: Service)
    requires Refines(s, r) && Step(env, s).Running? && Served(env, s, r, v)
    ensures RawStep(env, v.block, r.(mem := v.mem)).RawRunning?
    ensures
      Blocks(Step(env, s).state, RawStep(env, v.block, r.(mem := v.mem)).state) <= Blocks(s, r) + Handed(s, v.block)
  {
    hide *;
    ServedShape(env, s, r, v);
    NeedsRoom(s);
    var x, d := r.(mem := v.mem), Decode(s).value;
    ShapeBlocks(d.op, d.imm, v.block, s, x, Step(env, s).state, RawStep(env, v.block, x).state);
    HandedRoom(s, v.block, d.op, d.imm);
  }

  lemma LocalsPointer(block: u32, locals: Locals, p: u32)
    requires p in Pointers(LocalsBlocks(block, locals))
    ensures p in LocalsFeet(block, locals)
  {
    FirstOfBlock(p, LocalsSize(|locals.cells|));
  }

  /** Behind a return neither the frame nor the callee's locals are in use. */
  lemma LeaveApart(imm: u32, block: u32, s: State<u32>, r: Raw, t: State<u32>, u: Raw)
    requires Refines(s, r) && Shape(RET, imm, block, s, r, t, u)
    requires Moves(ControlFeet(r.mem, r.control, s.control), r, u)
    ensures |r.control| > 0 && r.control[0] !in Pointers(Blocks(t, u))
    ensures r.locals != 0 ==> r.locals !in Pointers(Blocks(t, u))
  {
    RefinesParts(s, r);
    hide Agree, SavedLocals, Block, FrameHolds, CellHolds, Read, Within;
    var tail, frames := r.control[1..], s.control[1..];
    AgreedBlocks(r.mem, u.mem, tail, frames, ControlFeet(r.mem, r.control, s.control));
    FirstOfBlock(r.control[0], FRAME_SIZE);
    HeldApart(r.mem, r.control[0], s.control[0]);
    forall p | p in Pointers(Blocks(t, u)) ensures p != r.control[0] && (r.locals != 0 ==> p != r.locals) {
      if p in Pointers(LocalsBlocks(u.locals, t.locals)) {
        LocalsPointer(u.locals, t.locals, p);
      } else {
        PointersInFeet(r.mem, tail, frames, p);
      }
      if r.locals != 0 {
        FirstOfBlock(r.locals, LocalsSize(|s.locals.cells|));
      }
    }
  }

  lemma HeldApart(mem: Memory, block: u32, frame: Frame<u32>)
    requires FrameHolds(mem, block, frame)
    ensures Block(block, FRAME_SIZE) !! LocalsFeet(SavedLocals(mem, block), frame.locals)
  {
  }

  /** What a return gives back to the heap, locals and frame, is no longer in use. */
  lemma ReturnGivesBack(env: Env, s: State<u32>, r: Raw, v: Service)
    requires Refines(s, r) && Step(env, s).Running? && Served(env, s, r, v) && Upcoming(s) == Some(RET)
    ensures RawStep(env, v.block, r.(mem := v.mem)).RawRunning? && |r.control| > 0
    ensures
      var blocks := Blocks(Step(env, s).state, RawStep(env, v.block, r.(mem := v.mem)).state);
      r.control[0] !in Pointers(blocks) && (r.locals != 0 ==> r.locals !in Pointers(blocks))
  {
    hide *;
    ServedShape(env, s, r, v);
    StepCarries(env, s);
    var x := r.(mem := v.mem);
    LeaveApart(Decode(s).value.imm, v.block, s, x, Step(env, s).state, RawStep(env, v.block, x).state);
  }

  // ---------- Calls between two steps ----------

  ghost predicate Spares(h: Arrangement, c: Call, h': Arrangement, kept: set<u32>) {
    Does(h, c, h') && (c.Freed? ==> forall p :: p in kept ==> h.slots[c.index].start + HEADER != p)
  }

  /** Any calls of the allocator that free none of the pointers `kept`. */
  ghost predicate Performs(states: seq<Arrangement>, calls: seq<Call>, kept: set<u32>) {
    |states| == |calls| + 1 && forall i | 0 <= i < |calls| :: Spares(states[i], calls[i], states[i + 1], kept)
  }

  ghost predicate FreesAt(h: Arrangement, c: Call, ptr: u32, h': Arrangement) {
    c.Freed? && Does(h, c, h') && h.slots[c.index].start + HEADER == ptr
  }

  /** Frees the pointers in order. */
  ghost predicate Frees(states: seq<Arrangement>, calls: seq<Call>, ptrs: seq<u32>) {
    && |states| == |calls| + 1 && |calls| == |ptrs|
    && forall i | 0 <= i < |calls| :: FreesAt(states[i], calls[i], ptrs[i], states[i + 1])
  }

  /** What a return frees: the locals, if there are any, and the frame. */
  function Returned(r: Raw): seq<u32>
    requires |r.control| > 0
  {
    if r.locals == 0 then [r.control[0]] else [r.locals, r.control[0]]
  }

  /** The call adds a block that holds the byte behind its header. */
  ghost predicate AddsByte(h: Arrangement, h': Arrangement, a: u32) {
    exists b :: b in Arena.Live(h'.slots) && b !in Arena.Live(h.slots) && b.0 + HEADER <= a < b.1
  }

  /** Bytes a thunk takes for the program lie outside the arena or in blocks its calls added. */
  ghost predicate TakesGiven(turn: Turn, visible: Memory, visible': Memory)
    requires |turn.states| == |turn.calls| + 1
  {
    forall a :: a in visible' && a !in visible ==>
      || a < Before(turn).first || a >= Before(turn).brk
      || exists i :: 0 <= i < |turn.calls| && AddsByte(turn.states[i], turn.states[i + 1], a)
  }

  /** From a step to the next: a return frees locals and frame, and a thunk may call the allocator for
      the program, but not to free a block of the VM. */
  ghost predicate Between(s: State<u32>, r: Raw, t: State<u32>, turn: Turn, next: Turn) {
    && |next.states| == |next.calls| + 1 && next.states[0] == turn.after
    && if Upcoming(s) == Some(RET) then |r.control| > 0 && Frees(next.states, next.calls, Returned(r))
       else if Upcoming(s) == Some(NCALL) then
         Performs(next.states, next.calls, Pointers(Blocks(s, r))) && TakesGiven(next, s.mem, t.mem)
       else next.calls == []
  }

  /** A live slot whose pointer is spared stays. */
  lemma SparedStays(h: Arrangement, c: Call, h': Arrangement, kept: set<u32>, b: (int, int))
    requires Sound(h) && Spares(h, c, h', kept) && b in Arena.Live(h.slots)
    requires exists p :: p in kept && p == b.0 + HEADER
    ensures Sound(h') && b in Arena.Live(h'.slots)
  {
    hide Sound, Does, Arena.Live, NewIndex;
    CallKeepsSound(h, c, h');
    CallChangesOneBlock(h, c, h');
  }

  lemma {:induction false} PerformedStays(states: seq<Arrangement>, calls: seq<Call>, kept: set<u32>,
                                          b: (int, int), i: nat)
    requires |states| > 0 && Sound(states[0]) && Performs(states, calls, kept) && i < |states|
    requires b in Arena.Live(states[0].slots) && exists p :: p in kept && p == b.0 + HEADER
    ensures Sound(states[i]) && b in Arena.Live(states[i].slots)
  {
    hide Sound, Arena.Live, Spares;
    if i > 0 {
      PerformedStays(states, calls, kept, b, i - 1);
      assert Spares(states[i - 1], calls[i - 1], states[i - 1 + 1], kept);
      SparedStays(states[i - 1], calls[i - 1], states[i], kept, b);
    }
  }

  lemma SparedOwned(h: Arrangement, c: Call, h': Arrangement, blocks: set<(u32, nat)>)
    requires OwnsAll(h, blocks) && Spares(h, c, h', Pointers(blocks))
    ensures OwnsAll(h', blocks)
  {
    hide Sound, Spares, Arena.Live;
    SparedSound(h, c, h', Pointers(blocks));
    forall k | k in blocks ensures Owned(Arena.Live(h'.slots), k.0, k.1) {
      assert Owned(Arena.Live(h.slots), k.0, k.1) && k.0 in Pointers(blocks);
      var b :| b in Arena.Live(h.slots) && b.0 + HEADER == k.0 && k.0 + k.1 <= b.1;
      SparedStays(h, c, h', Pointers(blocks), b);
      OwnedMember(Arena.Live(h'.slots), b, k.0, k.1);
    }
  }

  lemma SparedSound(h: Arrangement, c: Call, h': Arrangement, kept: set<u32>)
    requires Sound(h) && Spares(h, c, h', kept)
    ensures Sound(h')
  {
    hide Sound, Does;
    CallKeepsSound(h, c, h');
  }

  /** The heap owns the blocks all the way. */
  lemma {:induction false} PerformedOwned(states: seq<Arrangement>, calls: seq<Call>, blocks: set<(u32, nat)>, i: nat)
    requires |states| > 0 && OwnsAll(states[0], blocks) && Performs(states, calls, Pointers(blocks)) && i < |states|
    ensures OwnsAll(states[i], blocks)
  {
    hide OwnsAll, Spares, Pointers;
    if i > 0 {
      PerformedOwned(states, calls, blocks, i - 1);
      assert Spares(states[i - 1], calls[i - 1], states[i - 1 + 1], Pointers(blocks));
      SparedOwned(states[i - 1], calls[i - 1], states[i], blocks);
    }
  }

  /** Freeing other pointers spares the kept ones. */
  lemma FreesPerforms(states: seq<Arrangement>, calls: seq<Call>, ptrs: seq<u32>, kept: set<u32>)
    requires Frees(states, calls, ptrs) && forall p :: p in ptrs ==> p !in kept
    ensures Performs(states, calls, kept)
  {
    hide Does;
    forall i | 0 <= i < |calls| ensures Spares(states[i], calls[i], states[i + 1], kept) {
      assert FreesAt(states[i], calls[i], ptrs[i], states[i + 1]) && ptrs[i] in ptrs;
    }
  }

  // ---------- What a thunk takes ----------

  /** A byte of a block in use lies in no block that is added while that block is spared. */
  lemma AddedApart(states: seq<Arrangement>, calls: seq<Call>, s: State<u32>, r: Raw, a: u32, i: nat)
    requires |r.control| == |s.control| && a in Feet(s, r)
    requires |states| > 0 && OwnsAll(states[0], Blocks(s, r)) && Performs(states, calls, Pointers(Blocks(s, r)))
    requires i < |calls|
    ensures !AddsByte(states[i], states[i + 1], a)
  {
    hide Sound, Arena.Live, Blocks, Feet, Performs, AllOwned;
    FeetInSlots(states[0], s, r, a);
    var b :| b in Arena.Live(states[0].slots) && InSlotOf(b, Blocks(s, r), a);
    InUsePointer(b, Blocks(s, r), a);
    PerformedLength(states, calls, Pointers(Blocks(s, r)));
    PerformedStays(states, calls, Pointers(Blocks(s, r)), b, i);
    PerformedStays(states, calls, Pointers(Blocks(s, r)), b, i + 1);
    SoundTiled(states[i + 1]);
    forall c | c in Arena.Live(states[i + 1].slots) && c !in Arena.Live(states[i].slots)
      ensures !(c.0 + HEADER <= a < c.1)
    {
      Arena.LiveDisjoint(states[i + 1].slots, states[i + 1].first, states[i + 1].brk, b, c);
    }
  }

  lemma InUsePointer(b: (int, int), blocks: set<(u32, nat)>, a: int)
    requires InSlotOf(b, blocks, a)
    ensures exists p :: p in Pointers(blocks) && p == b.0 + HEADER
  {
    var k :| k in blocks && k.0 == b.0 + HEADER;
    assert k.0 in Pointers(blocks);
  }

  lemma PerformedLength(states: seq<Arrangement>, calls: seq<Call>, kept: set<u32>)
    requires Performs(states, calls, kept)
    ensures |states| == |calls| + 1
  {
    hide Spares;
  }

  /** A thunk that takes only what its own calls were given takes nothing of the VM's. */
  lemma ThunkApart(turn: Turn, s: State<u32>, r: Raw, t: State<u32>)
    requires |r.control| == |s.control| && Feet(s, r) !! s.mem.Keys
    requires |turn.states| == |turn.calls| + 1 && OwnsAll(turn.states[0], Blocks(s, r))
    requires Performs(turn.states, turn.calls, Pointers(Blocks(s, r))) && TakesGiven(turn, s.mem, t.mem)
    ensures Apart(s, r, Running(t))
  {
    hide OwnsAll, Blocks, Feet, Performs, AddsByte, Arena.Live;
    PerformedOwned(turn.states, turn.calls, Blocks(s, r), |turn.calls|);
    forall a | a in Feet(s, r) ensures a !in t.mem {
      FeetInArena(Before(turn), s, r, a);
      forall i | 0 <= i < |turn.calls| ensures !AddsByte(turn.states[i], turn.states[i + 1], a) {
        AddedApart(turn.states, turn.calls, s, r, a, i);
      }
    }
  }

  lemma FeetInArena(h: Arrangement, s: State<u32>, r: Raw, a: u32)
    requires |r.control| == |s.control| && OwnsAll(h, Blocks(s, r)) && a in Feet(s, r)
    ensures h.first <= a < h.brk
  {
    hide Arena.Live, Blocks, Feet, Sound;
    FeetInSlots(h, s, r, a);
    var b :| b in Arena.Live(h.slots) && InSlotOf(b, Blocks(s, r), a);
    LiveInArena(h, b);
  }

  /** No step takes a byte of a block in use for the program. */
  lemma StepApart(env: Env, turn: Turn, next: Turn, s: State<u32>, r: Raw)
    requires Refines(s, r) && OwnsAll(turn.after, Blocks(s, r))
    requires Step(env, s).Running? ==> Between(s, r, Step(env, s).state, turn, next)
    ensures Apart(s, r, Step(env, s))
  {
    hide Refines, OwnsAll, Blocks, Feet, Step, Performs, TakesGiven, Frees, Apart, Upcoming, Pointers;
    RefinesParts(s, r);
    if Step(env, s).Running? && Upcoming(s) == Some(NCALL) {
      ThunkApart(next, s, r, Step(env, s).state);
    } else if Step(env, s).Running? {
      OnlyThunksTake(env, s, r);
    } else {
      HaltedApart(s, r, Step(env, s));
    }
  }

  lemma HaltedApart(s: State<u32>, r: Raw, o: Outcome<u32>)
    requires o.Halted?
    ensures Apart(s, r, o)
  {
  }

  // ---------- What a return frees ----------

  lemma LocalsNotFrame(s: State<u32>, r: Raw)
    requires Refines(s, r) && r.locals != 0 && |r.control| > 0
    ensures s.locals.Locals? && r.locals != r.control[0]
    ensures (r.locals, LocalsSize(|s.locals.cells|)) in Blocks(s, r)
  {
    RefinesParts(s, r);
    hide Agree, SavedLocals, Block, FrameHolds, CellHolds, Read, Within;
    FirstOfBlock(r.control[0], FRAME_SIZE);
    FirstOfBlock(r.locals, LocalsSize(|s.locals.cells|));
  }

  lemma TopFrameBlock(s: State<u32>, r: Raw)
    requires Refines(s, r) && |r.control| > 0
    ensures (r.control[0], FRAME_SIZE) in Blocks(s, r)
  {
    RefinesParts(s, r);
    hide Refines, SavedLocals;
  }

  /** Freeing the pointer of a live block is a call the allocator answers. */
  lemma OwnedFrees(h: Arrangement, ptr: u32, n: nat)
    requires Owned(Arena.Live(h.slots), ptr, n)
    ensures exists c, h' :: FreesAt(h, c, ptr, h')
  {
    var b :| b in Arena.Live(h.slots) && b.0 + HEADER == ptr && ptr + n <= b.1;
    var i :| 0 <= i < |h.slots| && h.slots[i].LiveSlot? && b == (h.slots[i].start, h.slots[i].end);
    assert FreesAt(h, Freed(i), ptr, h.(slots := Arena.Release(h.slots, i)));
  }

  lemma OwnedFreesOne(h: Arrangement, blocks: set<(u32, nat)>, b: (u32, nat))
    requires OwnsAll(h, blocks) && b in blocks
    ensures exists c, h' :: FreesAt(h, c, b.0, h')
  {
    hide Arena.Live, Sound;
    OwnedFrees(h, b.0, b.1);
  }

  lemma OwnsFewer(h: Arrangement, blocks: set<(u32, nat)>, fewer: set<(u32, nat)>)
    requires OwnsAll(h, blocks) && fewer <= blocks
    ensures OwnsAll(h, fewer)
  {
    hide Owned, Arena.Live, Sound;
  }

  lemma FreedSpares(h: Arrangement, c: Call, ptr: u32, h': Arrangement, other: u32)
    requires FreesAt(h, c, ptr, h') && ptr != other
    ensures Spares(h, c, h', Pointers({(other, FRAME_SIZE)}))
  {
    hide Does;
  }

  /** The pointers a return frees always belong to live blocks, one after the other. */
  lemma ReturnFreesLive(h: Arrangement, s: State<u32>, r: Raw)
    requires Refines(s, r) && OwnsAll(h, Blocks(s, r)) && |r.control| > 0
    ensures exists states, calls :: Frees(states, calls, Returned(r)) && states[0] == h
  {
    hide Refines, OwnsAll, Blocks, FreesAt, Spares, Pointers;
    var frame := r.control[0];
    TopFrameBlock(s, r);
    if r.locals == 0 {
      OwnedFreesOne(h, Blocks(s, r), (frame, FRAME_SIZE));
      var c, h' :| FreesAt(h, c, frame, h');
      assert Frees([h, h'], [c], Returned(r));
    } else {
      LocalsNotFrame(s, r);
      OwnedFreesOne(h, Blocks(s, r), (r.locals, LocalsSize(|s.locals.cells|)));
      var c, m :| FreesAt(h, c, r.locals, m);
      FreedSpares(h, c, r.locals, m, frame);
      OwnsFewer(h, Blocks(s, r), {(frame, FRAME_SIZE)});
      SparedOwned(h, c, m, {(frame, FRAME_SIZE)});
      OwnedFreesOne(m, {(frame, FRAME_SIZE)}, (frame, FRAME_SIZE));
      var d, h' :| FreesAt(m, d, frame, h');
      assert Frees([h, m, h'], [c, d], Returned(r));
    }
  }

  // ---------- Whole runs over the heap ----------

  /** The heap is sound and owns what the VM has in use, since the last step. */
  ghost predicate Backed(states: seq<Arrangement>, s: State<u32>, r: Raw) {
    && Refines(s, r) && |states| > 0
    && forall i | 0 <= i < |states| :: OwnsAll(states[i], Blocks(s, r))
  }

  /** The heap serves a step of both machines and goes on to the next one. */
  ghost predicate TurnAt(env: Env, turn: Turn, next: Turn, v: Service, o: Outcome<u32>, w: RawOutcome) {
    o.Running? && w.RawRunning? ==>
      && |turn.states| > 0 && Serves(turn, o.state, w.state, v)
      && (Step(env, o.state).Running? ==> Between(o.state, w.state, Step(env, o.state).state, turn, next))
  }

  ghost predicate AllTurns(envs: nat -> Env, turns: nat -> Turn, serve: nat -> Service, s: State<u32>, r: Raw, k: nat) {
    forall j | 0 <= j < k ::
      TurnAt(envs(j), turns(j), turns(j + 1), serve(j), Run(envs, s, j), RawRun(envs, serve, r, j))
  }

  lemma TurnParts(env: Env, turn: Turn, next: Turn, v: Service, s: State<u32>, r: Raw)
    requires TurnAt(env, turn, next, v, Running(s), RawRunning(r))
    ensures |turn.states| > 0 && Serves(turn, s, r, v)
    ensures Step(env, s).Running? ==> Between(s, r, Step(env, s).state, turn, next)
  {
    hide Step, Serves, Between;
  }

  lemma BackedParts(states: seq<Arrangement>, s: State<u32>, r: Raw)
    requires Backed(states, s, r)
    ensures Refines(s, r) && |states| > 0 && forall i | 0 <= i < |states| :: OwnsAll(states[i], Blocks(s, r))
  {
    hide Refines, OwnsAll;
  }

  lemma ServesParts(turn: Turn, s: State<u32>, r: Raw, v: Service)
    requires |turn.states| > 0 && Serves(turn, s, r, v)
    ensures Allots(s, Before(turn), turn.after, v.block)
    ensures WritesHeaders(turn.states + [turn.after], s.mem.Keys, r.mem, v.mem)
    ensures forall a: u32 :: turn.after.first <= a < turn.after.brk ==> a in v.mem
    ensures forall a :: a in s.mem ==> GivenAway(Arena.Live(Before(turn).slots), turn.after.first, turn.after.brk, a)
  {
    hide Allots, WritesHeaders, GivenAway;
  }

  lemma AllOwning(turn: Turn, blocks: set<(u32, nat)>)
    requires (forall i | 0 <= i < |turn.states| :: OwnsAll(turn.states[i], blocks)) && OwnsAll(turn.after, blocks)
    ensures
      var passed := turn.states + [turn.after];
      forall i | 0 <= i < |passed| :: OwnsAll(passed[i], blocks)
  {
    hide OwnsAll;
  }

  lemma ServedTogether(env: Env, s: State<u32>, r: Raw, v: Service)
    requires Undisturbed(s, r, v.mem) && Apart(s, r, Step(env, s))
    requires Needs(s) > 0 ==> Fresh(s, r.(mem := v.mem), v.block, Needs(s))
    ensures Served(env, s, r, v)
  {
    hide Undisturbed, Apart, Needs, Fresh, Step;
  }

  /** Over a sound heap that owns the VM's blocks a step is served well, and the heap owns the new
      block too. */
  lemma HeapServes(env: Env, turn: Turn, next: Turn, v: Service, s: State<u32>, r: Raw)
    requires Backed(turn.states, s, r) && TurnAt(env, turn, next, v, Running(s), RawRunning(r))
    ensures Served(env, s, r, v) && OwnsAll(turn.after, Blocks(s, r) + Handed(s, v.block))
  {
    hide *;
    BackedParts(turn.states, s, r);
    RefinesParts(s, r);
    TurnParts(env, turn, next, v, s, r);
    ServesParts(turn, s, r, v);
    BeforeLast(turn);
    AllottedOwned(Before(turn), turn.after, s, v.block, Blocks(s, r));
    OwnsFewer(turn.after, Blocks(s, r) + Handed(s, v.block), Blocks(s, r));
    AllOwning(turn, Blocks(s, r));
    ServedUndisturbed(turn.states + [turn.after], s, r, v.mem);
    UndisturbedBlocks(s, r, v.mem);
    StepApart(env, turn, next, s, r);
    if Needs(s) > 0 {
      AllottedFresh(Before(turn), turn.after, s, r.(mem := v.mem), v.block);
    }
    ServedTogether(env, s, r, v);
  }

  lemma BeforeLast(turn: Turn)
    requires |turn.states| > 0
    ensures Before(turn) == turn.states[|turn.states| - 1]
  {
  }

  lemma BetweenParts(s: State<u32>, r: Raw, t: State<u32>, turn: Turn, next: Turn)
    requires Between(s, r, t, turn, next)
    ensures |next.states| == |next.calls| + 1 && next.states[0] == turn.after
    ensures Upcoming(s) == Some(RET) ==> |r.control| > 0 && Frees(next.states, next.calls, Returned(r))
    ensures Upcoming(s) == Some(NCALL) ==> Performs(next.states, next.calls, Pointers(Blocks(s, r)))
    ensures Upcoming(s) != Some(RET) && Upcoming(s) != Some(NCALL) ==> |next.states| == 1
  {
    hide Performs, Frees, Upcoming, TakesGiven;
  }

  lemma NativeNeedsNothing(s: State<u32>)
    requires Upcoming(s) == Some(NCALL)
    ensures Needs(s) == 0
  {
    hide Read, SlotOp, DecodeCount, Immediate;
  }

  lemma NothingHanded(s: State<u32>, block: u32, blocks: set<(u32, nat)>)
    requires Needs(s) == 0
    ensures blocks + Handed(s, block) == blocks
  {
    hide Needs;
  }

  lemma ReturnedPointers(r: Raw, kept: set<u32>)
    requires |r.control| > 0 && r.control[0] !in kept && (r.locals != 0 ==> r.locals !in kept)
    ensures forall p :: p in Returned(r) ==> p !in kept
  {
  }

  /** From one step to the next the heap stays sound and keeps what is in use then. */
  lemma BetweenOwned(env: Env, s: State<u32>, r: Raw, v: Service, turn: Turn, next: Turn)
    requires Refines(s, r) && Served(env, s, r, v) && OwnsAll(turn.after, Blocks(s, r) + Handed(s, v.block))
    requires Step(env, s).Running? && RawStep(env, v.block, r.(mem := v.mem)).RawRunning?
    requires Between(s, r, Step(env, s).state, turn, next)
    ensures Backed(next.states, Step(env, s).state, RawStep(env, v.block, r.(mem := v.mem)).state)
  {
    hide *;
    ServedShape(env, s, r, v);
    StepBlocks(env, s, r, v);
    var t, u := Step(env, s).state, RawStep(env, v.block, r.(mem := v.mem)).state;
    OwnsFewer(turn.after, Blocks(s, r) + Handed(s, v.block), Blocks(t, u));
    BetweenParts(s, r, t, turn, next);
    if Upcoming(s) == Some(RET) {
      ReturnGivesBack(env, s, r, v);
      ReturnedPointers(r, Pointers(Blocks(t, u)));
      FreesPerforms(next.states, next.calls, Returned(r), Pointers(Blocks(t, u)));
    } else if Upcoming(s) == Some(NCALL) {
      NativeNeedsNothing(s);
      NothingHanded(s, v.block, Blocks(s, r));
    }
    forall i | 0 <= i < |next.states| ensures OwnsAll(next.states[i], Blocks(t, u)) {
      if Upcoming(s) == Some(RET) {
        PerformedOwned(next.states, next.calls, Blocks(t, u), i);
      } else if Upcoming(s) == Some(NCALL) {
        PerformedOwned(next.states, next.calls, Blocks(s, r), i);
        OwnsFewer(next.states[i], Blocks(s, r), Blocks(t, u));
      }
    }
    BackedTogether(next.states, t, u);
  }

  lemma BackedTogether(states: seq<Arrangement>, s: State<u32>, r: Raw)
    requires Refines(s, r) && |states| > 0 && forall i | 0 <= i < |states| :: OwnsAll(states[i], Blocks(s, r))
    ensures Backed(states, s, r)
  {
    hide Refines, OwnsAll;
  }

  /** One step over the heap. */
  lemma HeapStepRefines(env: Env, turn: Turn, next: Turn, v: Service, s: State<u32>, r: Raw)
    requires Backed(turn.states, s, r) && TurnAt(env, turn, next, v, Running(s), RawRunning(r))
    requires Defined(Step(env, s))
    ensures Served(env, s, r, v) && SameOutcome(Step(env, s), RawStep(env, v.block, r.(mem := v.mem)))
    ensures Step(env, s).Running? ==>
      Backed(next.states, Step(env, s).state, RawStep(env, v.block, r.(mem := v.mem)).state)
  {
    hide *;
    TurnParts(env, turn, next, v, s, r);
    BackedParts(turn.states, s, r);
    HeapServes(env, turn, next, v, s, r);
    StepRefines(env, s, r, v);
    MatchesSame(s, r, Step(env, s), RawStep(env, v.block, r.(mem := v.mem)));
    if Step(env, s).Running? {
      StepBlocks(env, s, r, v);
      BetweenOwned(env, s, r, v, turn, next);
    }
  }

  lemma LastTurn(envs: nat -> Env, turns: nat -> Turn, serve: nat -> Service, s: State<u32>, r: Raw, k: nat)
    requires k > 0 && AllTurns(envs, turns, serve, s, r, k)
    ensures AllTurns(envs, turns, serve, s, r, k - 1)
    ensures
      TurnAt(envs(k - 1), turns(k - 1), turns(k), serve(k - 1), Run(envs, s, k - 1), RawRun(envs, serve, r, k - 1))
  {
    hide TurnAt, Run, RawRun;
    assert turns(k - 1 + 1) == turns(k);
  }

  lemma ServedLast(envs: nat -> Env, serve: nat -> Service, s: State<u32>, r: Raw, k: nat)
    requires k > 0 && AllServed(envs, serve, s, r, k - 1)
    requires ServedAt(envs(k - 1), serve(k - 1), Run(envs, s, k - 1), RawRun(envs, serve, r, k - 1))
    ensures AllServed(envs, serve, s, r, k)
  {
    hide ServedAt, Run, RawRun;
  }

  /** Over the allocator's own heap, shared with the program, a run on blocks is the run on values: every
      block the allocator hands out is fresh, and what the VM has in use stays live. */
  lemma {:induction false} HeapRunRefines(envs: nat -> Env, turns: nat -> Turn, serve: nat -> Service, s: State<u32>,
                                          r: Raw, k: nat)
    requires Backed(turns(0).states, s, r) && AllTurns(envs, turns, serve, s, r, k) && Defined(Run(envs, s, k))
    ensures SameOutcome(Run(envs, s, k), RawRun(envs, serve, r, k)) && AllServed(envs, serve, s, r, k)
    ensures Run(envs, s, k).Running? ==> Backed(turns(k).states, Run(envs, s, k).state, RawRun(envs, serve, r, k).state)
  {
    hide Step, RawStep, Backed, Refines, TurnAt, Served, AllTurns, AllServed;
    if k > 0 {
      LastTurn(envs, turns, serve, s, r, k);
      HeapRunRefines(envs, turns, serve, s, r, k - 1);
      var o, w := Run(envs, s, k - 1), RawRun(envs, serve, r, k - 1);
      if o.Running? {
        HeapStepRefines(envs(k - 1), turns(k - 1), turns(k), serve(k - 1), o.state, w.state);
      }
      ServedLast(envs, serve, s, r, k);
    } else {
      BackedParts(turns(0).states, s, r);
      NoneServed(envs, serve, s, r);
    }
  }

  lemma NoneServed(envs: nat -> Env, serve: nat -> Service, s: State<u32>, r: Raw)
    ensures AllServed(envs, serve, s, r, 0)
  {
  }

  ghost predicate AllSound(states: seq<Arrangement>) {
    |states| > 0 && forall i | 0 <= i < |states| :: Sound(states[i])
  }

  /** A fresh context needs nothing of the heap. */
  lemma StartBacked(states: seq<Arrangement>, pos: u32, data: seq<u32>, mem: Memory, own: set<u32>)
    requires AllSound(states) && own <= mem.Keys
    ensures Backed(states, State(pos, data, [], NoLocals, Seen(own, mem)), Raw(pos, data, [], 0, mem, own))
  {
    hide Sound;
    StartRefines(pos, data, mem, own);
  }

  // ---------- Words as bytes ----------

  /** Memory differs only where the words of a header do: the end in its first four bytes, the link
      in its last four. */
  ghost predicate WordsWritten(nextSlot: map<int, int>, nextFree: map<int, int>, nextSlot': map<int, int>,
                               nextFree': map<int, int>, mem: Memory, mem': Memory)
  {
    forall a :: a in mem ==>
      a in mem' && (mem'[a] == mem[a] || exists x ::
        (Differ(nextSlot, nextSlot', x) && x <= a < x + 4) || (Differ(nextFree, nextFree', x) && x + 4 <= a < x + 8))
  }

  predicate Differ(words: map<int, int>, words': map<int, int>, x: int) {
    (x in words) != (x in words') || (x in words && words[x] != words'[x])
  }

  /** A call that writes the words of `h`'s slots only, as bytes writes headers of `h` only. */
  lemma WordsInHeaders(h: Arrangement, nextSlot: map<int, int>, nextFree: map<int, int>, nextSlot': map<int, int>,
                       nextFree': map<int, int>, mem: Memory, mem': Memory)
    requires Heap.HeadersOnly(nextSlot, nextFree, nextSlot', nextFree', Heap.Starts(h.slots))
    requires WordsWritten(nextSlot, nextFree, nextSlot', nextFree', mem, mem')
    ensures WritesHeaders([h], {}, mem, mem')
  {
    hide Heap.Starts;
    forall a | a in mem && mem'[a] != mem[a] ensures InHeader(h, a) {
      var x :| (Differ(nextSlot, nextSlot', x) && x <= a < x + 4)
        || (Differ(nextFree, nextFree', x) && x + 4 <= a < x + 8);
      assert x in Heap.Starts(h.slots);
    }
    assert [h][0] == h;
  }

  /** One call after the other. */
  lemma WritesThen(passed: seq<Arrangement>, more: seq<Arrangement>, own: set<u32>, mem: Memory,
                   mem': Memory, last: Memory)
    requires WritesHeaders(passed, own, mem, mem') && WritesHeaders(more, own, mem', last)
    ensures WritesHeaders(passed + more, own, mem, last)
  {
    hide InHeader;
    forall a | a in mem && last[a] != mem[a]
      ensures a !in own && exists i :: 0 <= i < |passed + more| && InHeader((passed + more)[i], a)
    {
      if mem'[a] != mem[a] {
        var i :| 0 <= i < |passed| && InHeader(passed[i], a);
        assert (passed + more)[i] == passed[i];
      } else {
        var i :| 0 <= i < |more| && InHeader(more[i], a);
        assert (passed + more)[|passed| + i] == more[i];
      }
    }
  }

  lemma HeaderInArena(h: Arrangement, a: int)
    requires Sound(h) && InHeader(h, a)
    ensures h.first <= a < h.brk
  {
    hide Sound, Arena.Tiled;
    SoundTiled(h);
    var x :| x in Heap.Starts(h.slots) && x <= a < x + HEADER;
    var k :| 0 <= k < |h.slots| && !h.slots[k].LostSlot? && x == h.slots[k].start;
    Arena.Bounds(h.slots, h.first, h.brk, k);
    HeaderFits(h.slots, h.first, h.brk, k);
  }

  /** Header writes leave alone what was given away all the while: the program's bytes, unless a thunk
      got or gave back some of them meanwhile. */
  lemma GivenBytesKept(passed: seq<Arrangement>, own: set<u32>, mem: Memory, mem': Memory)
    requires WritesHeaders(passed, {}, mem, mem') && forall i | 0 <= i < |passed| :: Sound(passed[i])
    requires forall a, i :: a in own && 0 <= i < |passed| ==>
      GivenAway(Arena.Live(passed[i].slots), passed[i].first, passed[i].brk, a)
    ensures WritesHeaders(passed, own, mem, mem')
  {
    hide Arena.Live, Sound, InHeader;
    forall a, i | a in own && 0 <= i < |passed| ensures !InHeader(passed[i], a) {
      var h := passed[i];
      if InHeader(h, a) {
        HeaderInArena(h, a);
        var b :| b in Arena.Live(h.slots) && b.0 + HEADER <= a < b.1;
        NotInHeader(h, b, a);
      }
    }
  }
}
