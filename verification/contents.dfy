/** What stands in the body of an image: data, texts, reservations and padding, byte for byte. */
module Contents {
  import opened Numbers
  import opened Words
  import opened Opcodes
  import opened Expressions
  import opened Layout
  import opened Agreement
  import opened Machine
  import S = Simulation
  import F = Effects

  /** Instructions that leave bytes in the image, that is all but directives. */
  predicate Occupies(insn: Insn) {
    insn.Mach? || insn.Def? || insn.Text?
  }

  /** The boundary is the end of the last machine instruction, definition or text. */
  lemma BoundaryIsLastEnd(p: Program, l: Placement)
    requires Laid(p, l)
    ensures |l.addrs| == |l.aligns| == |p.insns|
    ensures forall i :: 0 <= i < |p.insns| && Occupies(p.insns[i]) ==> NextFrom(p, l, i) <= l.bss
    ensures l.bss == p.startVa || exists i :: 0 <= i < |p.insns| && Occupies(p.insns[i]) && l.bss == NextFrom(p, l, i)
  {
    hide Pass1, Extent;
    var n := |p.insns|;
    BssBoundary(p, l, n);
    forall i: nat | i < n ensures NextFrom(p, l, i) == Extent(p, l.counts, i + 1) {
      EndIsExtent(p, l, i);
    }
    if exists j :: 0 <= j < n && Allocates(p.insns[j]) {
      var k := FindLastAllocating(p, n);
      forall i: nat | i < n && Occupies(p.insns[i]) ensures NextFrom(p, l, i) <= l.bss {
        ExtentMonotone(p, l.counts, i + 1, k + 1);
      }
      assert Occupies(p.insns[k]) && l.bss == NextFrom(p, l, k);
    }
  }

  lemma EndIsExtent(p: Program, l: Placement, i: nat)
    requires Laid(p, l) && i < |p.insns|
    ensures |l.addrs| == |l.aligns| == |p.insns| && NextFrom(p, l, i) == Extent(p, l.counts, i + 1)
  {
    hide Pass1, AlignUp;
    if i + 1 < |p.insns| {
      PlacedAtExtent(p, l, i + 1);
    } else {
      NextIsExtent(p, l, i + 1);
    }
  }

  // ---------- Data ----------

  /** `bytes` hold the low bytes of `v`, least significant first. */
  ghost predicate Holds(bytes: seq<u8>, v: u32) {
    && (|bytes| == 1 ==> bytes[0] == v % 0x100)
    && (|bytes| == 2 ==> Fetch16(bytes) == v % 0x1_0000)
    && (|bytes| == 4 ==> Fetch32(bytes) == v)
  }

  lemma DataHolds(w: nat, v: u32)
    requires Width(w)
    ensures |DataBytes(w, v)| == w && Holds(DataBytes(w, v), v)
  {
    hide Le16, Le32, Fetch16, Fetch32;
    FetchInvertsStore16(v % 0x1_0000);
    FetchInvertsStore32(v);
  }

  /** Item `k` of an evaluated list stands at `w * k` and has its meaning. */
  lemma {:induction false} ItemAt(p: Program, scope: Scope, addrs: seq<u32>, w: nat, items: seq<nat>,
                                  used: set<nat>, k: nat)
    requires p.world.Valid() && p.world.ScopeValid(scope) && Width(w) && used <= p.world.Ids()
    requires (forall j :: 0 <= j < |items| ==> items[j] < |p.world.nodes|) && k < |items|
    requires EmitItems(p, scope, addrs, w, items, used).Some?
    ensures Denote(p.world, scope, addrs, items[k], {}).Means?
    ensures 0 <= w * k <= w * k + w <= |EmitItems(p, scope, addrs, w, items, used).value.bytes|
    ensures Holds(EmitItems(p, scope, addrs, w, items, used).value.bytes[w * k..w * k + w],
                  Denote(p.world, scope, addrs, items[k], {}).value)
    decreases |items|
  {
    hide EvalOnce, Denote, DataBytes, Holds;
    var last := |items| - 1;
    var front := EmitItems(p, scope, addrs, w, items[..last], used).value;
    var v := EvalOnce(p.world, scope, addrs, items[last], front.used).value;
    var bytes := EmitItems(p, scope, addrs, w, items, used).value.bytes;
    assert bytes == front.bytes + DataBytes(w, v.value);
    assert |front.bytes| == w * last;
    if k < last {
      ItemAt(p, scope, addrs, w, items[..last], used, k);
      assert bytes[w * k..w * k + w] == front.bytes[w * k..w * k + w];
    } else {
      EvaluationIsMeaning(p.world, scope, addrs, items[last], front.used);
      DataHolds(w, v.value);
      assert bytes[w * k..w * k + w] == DataBytes(w, v.value);
    }
  }

  /** The scope pass 2 reaches instruction `i` in. */
  function ScopeAt(p: Program, i: nat): Scope
    requires i < |p.insns|
  {
    ScopeAfter(p.insns, i + 1, p.entryScope)
  }

  lemma Emitted(p: Program, l: Placement, i: nat)
    requires Emits(p, l) && i < Cut(l)
    ensures i < |p.insns| == |l.addrs| == |l.aligns| && p.world.ScopeValid(ScopeAt(p, i))
    ensures Pass2(p, l, i).Some?
    ensures
      var b := EmitOne(p, l, i, ScopeAt(p, i), Pass2(p, l, i).value.used);
      var from := l.addrs[i] - l.aligns[i] - p.startVa;
      && b.Some? && 0 <= from <= from + |b.value.bytes| <= |Body(p, l)|
      && Body(p, l)[from..from + |b.value.bytes|] == b.value.bytes
  {
    hide Pass1, Pass2, EmitOne, Extent;
    BytesAtAddress(p, l, i, Cut(l));
  }

  lemma DefBytes(p: Program, l: Placement, i: nat, used: set<nat>)
    requires p.Valid() && i < |p.insns| && PlacementOf(p, |p.insns|, l) && p.insns[i].Def? && used <= p.world.Ids()
    requires p.world.ScopeValid(ScopeAt(p, i)) && EmitOne(p, l, i, ScopeAt(p, i), used).Some?
    ensures p.InsnValid(i) && EmitItems(p, ScopeAt(p, i), l.addrs, p.insns[i].width, p.insns[i].items, used).Some?
    ensures
      var e := EmitItems(p, ScopeAt(p, i), l.addrs, p.insns[i].width, p.insns[i].items, used).value;
      EmitOne(p, l, i, ScopeAt(p, i), used).value.bytes == Repeat(0xAA, l.aligns[i]) + e.bytes
  {
    hide EmitItems;
    assert p.InsnValid(i);
  }

  lemma Inside(body: seq<u8>, from: int, pad: seq<u8>, bytes: seq<u8>, a: nat, n: nat)
    requires 0 <= from <= from + |pad + bytes| <= |body| && body[from..from + |pad + bytes|] == pad + bytes
    requires a + n <= |bytes|
    ensures body[from..from + |pad|] == pad
    ensures body[from + |pad| + a..from + |pad| + a + n] == bytes[a..a + n]
  {
    var whole, m := body[from..from + |pad + bytes|], |pad|;
    assert whole[..m] == pad && whole[m + a..m + a + n] == bytes[a..a + n];
    SliceOfSlice(body, from, from + |pad + bytes|, 0, m);
    SliceOfSlice(body, from, from + |pad + bytes|, m + a, m + a + n);
  }

  lemma SliceOfSlice(s: seq<u8>, from: int, to: int, a: int, b: int)
    requires 0 <= from <= to <= |s| && 0 <= a <= b <= to - from
    ensures s[from..to][a..b] == s[from + a..from + b]
  {
    assert |s[from..to][a..b]| == |s[from + a..from + b]|;
    assert forall i :: 0 <= i < b - a ==> s[from..to][a..b][i] == s[from + a..from + b][i];
  }

  /** Item `k` of a definition before the cut stands `w * k` behind the definition's address and has
      its meaning, in the low bytes that fit its width; the padding in front of it is 0xAA. */
  lemma DataStored(p: Program, l: Placement, i: nat, k: nat)
    requires Emits(p, l) && i < Cut(l) && i < |p.insns| && p.insns[i].Def? && k < |p.insns[i].items|
    ensures p.world.ScopeValid(ScopeAt(p, i)) && p.insns[i].items[k] < |p.world.nodes|
    ensures |l.addrs| == |l.aligns| == |p.insns|
    ensures Denote(p.world, ScopeAt(p, i), l.addrs, p.insns[i].items[k], {}).Means?
    ensures
      var w, at := p.insns[i].width, l.addrs[i] - p.startVa + p.insns[i].width * k;
      && 0 <= at <= at + w <= |Body(p, l)|
      && Holds(Body(p, l)[at..at + w], Denote(p.world, ScopeAt(p, i), l.addrs, p.insns[i].items[k], {}).value)
    ensures
      var at := l.addrs[i] - p.startVa;
      0 <= at - l.aligns[i] && at <= |Body(p, l)| && Body(p, l)[at - l.aligns[i]..at] == Repeat(0xAA, l.aligns[i])
  {
    hide EmitOne, EmitItems, Denote, Pass1, Pass2, Holds, Body, Cut, Extent, ScopeAfter;
    Emitted(p, l, i);
    assert p.InsnValid(i);
    var w, items, used := p.insns[i].width, p.insns[i].items, Pass2(p, l, i).value.used;
    DefBytes(p, l, i, used);
    ItemAt(p, ScopeAt(p, i), l.addrs, w, items, used, k);
    var bytes := EmitItems(p, ScopeAt(p, i), l.addrs, w, items, used).value.bytes;
    Inside(Body(p, l), l.addrs[i] - l.aligns[i] - p.startVa, Repeat(0xAA, l.aligns[i]), bytes, w * k, w);
  }

  lemma TextBytes(p: Program, l: Placement, i: nat, used: set<nat>)
    requires p.Valid() && i < |p.insns| && PlacementOf(p, |p.insns|, l) && used <= p.world.Ids()
    requires p.world.ScopeValid(ScopeAt(p, i)) && EmitOne(p, l, i, ScopeAt(p, i), used).Some?
    ensures p.insns[i].Text? ==> EmitOne(p, l, i, ScopeAt(p, i), used).value.bytes == p.insns[i].bytes
    ensures p.insns[i].Reserve? ==>
      EmitOne(p, l, i, ScopeAt(p, i), used).value.bytes ==
      Repeat(0xAA, l.aligns[i]) + Repeat(0xCC, p.insns[i].width * l.counts[i])
  {
    hide EmitItems;
    assert p.InsnValid(i);
  }

  /** A text before the cut stands in the body as it is. */
  lemma TextStored(p: Program, l: Placement, i: nat)
    requires Emits(p, l) && i < Cut(l) && i < |p.insns| && p.insns[i].Text?
    ensures |l.addrs| == |p.insns|
    ensures
      var at, n := l.addrs[i] - p.startVa, |p.insns[i].bytes|;
      0 <= at <= at + n <= |Body(p, l)| && Body(p, l)[at..at + n] == p.insns[i].bytes
  {
    hide EmitOne, EmitItems, Pass1, Pass2, Body, Cut, Extent, ScopeAfter;
    Emitted(p, l, i);
    DataAligned(p, l, i);
    TextBytes(p, l, i, Pass2(p, l, i).value.used);
  }

  /** A reservation before the cut is padded with 0xAA and filled with 0xCC. */
  lemma ReservationFilled(p: Program, l: Placement, i: nat)
    requires Emits(p, l) && i < Cut(l) && i < |p.insns| && p.insns[i].Reserve?
    ensures |l.addrs| == |l.aligns| == |l.counts| == |p.insns|
    ensures
      var at, n := l.addrs[i] - p.startVa, p.insns[i].width * l.counts[i];
      && 0 <= at - l.aligns[i] && 0 <= n && at + n <= |Body(p, l)|
      && Body(p, l)[at - l.aligns[i]..at] == Repeat(0xAA, l.aligns[i])
      && Body(p, l)[at..at + n] == Repeat(0xCC, n)
  {
    hide EmitOne, EmitItems, Pass1, Pass2, Body, Cut, Extent, ScopeAfter;
    Emitted(p, l, i);
    var n := p.insns[i].width * l.counts[i];
    TextBytes(p, l, i, Pass2(p, l, i).value.used);
    Inside(Body(p, l), l.addrs[i] - l.aligns[i] - p.startVa, Repeat(0xAA, l.aligns[i]), Repeat(0xCC, n), 0, n);
    assert Repeat(0xCC, n)[0..n] == Repeat(0xCC, n);
  }

  // ---------- Which operands fit ----------

  /** A byte operand is accepted from 0 to 255, a short branch exactly when its label lies -128 to 127
      bytes from its end, and everything else always. */
  lemma OperandAccepted(op: Op, v: u32, addr: u32)
    requires TakesExpression(op)
    ensures op == LDC_W || op == LEA || op == CALL ==> EncodeOperand(op, v, addr).Some?
    ensures op == BR || op == BR_T || op == BR_F ==>
      (EncodeOperand(op, v, addr).Some? <==>
        exists d :: -128 <= d <= 127 && ShortTarget(addr, d) == v)
    ensures op == LDC_UB || op == LDC_SB || op == LOCALS || op == LDLOC || op == STLOC ==>
      (EncodeOperand(op, v, addr).Some? <==> v <= 255)
  {
    hide Le32, Signed32, Wrap;
    if op == BR || op == BR_T || op == BR_F {
      ShortFits(v, addr);
    }
  }

  /** The address `d` bytes behind a two-byte instruction at `addr`. */
  function ShortTarget(addr: u32, d: int): int {
    (addr + 2 + d) % 0x1_0000_0000
  }

  lemma ShortFits(v: u32, addr: u32)
    ensures EncodeShort(v, addr).Some? <==> exists d :: -128 <= d <= 127 && ShortTarget(addr, d) == v
  {
    var diff := Signed32(Wrap(v - (addr + 2)));
    assert ShortTarget(addr, diff) == v;
    forall d | -128 <= d <= 127 && ShortTarget(addr, d) == v ensures diff == d {
    }
  }

  // ---------- Loading data at run time ----------

  /** The load that reads data of width `w` without sign extension. */
  function LoadOf(w: nat): Op {
    if w == 1 then LDM_UB else if w == 2 then LDM_UH else LDM_W
  }

  /** What data of width `w` keeps of a value. */
  function Kept(w: nat, v: u32): u32 {
    if w == 1 then v % 0x100 else if w == 2 then v % 0x1_0000 else v
  }

  /** The load handler of that width on bytes that hold a value. */
  lemma LoadsHeld(mem: Memory, w: nat, at: u32, imm: u32, y: u32, locals: Locals, bytes: seq<u8>, v: u32)
    requires Width(w) && Read(mem, at, w) == Some(bytes) && Holds(bytes, v)
    ensures Act(LoadOf(w), imm, at, y, locals, mem) == Push([Kept(w, v)])
  {
    hide Act, Read, Fetch16, Fetch32;
    F.LoadHandlers(LoadOf(w), imm, at, y, locals, mem);
  }

  /** Loading item `k` of a definition from where the image was loaded pushes what the item means, as
      far as it fits the width. */
  lemma DataLoads(p: Program, l: Placement, base: u32, i: nat, k: nat, env: Env, s: State<u32>)
    requires Emits(p, l) && i < Cut(l) && i < |p.insns| && p.insns[i].Def? && k < |p.insns[i].items|
    requires Read(s.mem, base, |Body(p, l)|) == Some(Body(p, l)) && |l.addrs| == |p.insns|
    requires F.Ready(s, LoadOf(p.insns[i].width)) && |s.data| > 0
    requires s.data[0] == Wrap(base + (l.addrs[i] - p.startVa + p.insns[i].width * k))
    ensures p.world.ScopeValid(ScopeAt(p, i)) && p.insns[i].items[k] < |p.world.nodes|
    ensures
      var m := Denote(p.world, ScopeAt(p, i), l.addrs, p.insns[i].items[k], {});
      m.Means? && F.Pushes(env, s, LoadOf(p.insns[i].width), [Kept(p.insns[i].width, m.value)])
  {
    hide Denote, Pass1, Pass2, Body, Cut, Extent, ScopeAfter, Read, Wrap, Holds, Act, Emits, F.Pushes, F.Ready, F.Imm;
    DataStored(p, l, i, k);
    BodyBelow(p, l);
    assert p.InsnValid(i);
    var w, op := p.insns[i].width, LoadOf(p.insns[i].width);
    var at := l.addrs[i] - p.startVa + w * k;
    S.ReadInside(s.mem, base, |Body(p, l)|, at, w);
    var v := Denote(p.world, ScopeAt(p, i), l.addrs, p.insns[i].items[k], {}).value;
    F.OperandsOf(s, op);
    LoadsHeld(s.mem, w, s.data[0], F.Imm(s, op), F.Second(s, op), s.locals, Body(p, l)[at..at + w], v);
    F.PushStep(env, s, op, [Kept(w, v)]);
  }

  lemma BodyBelow(p: Program, l: Placement)
    requires Emits(p, l)
    ensures p.Valid() && |Body(p, l)| < 0x1_0000_0000
  {
    hide Pass1, Pass2, Body;
    BodyLength(p, l);
  }
}
