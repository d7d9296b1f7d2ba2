/** The two assembler passes on values: pass 1 places instructions, pass 2 emits their bytes. */
module Layout {
  import opened Words
  import opened Opcodes
  import opened Expressions

  // A machine instruction's operand is an expression root, or the table id for NCALL.
  datatype Insn =
    | Mach(op: Op, operand: nat)
    | Def(width: nat, items: seq<nat>)
    | Text(bytes: seq<u8>)
    | Reserve(width: nat, amount: nat)
    | ConstDef
    | SubStart(table: nat)
    | SubEnd

  predicate TakesExpression(op: Op) {
    OperandBytes(op) != 0 && op != NCALL
  }

  predicate Width(w: nat) {
    w == 1 || w == 2 || w == 4
  }

  function NextScope(scope: Scope, insn: Insn): Scope {
    match insn
    case SubStart(t) => Local(t)
    case SubEnd => Global
    case _ => scope
  }

  /** The lookup scope after the first `n` instructions, walking from `from`. */
  function ScopeAfter(insns: seq<Insn>, n: nat, from: Scope): Scope
    requires n <= |insns|
  {
    if n == 0 then from else NextScope(ScopeAfter(insns, n - 1, from), insns[n - 1])
  }

  /** What the parser hands to the passes. `entryScope` is the lookup scope it stopped in, which
      neither pass resets. */
  datatype Program = Program(insns: seq<Insn>, world: World, natives: seq<string>, startVa: u32, entryScope: Scope) {

    predicate Valid() {
      && world.Valid()
      && entryScope == ScopeAfter(insns, |insns|, Global)
      && (forall i :: 0 <= i < |insns| ==> InsnValid(i))
    }

    predicate RootValid(i: nat, root: nat)
      requires world.Valid()
    {
      root < |world.nodes| && world.owner[root] == world.constants + i
    }

    predicate InsnValid(i: nat)
      requires world.Valid() && i < |insns|
    {
      match insns[i]
      case Mach(op, operand) =>
        (TakesExpression(op) ==> RootValid(i, operand)) && (op == NCALL ==> operand < |natives|)
      case Def(w, items) => Width(w) && |items| > 0 && forall k :: 0 <= k < |items| ==> RootValid(i, items[k])
      case Reserve(w, amount) => Width(w) && RootValid(i, amount)
      case SubStart(t) => t < |world.subs|
      case _ => true
    }
  }

  lemma {:induction false} ScopesValid(p: Program, n: nat, from: Scope)
    requires p.Valid() && n <= |p.insns| && p.world.ScopeValid(from)
    ensures p.world.ScopeValid(ScopeAfter(p.insns, n, from))
  {
    if n > 0 {
      ScopesValid(p, n - 1, from);
      assert p.InsnValid(n - 1);
    }
  }

  // ---------- Pass 1 ----------

  function AlignmentOf(insn: Insn): nat {
    match insn
    case Def(w, _) => w
    case Reserve(w, _) => w
    case _ => 1
  }

  /** Everything before the memory-reserving keywords in instruction order. */
  predicate Allocates(insn: Insn) {
    insn.Mach? || insn.Def? || insn.Text?
  }

  /** Bytes an instruction takes, with `count` the evaluated amount of a reservation. */
  function SizeOf(insn: Insn, count: u32): nat {
    match insn
    case Mach(op, _) => 1 + OperandBytes(op)
    case Def(w, items) => w * |items|
    case Text(bytes) => |bytes|
    case Reserve(w, _) => w * count
    case _ => 0
  }

  datatype Placement = Placement(next: u32, bss: u32, scope: Scope, addrs: seq<u32>, aligns: seq<u32>,
                                 counts: seq<u32>, used: set<nat>)

  ghost predicate PlacementOf(p: Program, n: nat, l: Placement)
    requires p.Valid()
  {
    && |l.addrs| == n && |l.aligns| == n && |l.counts| == n
    && l.used <= p.world.Ids() && p.world.ScopeValid(l.scope)
  }

  /** The amount of a reservation, evaluated on the spot; its own label is already placed. */
  function Amount(p: Program, scope: Scope, addrs: seq<u32>, insn: Insn, used: set<nat>): (r: Option<Evaluated>)
    requires p.world.Valid() && p.world.ScopeValid(scope) && used <= p.world.Ids()
    requires insn.Reserve? ==> insn.amount < |p.world.nodes|
    ensures r.Some? ==> used <= r.value.used <= p.world.Ids()
  {
    if insn.Reserve? then EvalOnce(p.world, scope, addrs, insn.amount, used) else Some(Evaluated(0, used))
  }

  /** Places instruction `i` behind `l`; addresses are 32-bit and wrap as in the source. */
  function Place(p: Program, l: Placement, i: nat): (r: Option<Placement>)
    requires p.Valid() && i < |p.insns| && PlacementOf(p, i, l)
    ensures r.Some? ==> PlacementOf(p, i + 1, r.value)
  {
    assert p.InsnValid(i);
    var insn := p.insns[i];
    var scope := NextScope(l.scope, insn);
    var start := AlignWord(l.next, AlignmentOf(insn));
    match Amount(p, scope, l.addrs + [start], insn, l.used)
    case None => None
    case Some(amount) =>
      var next := Wrap(start + SizeOf(insn, amount.value));
      Some(Placement(next, if Allocates(insn) then next else l.bss, scope, l.addrs + [start],
                     l.aligns + [Wrap(start - l.next)], l.counts + [amount.value], amount.used))
  }

  /** Pass 1 over the first `n` instructions; None when it reports an error. */
  function Pass1(p: Program, n: nat): (r: Option<Placement>)
    requires p.Valid() && n <= |p.insns|
    ensures r.Some? ==> PlacementOf(p, n, r.value)
  {
    if n == 0 then
      ScopesValid(p, |p.insns|, Global);
      Some(Placement(p.startVa, p.startVa, p.entryScope, [], [], [], {}))
    else
      match Pass1(p, n - 1)
      case None => None
      case Some(l) => Place(p, l, n - 1)
  }

  lemma InsnValidAt(p: Program, i: nat)
    requires p.Valid() && i < |p.insns|
    ensures p.world.Valid() && p.InsnValid(i)
  {
  }

  lemma Pass1Unfolds(p: Program, i: nat)
    requires p.Valid() && i < |p.insns|
    ensures Pass1(p, i + 1) == if Pass1(p, i).None? then None else Place(p, Pass1(p, i).value, i)
  {
  }

  // ---------- Pass 2 ----------

  function DataBytes(w: nat, v: u32): (s: seq<u8>)
    requires Width(w)
    ensures |s| == w
  {
    if w == 1 then [v % 0x100] else if w == 2 then Le16(v % 0x1_0000) else Le32(v)
  }

  /** The inline operand for value `v` at address `addr`. Displacements count from the end of the
      instruction; None when the value or the branch distance is out of range. */
  function EncodeOperand(op: Op, v: u32, addr: u32): (r: Option<seq<u8>>)
    requires TakesExpression(op)
    ensures r.Some? ==> |r.value| == OperandBytes(op)
  {
    if op == LDC_W then Some(Le32(v))
    else if op == LEA || op == CALL then Some(Le32(Wrap(v - (addr + 5))))
    else if op == BR || op == BR_T || op == BR_F then EncodeShort(v, addr)
    else EncodeByte(v)
  }

  function EncodeByte(v: u32): Option<seq<u8>> {
    if v > 0xFF then None else Some([v])
  }

  function EncodeShort(v: u32, addr: u32): Option<seq<u8>> {
    var diff := Signed32(Wrap(v - (addr + 2)));
    if diff > 127 || diff < -128 then None else Some([diff % 0x100])
  }

  datatype Emitted = Emitted(bytes: seq<u8>, used: set<nat>)

  function EmitItems(p: Program, scope: Scope, addrs: seq<u32>, w: nat,
                     items: seq<nat>, used: set<nat>): (r: Option<Emitted>)
    requires p.world.Valid() && p.world.ScopeValid(scope) && Width(w) && used <= p.world.Ids()
    requires forall k :: 0 <= k < |items| ==> items[k] < |p.world.nodes|
    ensures r.Some? ==> used <= r.value.used <= p.world.Ids() && |r.value.bytes| == w * |items|
    decreases |items|
  {
    if |items| == 0 then Some(Emitted([], used)) else
    var last := |items| - 1;
    match EmitItems(p, scope, addrs, w, items[..last], used)
    case None => None
    case Some(front) =>
      match EvalOnce(p.world, scope, addrs, items[last], front.used)
      case None => None
      case Some(v) => Some(Emitted(front.bytes + DataBytes(w, v.value), v.used))
  }

  /** The bytes of instruction `i`, padding included. */
  function EmitOne(p: Program, l: Placement, i: nat, scope: Scope, used: set<nat>): (r: Option<Emitted>)
    requires p.Valid() && i < |p.insns| && PlacementOf(p, |p.insns|, l)
    requires p.world.ScopeValid(scope) && used <= p.world.Ids()
    ensures r.Some? ==> used <= r.value.used <= p.world.Ids()
  {
    assert p.InsnValid(i);
    var pad := Repeat(0xAA, l.aligns[i]);
    match p.insns[i]
    case Mach(op, operand) =>
      if TakesExpression(op) then
        (match EvalOnce(p.world, scope, l.addrs, operand, used)
         case None => None
         case Some(v) =>
           match EncodeOperand(op, v.value, l.addrs[i])
           case None => None
           case Some(bytes) => Some(Emitted([OpcodeByte(op)] + bytes, v.used)))
      else if op == NCALL then Some(Emitted([OpcodeByte(op)] + Le16(operand % 0x1_0000), used))
      else Some(Emitted([OpcodeByte(op)], used))
    case Def(w, items) =>
      (match EmitItems(p, scope, l.addrs, w, items, used)
       case None => None
       case Some(e) => Some(Emitted(pad + e.bytes, e.used)))
    case Text(bytes) => Some(Emitted(bytes, used))
    case Reserve(w, _) => Some(Emitted(pad + Repeat(0xCC, w * l.counts[i]), used))
    case _ => Some(Emitted([], used))
  }

  datatype Emission = Emission(out: seq<u8>, scope: Scope, used: set<nat>)

  ghost predicate EmissionOf(p: Program, e: Emission)
    requires p.Valid()
  {
    e.used <= p.world.Ids() && p.world.ScopeValid(e.scope)
  }

  function EmitNext(p: Program, l: Placement, i: nat, e: Emission): (r: Option<Emission>)
    requires p.Valid() && i < |p.insns| && PlacementOf(p, |p.insns|, l) && EmissionOf(p, e)
    ensures r.Some? ==> EmissionOf(p, r.value)
  {
    assert p.InsnValid(i);
    var scope := NextScope(e.scope, p.insns[i]);
    match EmitOne(p, l, i, scope, e.used)
    case None => None
    case Some(b) => Some(Emission(e.out + b.bytes, scope, b.used))
  }

  /** Pass 2 over the first `n` instructions, in the scope pass 1 ended in. */
  function Pass2(p: Program, l: Placement, n: nat): (r: Option<Emission>)
    requires p.Valid() && n <= |p.insns| && PlacementOf(p, |p.insns|, l)
    ensures r.Some? ==> EmissionOf(p, r.value)
  {
    if n == 0 then Some(Emission([], l.scope, l.used)) else
    match Pass2(p, l, n - 1)
    case None => None
    case Some(e) => EmitNext(p, l, n - 1, e)
  }

  /** Where emission stops: the first instruction placed at or behind the bss boundary. */
  function CutFrom(l: Placement, i: nat): (c: nat)
    requires i <= |l.addrs|
    ensures i <= c <= |l.addrs|
    ensures forall k :: i <= k < c ==> l.addrs[k] < l.bss
    ensures c < |l.addrs| ==> l.addrs[c] >= l.bss
    decreases |l.addrs| - i
  {
    if i < |l.addrs| && l.addrs[i] < l.bss then CutFrom(l, i + 1) else i
  }

  function Cut(l: Placement): nat {
    CutFrom(l, 0)
  }
}
