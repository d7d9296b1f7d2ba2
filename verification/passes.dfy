/** The assembler as it runs: expression nodes, instruction fields and the lookup scope are
    overwritten in place. Each routine is proved against the passes on values. */
module Passes {
  import opened Words
  import opened Opcodes
  import opened Expressions
  import opened Layout
  import Image

  /** What pass 2 makes of a machine instruction. */
  lemma MachineBytesOf(p: Program, l: Placement, i: nat, scope: Scope, used: set<nat>)
    requires p.Valid() && i < |p.insns| && PlacementOf(p, |p.insns|, l) && p.insns[i].Mach?
    requires p.world.ScopeValid(scope) && used <= p.world.Ids()
    ensures p.InsnValid(i)
    ensures
      var op, operand := p.insns[i].op, p.insns[i].operand;
      EmitOne(p, l, i, scope, used) ==
        if TakesExpression(op) then
          var v := EvalOnce(p.world, scope, l.addrs, operand, used);
          if v.None? || EncodeOperand(op, v.value.value, l.addrs[i]).None? then None
          else Some(Emitted([OpcodeByte(op)] + EncodeOperand(op, v.value.value, l.addrs[i]).value, v.value.used))
        else if op == NCALL then Some(Emitted([OpcodeByte(op)] + Le16(operand % 0x1_0000), used))
        else Some(Emitted([OpcodeByte(op)], used))
  {
    hide EvalOnce, EncodeOperand, OpcodeByte, OperandBytes, Repeat, EmitItems, Le16, TakesExpression;
    assert p.InsnValid(i);
  }

  class Assembler {
    const p: Program

    // One cell per expression node: the value last computed for it, and whether its name has
    // been overwritten with the symbol it resolved to.
    const value: array<u32>
    var used: set<nat>

    // One cell per instruction; the first `placed` ones have their address.
    const startAddr: array<u32>
    const alignBytes: array<u32>
    var placed: nat

    var lookup: Scope
    var errors: nat
    var bssVa: u32
    var endVa: u32
    var output: seq<u8>

    ghost predicate Valid()
      reads this, value, alignBytes
    {
      && p.Valid()
      && value.Length == |p.world.nodes| && startAddr.Length == alignBytes.Length == |p.insns|
      && value != startAddr && value != alignBytes && startAddr != alignBytes
      && placed <= |p.insns| && used <= p.world.Ids() && p.world.ScopeValid(lookup)
      && (forall k :: 0 <= k < value.Length && p.world.nodes[k].Literal? ==> value[k] == p.world.nodes[k].value)
      && (forall k :: placed <= k < alignBytes.Length ==> alignBytes[k] == 0)
    }

    ghost function Addresses(): seq<u32>
      reads this, startAddr
      requires placed <= startAddr.Length
    {
      startAddr[..placed]
    }

    /** The state after parsing without errors. */
    constructor (program: Program)
      requires program.Valid()
      ensures Valid() && p == program && fresh(value) && fresh(startAddr) && fresh(alignBytes)
      ensures placed == 0 && used == {} && lookup == p.entryScope && errors == 0 && output == []
    {
      ScopesValid(program, |program.insns|, Global);
      p := program;
      value := new u32[|program.world.nodes|](i requires 0 <= i < |program.world.nodes| =>
        if program.world.nodes[i].Literal? then program.world.nodes[i].value else 0);
      startAddr := new u32[|program.insns|](_ => 0);
      alignBytes := new u32[|program.insns|](_ => 0);
      used, placed, lookup, errors := {}, 0, program.entryScope, 0;
      bssVa, endVa, output := program.startVa, program.startVa, [];
    }

    /** Cells an evaluation of node `e` may write: its own expression's and constants'. */
    ghost predicate MayWrite(e: nat, k: nat)
      requires p.Valid() && e < |p.world.nodes| && k < |p.world.nodes|
    {
      p.world.owner[k] == p.world.owner[e] || p.world.owner[k] < p.world.constants
    }

    /** The cell holds what its node denotes in the current scope. */
    ghost predicate Current(k: nat)
      reads this, value, startAddr, alignBytes
      requires Valid() && k < |p.world.nodes|
    {
      Denote(p.world, lookup, Addresses(), k, {}) == Means(value[k])
    }

    /** An in-place evaluation of node `e` succeeds without reporting an error exactly when the
        evaluation on values does, and then leaves that value in the node's cell; any other cell
        it wrote holds its own node's meaning. */
    twostate predicate Evaluates(e: nat, ok: bool)
      reads this, value, startAddr, alignBytes
      requires old(Valid()) && Valid() && e < |p.world.nodes|
    {
      && old(used) <= used && errors >= old(errors) && (!ok ==> errors > old(errors))
      && (var r := EvalOnce(p.world, lookup, Addresses(), e, old(used));
          && (r.Some? <==> ok && errors == old(errors))
          && (r.Some? ==> value[e] == r.value.value && used == r.value.used))
      && (forall k: nat :: k < value.Length && !MayWrite(e, k) ==> value[k] == old(value[k]))
      && (errors == old(errors) ==> forall k: nat :: k < value.Length ==> value[k] == old(value[k]) || Current(k))
    }

    method Evaluate(e: nat) returns (ok: bool)
      requires Valid() && e < |p.world.nodes|
      modifies this`used, this`errors, value
      ensures Valid() && Evaluates(e, ok)
      decreases p.world.Ids() - used, e, 1
    {
      assert p.world.ChildrenBelow(e);
      match p.world.nodes[e] {
        case Literal(_) =>
          ok := true;
        case SymRef(_) =>
          ok := EvaluateSymref(e);
        case Binary(op, l, r) =>
          ok := EvaluateBinary(e, op, l, r);
        case Unary(op, c) =>
          ok := EvaluateUnary(e, op, c);
      }
    }

    method EvaluateBinary(e: nat, op: BinOp, l: nat, r: nat) returns (ok: bool)
      requires Valid() && e < |p.world.nodes| && p.world.nodes[e] == Binary(op, l, r)
      modifies this`used, this`errors, value
      ensures Valid() && Evaluates(e, ok)
      decreases p.world.Ids() - used, e, 0
    {
      hide EvalOnce, Denote, Combine;
      assert p.world.ChildrenBelow(e);
      ghost var first, addrs := used, Addresses();
      EvalBinary(p.world, lookup, addrs, e, first);
      ok := Evaluate(l);
      if !ok {
        return false;
      }
      assert p.world.Ids() - used <= p.world.Ids() - first;
      assert forall k: nat :: k < value.Length && !MayWrite(e, k) ==> value[k] == old(value[k]) by {
        assert forall k: nat :: k < value.Length && !MayWrite(e, k) ==> !MayWrite(l, k);
      }
      ghost var left, afterLeft := EvalOnce(p.world, lookup, addrs, l, first), value[l];
      label Left:
      if left.Some? && errors == old(errors) {
        EvaluationIsMeaning(p.world, lookup, addrs, l, first);
      }
      ok := Evaluate(r);
      if !ok {
        return false;
      }
      assert errors == old(errors) ==> value[l] == afterLeft || Current(l);
      assert forall k: nat :: k < value.Length && !MayWrite(e, k) ==> value[k] == old(value[k]) by {
        assert forall k: nat :: k < value.Length && !MayWrite(e, k) ==> !MayWrite(r, k);
      }
      var v := Combine(op, value[l], value[r]);
      if v.None? {
        // The only operator that can fail is a division.
        errors := errors + 1;
        value[e] := 1;
      } else {
        value[e] := v.value;
        if errors == old(errors) {
          EvaluationIsMeaning(p.world, lookup, addrs, e, first);
        }
      }
    }

    method EvaluateUnary(e: nat, op: UnOp, c: nat) returns (ok: bool)
      requires Valid() && e < |p.world.nodes| && p.world.nodes[e] == Unary(op, c)
      modifies this`used, this`errors, value
      ensures Valid() && Evaluates(e, ok)
      decreases p.world.Ids() - used, e, 0
    {
      hide EvalOnce, Denote;
      assert p.world.ChildrenBelow(e);
      ghost var first, addrs := used, Addresses();
      EvalUnary(p.world, lookup, addrs, e, first);
      ok := Evaluate(c);
      if !ok {
        return false;
      }
      value[e] := Invert(op, value[c]);
      if errors == old(errors) {
        EvaluationIsMeaning(p.world, lookup, addrs, e, first);
      }
    }

    /** Resolving overwrites the node's name, so a second look at the same node finds nothing. */
    method EvaluateSymref(e: nat) returns (ok: bool)
      requires Valid() && e < |p.world.nodes| && p.world.nodes[e].SymRef?
      modifies this`used, this`errors, value
      ensures Valid() && Evaluates(e, ok)
      decreases p.world.Ids() - used, e, 0
    {
      hide EvalOnce, Denote;
      ghost var first, addrs := used, Addresses();
      EvalReference(p.world, lookup, addrs, e, first);
      if EvalOnce(p.world, lookup, addrs, e, first).Some? {
        EvaluationIsMeaning(p.world, lookup, addrs, e, first);
      }
      ResolvedConstant(p.world, lookup, p.world.nodes[e].name);
      var sym := p.world.Resolve(lookup, p.world.nodes[e].name);
      if e in used || sym.None? {
        errors := errors + 1;
        return false;
      }
      used := used + {e};
      match sym.value {
        case Label(location) =>
          if location < placed {
            value[e] := startAddr[location];
            return true;
          }
          errors := errors + 1;
        case Constant(root) =>
          assert e in p.world.Ids() - old(used) && e !in p.world.Ids() - used;
          ok := Evaluate(root);
          if ok {
            value[e] := value[root];
            return true;
          }
        case NativeCall(_) =>
          errors := errors + 1;
      }
      return false;
    }

    // ---------- Pass 1 ----------

    /** Only cells of instruction `i`'s expressions and of constants were written. */
    ghost predicate OthersKept(i: nat, before: seq<u32>, after: seq<u32>)
      requires p.Valid() && |before| == |after| == |p.world.nodes|
    {
      forall k :: 0 <= k < |after| && OwnedElsewhere(i, k) ==> after[k] == before[k]
    }

    ghost predicate OwnedElsewhere(i: nat, k: nat)
      requires p.Valid() && k < |p.world.nodes|
    {
      p.world.owner[k] >= p.world.constants && p.world.owner[k] != p.world.constants + i
    }

    /** The size pass 1 reserves for instruction `i`, evaluating a reservation's amount. */
    method EstimateSize(i: nat, ghost counts: seq<u32>) returns (size: u32)
      requires Valid() && i < |p.insns| && p.InsnValid(i) && |counts| <= i
      modifies this`used, this`errors, value
      ensures Valid() && old(used) <= used && errors >= old(errors)
      ensures
        var r := Amount(p, lookup, Addresses(), p.insns[i], old(used));
        && (r.Some? <==> errors == old(errors))
        && (r.Some? ==> used == r.value.used && size == Wrap(SizeOf(p.insns[i], r.value.value)))
        && (r.Some? && p.insns[i].Reserve? ==> AmountHeld(value[..], i, r.value.value))
      ensures AmountsHeld(old(value[..]), counts) ==> AmountsHeld(value[..], counts)
    {
      match p.insns[i] {
        case Reserve(w, amount) =>
          var ok := Evaluate(amount);
          AmountsKept(i, counts, old(value[..]), value[..]);
          if !ok {
            errors := errors + 1;
            return 0;
          }
          size := Wrap(w * value[amount]);
        case other =>
          size := Wrap(SizeOf(p.insns[i], 0));
      }
    }

    /** The instruction fields, the scope and the evaluated amounts are those of placement `l`. */
    ghost predicate Holds(l: Placement, n: nat)
      reads this, value, startAddr, alignBytes
      requires Valid()
    {
      && placed == n <= |p.insns| && |l.counts| == n
      && startAddr[..n] == l.addrs && alignBytes[..n] == l.aligns
      && lookup == l.scope && used == l.used
      && AmountsHeld(value[..], l.counts)
    }

    /** After `n` instructions: no error so far exactly when the placement on values exists, and
        then the fields hold it. */
    ghost predicate Tracks(n: nat, next: u32, bss: u32)
      reads this, value, startAddr, alignBytes
      requires Valid() && n <= |p.insns|
    {
      && (errors == 0 <==> Pass1(p, n).Some?)
      && (errors == 0 ==>
        var l := Pass1(p, n).value;
        Holds(l, n) && next == l.next && bss == l.bss)
    }

    ghost predicate AmountsHeld(values: seq<u32>, counts: seq<u32>)
      requires p.Valid() && |values| == |p.world.nodes| && |counts| <= |p.insns|
    {
      forall i :: 0 <= i < |counts| && p.insns[i].Reserve? ==> AmountHeld(values, i, counts[i])
    }

    ghost predicate AmountHeld(values: seq<u32>, i: nat, count: u32)
      requires p.Valid() && |values| == |p.world.nodes| && i < |p.insns| && p.insns[i].Reserve?
    {
      assert p.InsnValid(i);
      values[p.insns[i].amount] == count
    }

    /** Pass 1 reports no error exactly when the placement on values exists, and then leaves it in
        the instruction fields. */
    method RunPass1()
      requires Valid() && placed == 0 && used == {} && lookup == p.entryScope && errors == 0
      modifies this, value, startAddr, alignBytes
      ensures Valid() && output == old(output)
      ensures errors == 0 <==> Pass1(p, |p.insns|).Some?
      ensures errors == 0 ==>
        var l := Pass1(p, |p.insns|).value;
        Holds(l, |p.insns|) && endVa == l.next && bssVa == l.bss
    {
      var nextVa, bss := p.startVa, p.startVa;
      var i := 0;
      while i < |p.insns|
        invariant Valid() && i <= |p.insns| && placed == i && output == old(output)
        invariant Tracks(i, nextVa, bss)
      {
        nextVa, bss := PlaceInsn(i, nextVa, bss);
        i := i + 1;
      }
      endVa, bssVa := nextVa, bss;
    }

    /** Aligns the running address, switches the scope and records the instruction's address. */
    method EnterInsn(i: nat, next: u32) returns (start: u32)
      requires Valid() && i < |p.insns| && placed == i && p.InsnValid(i)
      modifies this`lookup, this`placed, startAddr, alignBytes
      ensures Valid() && placed == i + 1 && lookup == NextScope(old(lookup), p.insns[i])
      ensures start == AlignWord(next, AlignmentOf(p.insns[i]))
      ensures startAddr[..i + 1] == old(startAddr[..i]) + [start]
      ensures alignBytes[..i + 1] == old(alignBytes[..i]) + [Wrap(start - next)]
    {
      var insn := p.insns[i];
      start := next;
      if insn.Def? || insn.Reserve? {
        start := AlignWord(next, AlignmentOf(insn));
        alignBytes[i] := Wrap(start - next);
      }
      lookup := NextScope(lookup, insn);
      startAddr[i] := start;
      placed := placed + 1;
    }

    /** The fields after placing instruction `i` behind placement `l` hold the next placement. */
    lemma TracksNext(i: nat, l: Placement, start: u32, size: u32, nextVa: u32, bss: u32)
      requires Valid() && i < |p.insns| && placed == i + 1 && p.InsnValid(i) && Pass1(p, i) == Some(l)
      requires lookup == NextScope(l.scope, p.insns[i]) && start == AlignWord(l.next, AlignmentOf(p.insns[i]))
      requires startAddr[..i + 1] == l.addrs + [start] && alignBytes[..i + 1] == l.aligns + [Wrap(start - l.next)]
      requires nextVa == Wrap(start as int + size) && bss == if Allocates(p.insns[i]) then nextVa else l.bss
      requires
        var r := Amount(p, lookup, Addresses(), p.insns[i], l.used);
        && (r.Some? <==> errors == 0)
        && (r.Some? ==>
              && used == r.value.used && size == Wrap(SizeOf(p.insns[i], r.value.value))
              && AmountsHeld(value[..], l.counts + [r.value.value]))
      ensures Tracks(i + 1, nextVa, bss)
    {
      hide Amount, AlignWord, Wrap, SizeOf, NextScope, Allocates, AmountsHeld, Program.Valid, World.Valid, Pass1;
      InsnValidAt(p, i);
      Pass1Unfolds(p, i);
      if errors == 0 {
        var count := Amount(p, lookup, Addresses(), p.insns[i], l.used).value.value;
        WrapAdd(start, SizeOf(p.insns[i], count));
      }
    }

    /** One turn of the pass 1 loop. */
    method PlaceInsn(i: nat, next: u32, bss: u32) returns (nextVa: u32, bssVa': u32)
      requires Valid() && i < |p.insns| && placed == i && Tracks(i, next, bss)
      modifies this, value, startAddr, alignBytes
      ensures Valid() && placed == i + 1 && output == old(output)
      ensures Tracks(i + 1, nextVa, bssVa')
    {
      hide EvalOnce, Denote, Pass1, Place, AlignWord, Wrap, SizeOf, NextScope, Allocates, AmountsHeld, Amount;
      hide AmountHeld;
      hide World.Valid, World.ScopeValid, World.Ids, Program.Valid;
      InsnValidAt(p, i);
      Pass1Unfolds(p, i);
      ghost var before := Pass1(p, i);
      var start := EnterInsn(i, next);
      ghost var counts := if before.Some? then before.value.counts else [];
      var size := EstimateSize(i, counts);
      nextVa := Wrap(start as int + size);
      bssVa' := if Allocates(p.insns[i]) then nextVa else bss;
      if before.Some? {
        ghost var r := Amount(p, lookup, Addresses(), p.insns[i], before.value.used);
        if r.Some? {
          AmountsExtend(value[..], counts, r.value.value);
        }
        TracksNext(i, before.value, start, size, nextVa, bssVa');
      }
    }

    /** Evaluating instruction `i` leaves the other instructions' evaluated amounts alone. */
    lemma AmountsKept(i: nat, counts: seq<u32>, before: seq<u32>, after: seq<u32>)
      requires p.Valid() && i < |p.insns| && |before| == |after| == |p.world.nodes| && OthersKept(i, before, after)
      requires |counts| <= |p.insns| && (|counts| <= i || !p.insns[i].Reserve?)
      ensures AmountsHeld(before, counts) ==> AmountsHeld(after, counts)
    {
      forall j | AmountsHeld(before, counts) && 0 <= j < |counts| && p.insns[j].Reserve?
        ensures AmountHeld(after, j, counts[j])
      {
        assert p.InsnValid(j) && AmountHeld(before, j, counts[j]);
        assert OwnedElsewhere(i, p.insns[j].amount);
      }
    }

    lemma AmountsExtend(values: seq<u32>, counts: seq<u32>, count: u32)
      requires p.Valid() && |values| == |p.world.nodes| && |counts| < |p.insns| && AmountsHeld(values, counts)
      requires p.insns[|counts|].Reserve? ==> AmountHeld(values, |counts|, count)
      ensures AmountsHeld(values, counts + [count])
    {
      forall j | 0 <= j <= |counts| && p.insns[j].Reserve?
        ensures AmountHeld(values, j, (counts + [count])[j])
      {
        if j < |counts| {
          assert AmountHeld(values, j, counts[j]);
        }
      }
    }

    // ---------- Pass 2 ----------

    method OutputRepeated(b: u8, n: nat)
      modifies this`output
      ensures output == old(output) + Repeat(b, n)
    {
      var count := 0;
      while count < n
        invariant count <= n && output == old(output) + Repeat(b, count)
      {
        output := output + [b];
        count := count + 1;
        assert Repeat(b, count) == Repeat(b, count - 1) + [b];
      }
    }

    /** The data items of instruction `i`, evaluated and written in list order. */
    method EmitData(i: nat, w: nat, items: seq<nat>)
      requires Valid() && i < |p.insns| && p.insns[i] == Def(w, items) && p.InsnValid(i)
      modifies this`used, this`errors, this`output, value
      ensures Valid() && errors >= old(errors) && OthersKept(i, old(value[..]), value[..])
      ensures
        var r := EmitItems(p, lookup, Addresses(), w, items, old(used));
        && (r.Some? <==> errors == old(errors))
        && (r.Some? ==> used == r.value.used && output == old(output) + r.value.bytes)
    {
      hide EvalOnce, Denote, DataBytes;
      var k := 0;
      while k < |items|
        invariant Valid() && k <= |items| && errors >= old(errors) && OthersKept(i, old(value[..]), value[..])
        invariant
          var r := EmitItems(p, lookup, Addresses(), w, items[..k], old(used));
          && (r.Some? <==> errors == old(errors))
          && (r.Some? ==> used == r.value.used && output == old(output) + r.value.bytes)
      {
        assert items[..k + 1][..k] == items[..k] && items[..k + 1][k] == items[k];
        var ok := Evaluate(items[k]);
        output := output + DataBytes(w, value[items[k]]);
        k := k + 1;
      }
      assert items[..k] == items;
    }

    /** A machine instruction: its opcode byte and inline operand. */
    method EmitMachine(i: nat, op: Op, operand: nat, ghost l: Placement)
      requires Valid() && i < |p.insns| && p.insns[i] == Mach(op, operand) && p.InsnValid(i)
      requires PlacementOf(p, |p.insns|, l) && Addresses() == l.addrs && placed == |p.insns|
      modifies this`used, this`errors, this`output, value
      ensures Valid() && errors >= old(errors) && OthersKept(i, old(value[..]), value[..])
      ensures
        var r := EmitOne(p, l, i, lookup, old(used));
        && (r.Some? <==> errors == old(errors))
        && (r.Some? ==> used == r.value.used && output == old(output) + r.value.bytes)
    {
      hide EvalOnce, Denote, EncodeOperand, OpcodeByte, OperandBytes, TakesExpression, Repeat, World.Valid, EmitOne;
      MachineBytesOf(p, l, i, lookup, used);
      output := output + [OpcodeByte(op)];
      if TakesExpression(op) {
        var ok := Evaluate(operand);
        var bytes := EncodeOperand(op, value[operand], startAddr[i]);
        assert startAddr[i] == l.addrs[i];
        if bytes.None? {
          // Out of range: reported, and the byte is dropped or meaningless.
          errors := errors + 1;
        } else {
          output := output + bytes.value;
        }
      } else if op == NCALL {
        output := output + Le16(operand % 0x1_0000);
      }
    }

    /** The bytes of one instruction in the current scope. */
    method EmitBytes(i: nat, ghost l: Placement)
      requires Valid() && i < |p.insns| && p.InsnValid(i)
      requires PlacementOf(p, |p.insns|, l) && Addresses() == l.addrs && placed == |p.insns|
      requires alignBytes[..] == l.aligns && AmountsHeld(value[..], l.counts)
      modifies this`used, this`errors, this`output, value
      ensures Valid() && errors >= old(errors) && AmountsHeld(value[..], l.counts)
      ensures
        var r := EmitOne(p, l, i, lookup, old(used));
        && (r.Some? <==> errors == old(errors))
        && (r.Some? ==> used == r.value.used && output == old(output) + r.value.bytes)
    {
      hide EvalOnce, Denote, EmitItems, OpcodeByte, EncodeOperand;
      assert alignBytes[i] == l.aligns[i];
      match p.insns[i] {
        case Mach(op, operand) =>
          EmitMachine(i, op, operand, l);
        case Def(w, items) =>
          OutputRepeated(0xAA, alignBytes[i]);
          EmitData(i, w, items);
        case Text(bytes) =>
          output := output + bytes;
        case Reserve(w, amount) =>
          assert AmountHeld(value[..], i, l.counts[i]);
          OutputRepeated(0xAA, alignBytes[i]);
          OutputRepeated(0xCC, w * value[amount]);
        case _ =>
      }
      if !p.insns[i].Reserve? {
        AmountsKept(i, l.counts, old(value[..]), value[..]);
      }
    }

    /** Pass 2 on one instruction. It reports no error exactly when the emission on values exists,
        and then appends those bytes. */
    method EmitInsn(i: nat, ghost l: Placement)
      requires Valid() && i < |p.insns|
      requires PlacementOf(p, |p.insns|, l) && Addresses() == l.addrs && placed == |p.insns|
      requires alignBytes[..] == l.aligns && AmountsHeld(value[..], l.counts)
      modifies this`used, this`errors, this`output, this`lookup, value
      ensures Valid() && errors >= old(errors) && AmountsHeld(value[..], l.counts)
      ensures lookup == NextScope(old(lookup), p.insns[i])
      ensures
        var r := EmitOne(p, l, i, lookup, old(used));
        && (r.Some? <==> errors == old(errors))
        && (r.Some? ==> used == r.value.used && output == old(output) + r.value.bytes)
    {
      hide EmitOne;
      assert p.InsnValid(i);
      lookup := NextScope(lookup, p.insns[i]);
      EmitBytes(i, l);
    }

    // ---------- The image file ----------

    method HashName(name: string) returns (hash: u32)
      ensures hash == Image.HashName(name)
    {
      hash := 0;
      var i := 0;
      while i < |name|
        invariant i <= |name| && hash == Image.HashName(name[..i])
      {
        hash := Image.HashStep(hash, name[i]);
        i := i + 1;
        assert name[..i][..i - 1] == name[..i - 1];
      }
      assert name[..i] == name;
    }

    /** Emits instructions until the first one at or behind the bss boundary. */
    method EmitProgram(ghost l: Placement)
      requires Valid() && errors == 0 && placed == |p.insns|
      requires PlacementOf(p, |p.insns|, l) && Addresses() == l.addrs && alignBytes[..] == l.aligns
      requires AmountsHeld(value[..], l.counts) && lookup == l.scope && used == l.used && bssVa == l.bss
      modifies this`used, this`errors, this`output, this`lookup, value
      ensures Valid()
      ensures errors == 0 <==> Pass2(p, l, Cut(l)).Some?
      ensures errors == 0 ==> output == old(output) + Pass2(p, l, Cut(l)).value.out
    {
      hide EmitOne;
      var i := 0;
      while i < |p.insns| && startAddr[i] < bssVa
        invariant Valid() && i <= |p.insns| && AmountsHeld(value[..], l.counts)
        invariant Cut(l) == CutFrom(l, i)
        invariant errors == 0 <==> Pass2(p, l, i).Some?
        invariant errors == 0 ==>
          var e := Pass2(p, l, i).value;
          lookup == e.scope && used == e.used && output == old(output) + e.out
      {
        assert startAddr[i] == l.addrs[i];
        EmitInsn(i, l);
        i := i + 1;
      }
      assert i < |p.insns| ==> startAddr[i] == l.addrs[i];
    }

    method WriteHeader(entry: u32)
      requires Valid()
      modifies this`output
      ensures output == old(output)
        + Image.Header(Wrap(endVa - p.startVa), Wrap(bssVa - p.startVa), entry, |p.natives| % 0x1_0000)
    {
      hide Le32, Le16, Wrap;
      output := output + Image.SIGNATURE;
      output := output + Le32(Wrap(endVa - p.startVa));
      output := output + Le32(Wrap(bssVa - p.startVa));
      output := output + Le32(entry);
      output := output + Le16(|p.natives| % 0x1_0000);
      WriteFiller();
    }

    method WriteFiller()
      modifies this`output
      ensures output == old(output) + Image.Filler()
    {
      hide Le32, Le16;
      output := output + Le16(0xFFFF);
      output := output + Le32(0xFFFF);
      output := output + Le32(0xFFFF);
      output := output + Le32(0xFFFF);
    }

    method WriteNativeTable()
      requires Valid()
      modifies this`output
      ensures output == old(output) + Image.Hashes(p.natives)
    {
      var i := 0;
      while i < |p.natives|
        invariant i <= |p.natives| && output == old(output) + Image.Hashes(p.natives[..i])
      {
        var hash := HashName(p.natives[i]);
        output := output + Le32(hash);
        i := i + 1;
        assert p.natives[..i][..i - 1] == p.natives[..i - 1];
      }
      assert p.natives[..i] == p.natives;
    }

    /** The whole assembler: both passes and the image. It succeeds exactly when the image exists,
        and the output is then that image. */
    method Assemble() returns (ok: bool)
      requires Valid() && Image.StartIsLabel(p)
      requires placed == 0 && used == {} && lookup == p.entryScope && errors == 0 && output == []
      modifies this, value, startAddr, alignBytes
      ensures ok <==> Image.Generate(p).Some?
      ensures ok ==> output == Image.Generate(p).value
    {
      hide Pass1, Pass2, Image.Header, Image.Hashes;
      RunPass1();
      if errors > 0 {
        return false;
      }
      ghost var l := Pass1(p, |p.insns|).value;
      assert startAddr[..|p.insns|] == startAddr[..] && alignBytes[..|p.insns|] == alignBytes[..];
      var at := Image.StartLocation(p);
      if at.None? {
        return false;
      }
      WriteHeader(Wrap(startAddr[at.value] - p.startVa));
      EmitProgram(l);
      WriteNativeTable();
      ok := errors == 0;
    }
  }
}
