/** The two passes agree: every address pass 1 assigns is the offset of the bytes pass 2 emits. */
module Agreement {
  import opened Words
  import opened Opcodes
  import opened Expressions
  import opened Layout

  // ---------- Pass 1 without wrap-around ----------

  /** End of the first `i` instructions in unbounded arithmetic. */
  function Extent(p: Program, counts: seq<u32>, i: nat): int
    requires i <= |p.insns| == |counts|
  {
    if i == 0 then p.startVa
    else AlignUp(Extent(p, counts, i - 1), Aligned(p.insns[i - 1])) + SizeOf(p.insns[i - 1], counts[i - 1])
  }

  function Aligned(insn: Insn): (a: nat)
    ensures Alignment(a)
  {
    if Alignment(AlignmentOf(insn)) then AlignmentOf(insn) else 1
  }

  /** A finished, error-free pass 1 whose total size stays below 2^32. */
  ghost predicate Laid(p: Program, l: Placement) {
    && p.Valid()
    && Pass1(p, |p.insns|) == Some(l)
    && |l.counts| == |p.insns|
    && Extent(p, l.counts, |p.insns|) < 0x1_0000_0000
  }

  lemma {:induction false} ExtentMonotone(p: Program, counts: seq<u32>, i: nat, j: nat)
    requires i <= j <= |p.insns| == |counts|
    ensures p.startVa <= Extent(p, counts, i) <= Extent(p, counts, j)
    decreases j
  {
    if j > i {
      ExtentMonotone(p, counts, i, j - 1);
    } else if j > 0 {
      ExtentMonotone(p, counts, j - 1, j - 1);
    }
  }

  /** The placement of a prefix is the prefix of the placement. */
  lemma {:induction false} PrefixPlaced(p: Program, l: Placement, i: nat)
    requires p.Valid() && i <= |p.insns| && Pass1(p, |p.insns|) == Some(l)
    ensures Pass1(p, i).Some?
    ensures var m := Pass1(p, i).value;
      m.addrs == l.addrs[..i] && m.aligns == l.aligns[..i] && m.counts == l.counts[..i]
    decreases |p.insns| - i
  {
    hide Place;
    if i < |p.insns| {
      PrefixPlaced(p, l, i + 1);
      var m := Pass1(p, i).value;
      PlaceExtends(p, m, i);
      assert l.addrs[..i] == l.addrs[..i + 1][..i];
      assert l.aligns[..i] == l.aligns[..i + 1][..i];
      assert l.counts[..i] == l.counts[..i + 1][..i];
    }
  }

  lemma PlaceExtends(p: Program, l: Placement, i: nat)
    requires p.Valid() && i < |p.insns| && PlacementOf(p, i, l) && Place(p, l, i).Some?
    ensures var m := Place(p, l, i).value;
      && m.addrs[..i] == l.addrs && m.aligns[..i] == l.aligns && m.counts[..i] == l.counts
      && m.addrs[i] == AlignWord(l.next, Aligned(p.insns[i]))
      && m.aligns[i] == Wrap(m.addrs[i] - l.next)
      && m.next == Wrap(m.addrs[i] + SizeOf(p.insns[i], m.counts[i]))
      && m.bss == (if Allocates(p.insns[i]) then m.next else l.bss)
      && m.scope == NextScope(l.scope, p.insns[i])
      && (!p.insns[i].Reserve? ==> m.counts[i] == 0)
  {
    hide EvalOnce, AlignWord, SizeOf, Wrap, NextScope, Allocates;
    assert p.InsnValid(i);
  }

  /** One placement, when neither the padding nor the size wraps. */
  lemma PlaceWithoutWrap(p: Program, l: Placement, i: nat)
    requires p.Valid() && i < |p.insns| && PlacementOf(p, i, l) && Place(p, l, i).Some?
    requires var m := Place(p, l, i).value;
      AlignUp(l.next, Aligned(p.insns[i])) + SizeOf(p.insns[i], m.counts[i]) < 0x1_0000_0000
    ensures var m := Place(p, l, i).value;
      && m.addrs[i] == AlignUp(l.next, Aligned(p.insns[i]))
      && m.aligns[i] == m.addrs[i] - l.next
      && m.next == m.addrs[i] + SizeOf(p.insns[i], m.counts[i])
  {
    hide Place, AlignUp, AlignWord, SizeOf;
    PlaceExtends(p, l, i);
    AlignUpBound(l.next, Aligned(p.insns[i]));
    AlignWordIsAlignUp(l.next, Aligned(p.insns[i]));
  }

  lemma AlignUpBound(x: u32, a: int)
    requires Alignment(a) && AlignUp(x, a) < 0x1_0000_0000
    ensures x + a - 1 < 0x1_0000_0000
  {
  }

  /** Without wrap-around, pass 1's running address is the extent. */
  lemma {:induction false} NextIsExtent(p: Program, l: Placement, i: nat)
    requires Laid(p, l) && i <= |p.insns|
    ensures Pass1(p, i).Some? && Pass1(p, i).value.next == Extent(p, l.counts, i)
  {
    hide Place, AlignUp, SizeOf;
    PrefixPlaced(p, l, i);
    if i > 0 {
      NextIsExtent(p, l, i - 1);
      ExtentMonotone(p, l.counts, i, |p.insns|);
      assert l.counts[..i][i - 1] == l.counts[i - 1];
      PlaceWithoutWrap(p, Pass1(p, i - 1).value, i - 1);
    }
  }

  /** Instruction `i` sits at the extent before it, rounded up to its alignment. */
  lemma PlacedAtExtent(p: Program, l: Placement, i: nat)
    requires Laid(p, l) && i < |p.insns|
    ensures l.addrs[i] == AlignUp(Extent(p, l.counts, i), Aligned(p.insns[i]))
    ensures l.aligns[i] == l.addrs[i] - Extent(p, l.counts, i)
    ensures Extent(p, l.counts, i + 1) == l.addrs[i] + SizeOf(p.insns[i], l.counts[i])
  {
    hide Place, AlignUp, SizeOf;
    NextIsExtent(p, l, i);
    PrefixPlaced(p, l, i + 1);
    ExtentMonotone(p, l.counts, i + 1, |p.insns|);
    assert l.counts[..i + 1][i] == l.counts[i];
    assert l.addrs[..i + 1][i] == l.addrs[i] && l.aligns[..i + 1][i] == l.aligns[i];
    PlaceWithoutWrap(p, Pass1(p, i).value, i);
  }

  /** Data and reservations of width `w` start at multiples of `w`, behind less than `w` bytes of
      padding; nothing else is padded. */
  lemma DataAligned(p: Program, l: Placement, i: nat)
    requires Laid(p, l) && i < |p.insns|
    ensures p.insns[i].Def? || p.insns[i].Reserve? ==>
      p.insns[i].width > 0 && l.addrs[i] % p.insns[i].width == 0 && l.aligns[i] < p.insns[i].width
    ensures !p.insns[i].Def? && !p.insns[i].Reserve? ==> l.aligns[i] == 0
  {
    hide Pass1, Extent, AlignUp;
    PlacedAtExtent(p, l, i);
    assert p.InsnValid(i);
    AlignedMultiple(Extent(p, l.counts, i), Aligned(p.insns[i]));
  }

  /** Where the next instruction, or the end, would be without padding of its own. */
  function NextFrom(p: Program, l: Placement, i: nat): int
    requires |l.addrs| == |l.aligns| == |p.insns| && i < |p.insns|
  {
    if i + 1 < |p.insns| then l.addrs[i + 1] - l.aligns[i + 1] else l.next
  }

  /** Instructions follow each other: a machine instruction is its opcode byte and inline operand, a
      definition takes `w` bytes an item, a reservation `w` times its amount, a text its bytes. */
  lemma FollowsAt(p: Program, l: Placement, i: nat)
    requires Laid(p, l) && i < |p.insns|
    ensures |l.addrs| == |l.aligns| == |p.insns| && l.addrs[0] == p.startVa + l.aligns[0]
    ensures
      var insn, size := p.insns[i], NextFrom(p, l, i) - l.addrs[i];
      && (insn.Mach? ==> size == 1 + OperandBytes(insn.op))
      && (insn.Def? ==> size == insn.width * |insn.items|)
      && (insn.Text? ==> size == |insn.bytes|)
      && (insn.Reserve? ==> size == insn.width * l.counts[i])
      && (insn.ConstDef? || insn.SubStart? || insn.SubEnd? ==> size == 0)
  {
    hide Pass1, AlignUp;
    PlacedAtExtent(p, l, 0);
    PlacedAtExtent(p, l, i);
    if i + 1 < |p.insns| {
      PlacedAtExtent(p, l, i + 1);
    } else {
      NextIsExtent(p, l, i + 1);
    }
  }

  /** The amount of a reservation is what its expression means. */
  lemma ReservationCounted(p: Program, l: Placement, i: nat)
    requires Laid(p, l) && i < |p.insns| && p.insns[i].Reserve?
    ensures p.world.ScopeValid(ScopeAfter(p.insns, i + 1, p.entryScope)) && p.insns[i].amount < |p.world.nodes|
    ensures
      Denote(p.world, ScopeAfter(p.insns, i + 1, p.entryScope), l.addrs, p.insns[i].amount, {}) == Means(l.counts[i])
  {
    hide EvalOnce, Denote, Extent, Pass1;
    assert p.InsnValid(i);
    PrefixPlaced(p, l, i);
    PrefixPlaced(p, l, i + 1);
    Pass1Unfolds(p, i);
    PassesShareScopes(p, l, i);
    ScopesValid(p, |p.insns|, Global);
    ScopesValid(p, i + 1, p.entryScope);
    var m := Pass1(p, i).value;
    var scope := ScopeAfter(p.insns, i + 1, p.entryScope);
    var start := AlignWord(m.next, AlignmentOf(p.insns[i]));
    var amount := EvalOnce(p.world, scope, m.addrs + [start], p.insns[i].amount, m.used);
    EvaluationIsMeaning(p.world, scope, m.addrs + [start], p.insns[i].amount, m.used);
    assert Pass1(p, i + 1).value.addrs == m.addrs + [start] == l.addrs[..i + 1];
    assert l.counts[..i + 1][i] == amount.value.value;
    MeaningStable(p.world, scope, l.addrs[..i + 1], l.addrs, p.insns[i].amount, {});
  }

  lemma AddressesMonotone(p: Program, l: Placement, i: nat, j: nat)
    requires Laid(p, l) && i <= j < |p.insns|
    ensures l.addrs[i] <= l.addrs[j]
    ensures i < j ==> l.addrs[i] + SizeOf(p.insns[i], l.counts[i]) <= l.addrs[j]
  {
    PlacedAtExtent(p, l, i);
    PlacedAtExtent(p, l, j);
    if i < j {
      ExtentMonotone(p, l.counts, i + 1, j);
    }
  }

  // ---------- Scopes ----------

  /** Pass 1 looks names up in the scope reached by walking from where the parser stopped. */
  lemma {:induction false} Pass1Scope(p: Program, i: nat)
    requires p.Valid() && i <= |p.insns| && Pass1(p, i).Some?
    ensures Pass1(p, i).value.scope == ScopeAfter(p.insns, i, p.entryScope)
  {
    hide Place;
    if i > 0 {
      Pass1Scope(p, i - 1);
      PlaceExtends(p, Pass1(p, i - 1).value, i - 1);
    }
  }

  lemma {:induction false} Pass2Scope(p: Program, l: Placement, i: nat)
    requires p.Valid() && i <= |p.insns| && PlacementOf(p, |p.insns|, l) && Pass2(p, l, i).Some?
    ensures Pass2(p, l, i).value.scope == ScopeAfter(p.insns, i, l.scope)
  {
    hide EmitOne;
    if i > 0 {
      Pass2Scope(p, l, i - 1);
    }
  }

  predicate SetsScope(insn: Insn) {
    insn.SubStart? || insn.SubEnd?
  }

  /** Once a subroutine directive has been passed, where the walk began no longer matters. */
  lemma {:induction false} ScopeForgets(insns: seq<Insn>, n: nat, from: Scope, other: Scope)
    requires n <= |insns|
    ensures (exists k :: 0 <= k < n && SetsScope(insns[k])) ==>
      ScopeAfter(insns, n, from) == ScopeAfter(insns, n, other)
    ensures (forall k :: 0 <= k < n ==> !SetsScope(insns[k])) ==> ScopeAfter(insns, n, from) == from
  {
    if n > 0 {
      ScopeForgets(insns, n - 1, from, other);
    }
  }

  /** Pass 1 ends in the scope it began in, so both passes use the same scope everywhere. */
  lemma PassesShareScopes(p: Program, l: Placement, i: nat)
    requires p.Valid() && Pass1(p, |p.insns|) == Some(l) && i <= |p.insns|
    ensures l.scope == p.entryScope
    ensures Pass1(p, i).Some? && Pass1(p, i).value.scope == ScopeAfter(p.insns, i, p.entryScope)
    ensures Pass2(p, l, i).Some? ==> Pass2(p, l, i).value.scope == ScopeAfter(p.insns, i, p.entryScope)
  {
    Pass1Scope(p, |p.insns|);
    ScopeForgets(p.insns, |p.insns|, Global, p.entryScope);
    assert l.scope == p.entryScope;
    PrefixPlaced(p, l, i);
    Pass1Scope(p, i);
    if Pass2(p, l, i).Some? {
      Pass2Scope(p, l, i);
    }
  }

  /** The passes resolve names in the scope the parser defined them in, at every instruction,
      exactly when the last subroutine was closed or nothing precedes the first directive. */
  lemma ParserScopesAgree(p: Program)
    requires p.Valid()
    ensures (forall i :: 0 < i <= |p.insns| ==> ScopeAfter(p.insns, i, p.entryScope) == ScopeAfter(p.insns, i, Global))
      <==> p.entryScope == Global || SetsScope(p.insns[0])
  {
    if p.entryScope != Global {
      ScopeForgets(p.insns, |p.insns|, Global, Global);
      assert |p.insns| > 0;
      if SetsScope(p.insns[0]) {
        forall i | 0 < i <= |p.insns|
          ensures ScopeAfter(p.insns, i, p.entryScope) == ScopeAfter(p.insns, i, Global)
        {
          ScopeForgets(p.insns, i, p.entryScope, Global);
        }
      } else {
        assert ScopeAfter(p.insns, 0, p.entryScope) == p.entryScope && ScopeAfter(p.insns, 0, Global) == Global;
        assert NextScope(p.entryScope, p.insns[0]) == p.entryScope && NextScope(Global, p.insns[0]) == Global;
        assert ScopeAfter(p.insns, 1, p.entryScope) != ScopeAfter(p.insns, 1, Global);
      }
    }
  }

  // ---------- Pass 2 ----------

  /** An instruction's emitted bytes are its padding plus the size pass 1 reserved. */
  lemma EmitsItsSize(p: Program, l: Placement, i: nat, scope: Scope, used: set<nat>)
    requires Laid(p, l) && i < |p.insns| && p.world.ScopeValid(scope) && used <= p.world.Ids()
    requires EmitOne(p, l, i, scope, used).Some?
    ensures |EmitOne(p, l, i, scope, used).value.bytes| == l.aligns[i] + SizeOf(p.insns[i], l.counts[i])
  {
    hide EvalOnce, EmitItems, EncodeOperand, OpcodeByte, OperandBytes;
    assert p.InsnValid(i);
    PlacedAtExtent(p, l, i);
    if AlignmentOf(p.insns[i]) == 1 {
      assert l.aligns[i] == 0;
    }
    if p.insns[i].Mach? {
      PlainOperands(p.insns[i].op);
    }
  }

  lemma PlainOperands(op: Op)
    ensures !TakesExpression(op) ==> OperandBytes(op) == (if op == NCALL then 2 else 0)
  {
  }

  /** Two-pass agreement: before instruction `i` pass 2 has emitted exactly as many bytes as
      pass 1 laid out, so instruction `i` starts `align_bytes` before its address. */
  lemma {:induction false} EmittedUpTo(p: Program, l: Placement, i: nat)
    requires Laid(p, l) && i <= |p.insns| && Pass2(p, l, i).Some?
    ensures |Pass2(p, l, i).value.out| == Extent(p, l.counts, i) - p.startVa
    ensures i < |p.insns| ==> |Pass2(p, l, i).value.out| == l.addrs[i] - l.aligns[i] - p.startVa
  {
    hide EmitOne, SizeOf, AlignUp;
    if i < |p.insns| {
      PlacedAtExtent(p, l, i);
    }
    if i > 0 {
      EmittedUpTo(p, l, i - 1);
      PlacedAtExtent(p, l, i - 1);
      var e := Pass2(p, l, i - 1).value;
      EmitsItsSize(p, l, i - 1, NextScope(e.scope, p.insns[i - 1]), e.used);
    }
  }

  /** Later instructions only append. */
  lemma {:induction false} EmissionGrows(p: Program, l: Placement, i: nat, n: nat)
    requires p.Valid() && PlacementOf(p, |p.insns|, l) && i <= n <= |p.insns| && Pass2(p, l, n).Some?
    ensures Pass2(p, l, i).Some? && Pass2(p, l, i).value.out <= Pass2(p, l, n).value.out
    decreases n
  {
    hide EmitOne;
    if i < n {
      EmissionGrows(p, l, i, n - 1);
    }
  }

  /** Every instruction's bytes stand in the output at the offset of its pass 1 address. */
  lemma BytesAtAddress(p: Program, l: Placement, i: nat, n: nat)
    requires Laid(p, l) && i < n <= |p.insns| && Pass2(p, l, n).Some?
    ensures Pass2(p, l, i).Some? && Pass2(p, l, i + 1).Some?
    ensures p.world.ScopeValid(ScopeAfter(p.insns, i + 1, p.entryScope))
    ensures
      var e := Pass2(p, l, i).value;
      var b := EmitOne(p, l, i, ScopeAfter(p.insns, i + 1, p.entryScope), e.used);
      var from := l.addrs[i] - l.aligns[i] - p.startVa;
      && b.Some?
      && 0 <= from <= from + |b.value.bytes| <= |Pass2(p, l, n).value.out|
      && Pass2(p, l, n).value.out[from..from + |b.value.bytes|] == b.value.bytes
  {
    hide EmitOne;
    EmissionGrows(p, l, i, n);
    EmissionGrows(p, l, i + 1, n);
    EmittedUpTo(p, l, i);
    PassesShareScopes(p, l, i);
    assert p.InsnValid(i);
    var e, f, o := Pass2(p, l, i).value, Pass2(p, l, i + 1).value, Pass2(p, l, n).value.out;
    assert f.out == o[..|f.out|];
  }

  // ---------- The emission cut ----------

  ghost predicate Emits(p: Program, l: Placement) {
    Laid(p, l) && Pass2(p, l, Cut(l)).Some?
  }

  function Body(p: Program, l: Placement): seq<u8>
    requires Emits(p, l)
  {
    Pass2(p, l, Cut(l)).value.out
  }

  /** The bss boundary is the end of the last instruction that allocates. */
  lemma {:induction false} BssBoundary(p: Program, l: Placement, i: nat)
    requires Laid(p, l) && i <= |p.insns|
    ensures Pass1(p, i).Some?
    ensures (forall k :: 0 <= k < i ==> !Allocates(p.insns[k])) ==> Pass1(p, i).value.bss == p.startVa
    ensures forall k: nat :: LastAllocating(p, k, i) ==> Pass1(p, i).value.bss == Extent(p, l.counts, k + 1)
  {
    hide Place, Extent, Allocates;
    NextIsExtent(p, l, i);
    if i > 0 {
      BssBoundary(p, l, i - 1);
      PlaceExtends(p, Pass1(p, i - 1).value, i - 1);
      forall k: nat | LastAllocating(p, k, i)
        ensures Pass1(p, i).value.bss == Extent(p, l.counts, k + 1)
      {
        if k < i - 1 {
          assert LastAllocating(p, k, i - 1);
        }
      }
    }
  }

  ghost predicate LastAllocating(p: Program, k: nat, n: nat) {
    k < n <= |p.insns| && Allocates(p.insns[k]) && forall j :: k < j < n ==> !Allocates(p.insns[j])
  }

  lemma {:induction false} FindLastAllocating(p: Program, n: nat) returns (k: nat)
    requires n <= |p.insns| && exists j :: 0 <= j < n && Allocates(p.insns[j])
    ensures LastAllocating(p, k, n)
    ensures forall j :: 0 <= j < n && Allocates(p.insns[j]) ==> j <= k
  {
    if Allocates(p.insns[n - 1]) {
      k := n - 1;
    } else {
      k := FindLastAllocating(p, n - 1);
    }
  }

  /** Emission stops at a padded instruction with allocating ones still to come. */
  ghost predicate CutInsidePadding(p: Program, l: Placement) {
    Cut(l) < |l.aligns| && l.aligns[Cut(l)] > 0 && exists j :: Cut(l) <= j < |p.insns| && Allocates(p.insns[j])
  }

  /** Although emission stops at the first instruction at or behind the bss boundary, the body is
      exactly as long as the header says, unless the cut falls inside padding. */
  lemma BodyLength(p: Program, l: Placement)
    requires Emits(p, l)
    ensures |Body(p, l)| == l.bss - p.startVa <==> !CutInsidePadding(p, l)
    ensures |Body(p, l)| <= l.bss - p.startVa
  {
    hide Pass2, Pass1;
    var n, c := |p.insns|, Cut(l);
    EmittedUpTo(p, l, c);
    BssBoundary(p, l, n);
    if exists j :: 0 <= j < n && Allocates(p.insns[j]) {
      var k := FindLastAllocating(p, n);
      assert l.bss == Extent(p, l.counts, k + 1);
      PlacedAtExtent(p, l, k);
      if c <= k {
        AddressesMonotone(p, l, c, k);
        PlacedAtExtent(p, l, c);
        ExtentMonotone(p, l.counts, c + 1, k + 1);
      } else if k + 1 < c {
        PlacedAtExtent(p, l, k + 1);
      }
    } else {
      assert l.bss == p.startVa;
      if n > 0 {
        PlacedAtExtent(p, l, 0);
      }
    }
  }

  /** With no empty string literal the cut never falls inside padding. */
  lemma NonEmptyTextsFillBody(p: Program, l: Placement)
    requires Emits(p, l)
    requires forall i :: 0 <= i < |p.insns| && p.insns[i].Text? ==> |p.insns[i].bytes| > 0
    ensures |Body(p, l)| == l.bss - p.startVa
  {
    hide Pass2, Pass1;
    BodyLength(p, l);
    if CutInsidePadding(p, l) {
      var n, c := |p.insns|, Cut(l);
      var k := FindLastAllocating(p, n);
      BssBoundary(p, l, n);
      AddressesMonotone(p, l, c, k);
      PlacedAtExtent(p, l, k);
      assert p.InsnValid(k);
      AllocatesBytes(p, k, l.counts[k]);
    }
  }

  lemma AllocatesBytes(p: Program, k: nat, count: u32)
    requires p.Valid() && k < |p.insns| && p.InsnValid(k) && Allocates(p.insns[k])
    requires p.insns[k].Text? ==> |p.insns[k].bytes| > 0
    ensures SizeOf(p.insns[k], count) > 0
  {
  }

  /** Machine instructions are always in front of the cut. */
  lemma MachineBeforeCut(p: Program, l: Placement, i: nat)
    requires Laid(p, l) && i < |p.insns| && p.insns[i].Mach?
    ensures i < Cut(l)
  {
    hide Pass1, Pass2, OperandBytes, Extent, AlignUp;
    assert Allocates(p.insns[i]);
    var k := FindLastAllocating(p, |p.insns|);
    BssBoundary(p, l, |p.insns|);
    assert l.bss == Extent(p, l.counts, k + 1);
    PlacedAtExtent(p, l, i);
    ExtentMonotone(p, l.counts, i + 1, k + 1);
    if Cut(l) <= i {
      AddressesMonotone(p, l, Cut(l), i);
    }
  }
}
