/** What the VM's handlers mean: arithmetic identities of the computing ones, and what a store to
    memory or to a local lets a later load see. */
module Handlers {
  import opened Numbers
  import opened Words
  import opened Opcodes
  import opened Machine

  lemma WordsOf(p: int)
    ensures 0 <= p < WORD * WORD ==> Wrap(p / WORD) * WORD + Wrap(p) == p
    ensures -(0x8000_0000 * WORD) <= p < 0x8000_0000 * WORD ==> Signed32(Wrap(p / WORD)) * WORD + Wrap(p) == p
  {
    assert p == p / WORD * WORD + p % WORD;
  }

  /** The two words pushed by a multiplication are the whole 64-bit product, top word first. */
  lemma ProductsMean(x: u32, y: u32)
    ensures var r := Compute(MULU, x, y);
      r.Push? && |r.values| == 2 && r.values[0] * WORD + r.values[1] == x * y
    ensures var r := Compute(MULS, x, y);
      r.Push? && |r.values| == 2 && Signed32(r.values[0]) * WORD + r.values[1] == Signed32(x) * Signed32(y)
  {
    ProductBound(x, y, WORD - 1);
    NonNegative(x, y);
    ProductBound(Signed32(x), Signed32(y), 0x8000_0000);
    WordsOf(x * y);
    WordsOf(Signed32(x) * Signed32(y));
  }

  lemma Unfolds(x: u32, y: u32)
    ensures Compute(DIVU, x, y) == Divide(x, y, x == 0)
    ensures Compute(DIVS, x, y) ==
      Divide(Signed32(x), Signed32(y), x == 0 || (x == 0xFFFF_FFFF && y == 0x8000_0000))
    ensures Compute(LSL, x, y) == Push([Wrap(y * Power(2, x % 32))])
    ensures Compute(LSR, x, y) == Push([Wrap(y / Power(2, x % 32))])
    ensures Compute(ASR, x, y) == Push([Wrap(Signed32(y) / Power(2, x % 32))])
  {
    hide Power;
  }

  lemma WrapIsRemainder(v: int)
    ensures Wrap(v) == v % WORD
  {
  }

  lemma SmallWraps(v: int)
    ensures 0 <= v < WORD ==> Wrap(v) == v
  {
  }

  /** Unsigned division pushes remainder and quotient, and traps exactly on a zero divisor. */
  lemma UnsignedDivisionMeans(x: u32, y: u32)
    ensures Compute(DIVU, x, y) == Halting(Fault) <==> x == 0
    ensures x != 0 ==>
      var r := Compute(DIVU, x, y);
      r.Push? && |r.values| == 2 && y == r.values[1] * x + r.values[0] && r.values[0] < x
  {
    Unfolds(x, y);
    hide Compute, Wrap;
    if x != 0 {
      QuotientFacts(y, x);
      Commutes(x, y / x);
      SmallWraps(y / x);
      SmallWraps(y % x);
    }
  }

  lemma Commutes(x: int, y: int)
    ensures x * y == y * x
  {
  }

  lemma Negated(q: int, y: int)
    ensures (-q) * y == -(q * y) && q * (-y) == -(q * y)
  {
  }

  lemma TruncatedFacts(x: int, y: int)
    requires y != 0
    ensures var q, r := TruncatedQuotient(x, y), TruncatedRemainder(x, y);
      && x == q * y + r
      && (r == 0 || (r > 0 <==> x > 0))
      && (y > 0 ==> -y < r < y) && (y < 0 ==> y < r < -y)
  {
    var a, b := if x < 0 then -x else x, if y < 0 then -y else y;
    var q, t := a / b, TruncatedQuotient(x, y);
    QuotientFacts(a, b);
    Negated(q, y);
    assert y * t == t * y;
    assert TruncatedRemainder(x, y) == x - t * y;
    assert t == if (x < 0) == (y < 0) then q else -q;
    hide TruncatedQuotient, TruncatedRemainder;
    if x < 0 {
      assert t * y == -(q * b);
    } else {
      assert t * y == q * b;
    }
  }

  lemma TruncatedBound(x: int, y: int)
    requires y != 0 && -0x8000_0000 <= x < 0x8000_0000 && !(x == -0x8000_0000 && y == -1)
    ensures -0x8000_0000 <= TruncatedQuotient(x, y) < 0x8000_0000
  {
    QuotientFacts(if x < 0 then -x else x, if y < 0 then -y else y);
  }

  lemma SignedWraps(v: int)
    requires -0x8000_0000 <= v < 0x8000_0000
    ensures Signed32(Wrap(v)) == v
  {
  }

  /** Signed division truncates toward zero, the remainder takes the dividend's sign, and it traps
      exactly on a zero divisor and on the one quotient that does not fit. */
  lemma SignedDivisionMeans(x: u32, y: u32)
    ensures Compute(DIVS, x, y) == Halting(Fault) <==> x == 0 || (Signed32(x) == -1 && Signed32(y) == -0x8000_0000)
    ensures Compute(DIVS, x, y) != Halting(Fault) ==>
      var d := Compute(DIVS, x, y);
      d.Push? && |d.values| == 2 &&
      var r, q, m := Signed32(d.values[0]), Signed32(d.values[1]), Signed32(x);
      && Signed32(y) == q * m + r
      && (r == 0 || (r > 0 <==> Signed32(y) > 0))
      && (m > 0 ==> -m < r < m) && (m < 0 ==> m < r < -m)
  {
    Unfolds(x, y);
    hide TruncatedQuotient, TruncatedRemainder, Compute;
    if Compute(DIVS, x, y) != Halting(Fault) {
      var q, r := TruncatedQuotient(Signed32(y), Signed32(x)), TruncatedRemainder(Signed32(y), Signed32(x));
      TruncatedFacts(Signed32(y), Signed32(x));
      TruncatedBound(Signed32(y), Signed32(x));
      SignedWraps(q);
      SignedWraps(r);
    }
  }

  /** What the i386 macros compute, the truncated product, is the documented low word of both
      multiplications. */
  lemma LowWordsAgree(x: u32, y: u32)
    ensures Compute(MULU, x, y).Push? && |Compute(MULU, x, y).values| == 2
    ensures Compute(MULS, x, y).Push? && |Compute(MULS, x, y).values| == 2
    ensures Compute(MULU, x, y).values[1] == Wrap(x * y) == Compute(MULS, x, y).values[1]
  {
    var a, b := if x < 0x8000_0000 then 0 else 1, if y < 0x8000_0000 then 0 else 1;
    var sx, sy: int := x - a * WORD, y - b * WORD;
    assert Signed32(x) == sx && Signed32(y) == sy;
    assert sx * sy == x * y + (a * b * WORD - a * y - b * x) * WORD by {
      assert (x - a * WORD) * (y - b * WORD) == x * y - x * (b * WORD) - a * WORD * y + a * WORD * (b * WORD);
    }
    WrapShift(x * y, a * b * WORD - a * y - b * x);
  }

  lemma SumUnfolds(x: u32, y: u32)
    ensures Compute(ADD, x, y) == Push([Wrap(y + x)]) && Compute(SUB, x, y) == Push([Wrap(y - x)])
  {
  }

  /** Subtraction undoes addition of the same operand, whatever wraps. */
  lemma SubUndoesAdd(x: u32, y: u32)
    ensures Compute(ADD, x, y).Push? && |Compute(ADD, x, y).values| == 1
    ensures Compute(SUB, x, Compute(ADD, x, y).values[0]) == Push([y])
  {
    SumUnfolds(x, y);
    SumUnfolds(x, Wrap(y + x));
    hide Compute, Wrap;
    WrapAdd(y + x, 0 - x as int);
    SmallWraps(y);
  }

  lemma ComparisonFlags(x: u32, y: u32)
    ensures Compute(CMP_LT, x, y) == Push([Flag(Signed32(x) < Signed32(y))])
    ensures Compute(CMP_GT, x, y) == Push([Flag(Signed32(x) > Signed32(y))])
    ensures Compute(CMP_B, x, y) == Push([Flag(x < y)])
    ensures Compute(CMP_A, x, y) == Push([Flag(x > y)])
    ensures Compute(CMP_EQ, x, y) == Push([Flag(y == x)])
  {
  }

  /** Exactly one of less, greater and equal holds, signed and unsigned; the two orders agree on
      operands of the same sign. */
  lemma ComparisonsMean(x: u32, y: u32)
    ensures exists lt: u32, gt: u32, b: u32, a: u32, eq: u32 ::
      && Compute(CMP_LT, x, y) == Push([lt]) && Compute(CMP_GT, x, y) == Push([gt])
      && Compute(CMP_B, x, y) == Push([b]) && Compute(CMP_A, x, y) == Push([a])
      && Compute(CMP_EQ, x, y) == Push([eq])
      && lt + gt + eq == 1 && b + a + eq == 1
      && (((x >= 0x8000_0000) == (y >= 0x8000_0000)) ==> lt == b && gt == a)
  {
    ComparisonFlags(x, y);
    hide Compute;
    var lt, gt, eq := Flag(Signed32(x) < Signed32(y)), Flag(Signed32(x) > Signed32(y)), Flag(y == x);
    var b, a := Flag(x < y), Flag(x > y);
    assert Compute(CMP_LT, x, y) == Push([lt]) && Compute(CMP_GT, x, y) == Push([gt]);
    assert Compute(CMP_B, x, y) == Push([b]) && Compute(CMP_A, x, y) == Push([a]);
  }

  // ---------- Shifts ----------

  /** Shifting left and back keeps the bits that were not shifted out: the low `32 - count`. */
  lemma ShiftBack(x: u32, y: u32)
    ensures Compute(LSL, x, y).Push? && |Compute(LSL, x, y).values| == 1
    ensures var r := Compute(LSR, x, Compute(LSL, x, y).values[0]);
      r.Push? && |r.values| == 1 && r.values[0] == y % Power(2, 32 - x % 32)
  {
    hide Power, Compute, Wrap;
    var p, q := Power(2, x % 32), Power(2, 32 - x % 32);
    var shifted := Wrap(y * p);
    Unfolds(x, y);
    Unfolds(x, shifted);
    PowerSum(2, x % 32, 32 - x % 32);
    PowerOfWord();
    WrapIsRemainder(y * p);
    ScaledRemainder(y, p, q);
    ScaledQuotient(y % q, p);
    QuotientFacts(y, q);
    NonNegative(y / q, q);
    SmallWraps(y % q);
  }

  /** Right shifts divide and round down, the arithmetic one on the signed value. */
  lemma RightShiftsRoundDown(x: u32, y: u32)
    ensures var r := Compute(LSR, x, y);
      r.Push? && |r.values| == 1 && r.values[0] * Power(2, x % 32) <= y < (r.values[0] + 1) * Power(2, x % 32)
    ensures var r := Compute(ASR, x, y);
      r.Push? && |r.values| == 1 &&
      Signed32(r.values[0]) * Power(2, x % 32) <= Signed32(y) < (Signed32(r.values[0]) + 1) * Power(2, x % 32)
  {
    Unfolds(x, y);
    hide Power, Compute, Wrap;
    var p := Power(2, x % 32);
    FloorFacts(y, p);
    FloorFacts(Signed32(y), p);
    SmallWraps(y / p);
    SignedWraps(Signed32(y) / p);
  }

  // ---------- Memory ----------

  /** Offset of address `a` from `addr`, around the end of the address space. */
  function Offset(a: u32, addr: u32): u32 {
    Wrap(a - addr)
  }

  lemma NextOffset(a: u32, addr: u32)
    ensures Offset(a, addr) == 0 <==> a == addr
    ensures a != addr ==> Offset(a, Wrap(addr + 1)) == Offset(a, addr) - 1
    ensures Offset(addr, Wrap(addr + 1)) == WORD - 1
  {
  }

  /** A store leaves every byte outside the stored range alone and maps nothing new. */
  lemma {:induction false} WriteKeepsOthers(mem: Memory, addr: u32, bytes: seq<u8>, a: u32)
    requires Write(mem, addr, bytes).Some? && |bytes| <= WORD
    ensures a in Write(mem, addr, bytes).value <==> a in mem
    ensures a in mem && Offset(a, addr) >= |bytes| ==> Write(mem, addr, bytes).value[a] == mem[a]
    decreases |bytes|
  {
    if |bytes| > 0 {
      NextOffset(a, addr);
      WriteKeepsOthers(mem[addr := bytes[0]], Wrap(addr + 1), bytes[1..], a);
    }
  }

  lemma {:induction false} SameMapped(mem: Memory, other: Memory, addr: u32, n: nat)
    requires mem.Keys == other.Keys
    ensures Read(mem, addr, n).Some? <==> Read(other, addr, n).Some?
    decreases n
  {
    if n > 0 {
      SameMapped(mem, other, Wrap(addr + 1), n - 1);
    }
  }

  /** The first byte of a store and of a load. */
  lemma FirstByte(mem: Memory, addr: u32, bytes: seq<u8>)
    requires |bytes| > 0
    ensures Write(mem, addr, bytes) ==
      if addr !in mem then None else Write(mem[addr := bytes[0]], Wrap(addr + 1), bytes[1..])
    ensures Read(mem, addr, |bytes|).Some? <==> addr in mem && Read(mem, Wrap(addr + 1), |bytes| - 1).Some?
    ensures
      addr in mem && mem[addr] == bytes[0] && Read(mem, Wrap(addr + 1), |bytes| - 1) == Some(bytes[1..]) ==>
        Read(mem, addr, |bytes|) == Some(bytes)
  {
    hide Wrap;
    assert bytes == [bytes[0]] + bytes[1..];
  }

  lemma NothingStored(mem: Memory, addr: u32)
    ensures Write(mem, addr, []) == Some(mem) && Read(mem, addr, 0) == Some([])
  {
  }

  /** What was stored is read back, and storing succeeds exactly where reading does. */
  lemma {:induction false} ReadsBack(mem: Memory, addr: u32, bytes: seq<u8>)
    requires |bytes| < WORD
    ensures Write(mem, addr, bytes).Some? <==> Read(mem, addr, |bytes|).Some?
    ensures Write(mem, addr, bytes).Some? ==> Read(Write(mem, addr, bytes).value, addr, |bytes|) == Some(bytes)
    decreases |bytes|
  {
    hide Wrap, Offset, Read, Write;
    if |bytes| == 0 {
      NothingStored(mem, addr);
    } else {
      FirstByte(mem, addr, bytes);
      if addr in mem {
        var m, next := mem[addr := bytes[0]], Wrap(addr + 1);
        ReadsBack(m, next, bytes[1..]);
        SameMapped(mem, m, next, |bytes| - 1);
        if Write(m, next, bytes[1..]).Some? {
          NextOffset(addr, addr);
          WriteKeepsOthers(m, next, bytes[1..], addr);
          FirstByte(Write(m, next, bytes[1..]).value, addr, bytes);
        }
      }
    }
  }

  // A load of the same width after a store yields the stored value, truncated to the width and
  // extended again as the load says; and the load faults exactly when the store does.

  lemma StoreThenLoadWord(imm: u32, x: u32, y: u32, z: u32, locals: Locals, mem: Memory)
    ensures var s := Act(STM_W, imm, x, y, locals, mem);
      if s.Update? then s.locals == locals && Act(LDM_W, imm, x, z, locals, s.mem) == Push([y])
      else s == Halting(Fault) && Act(LDM_W, imm, x, z, locals, mem) == Halting(Fault)
  {
    hide Read, Write, Le32, Fetch32;
    FetchInvertsStore32(y);
    ReadsBack(mem, x, Le32(y));
  }

  lemma StoreThenLoadHalf(imm: u32, x: u32, y: u32, z: u32, locals: Locals, mem: Memory)
    ensures var s := Act(STM_H, imm, x, y, locals, mem);
      if s.Update? then
        && s.locals == locals
        && Act(LDM_UH, imm, x, z, locals, s.mem) == Push([y % 0x1_0000])
        && Act(LDM_SH, imm, x, z, locals, s.mem) == Push([SignExtend16(y % 0x1_0000)])
      else s == Halting(Fault) && Act(LDM_UH, imm, x, z, locals, mem) == Halting(Fault)
  {
    hide Read, Write, Le16, Fetch16, SignExtend16;
    FetchInvertsStore16(y % 0x1_0000);
    ReadsBack(mem, x, Le16(y % 0x1_0000));
  }

  lemma StoreThenLoadByte(imm: u32, x: u32, y: u32, z: u32, locals: Locals, mem: Memory)
    ensures var s := Act(STM_B, imm, x, y, locals, mem);
      if s.Update? then
        && s.locals == locals
        && Act(LDM_UB, imm, x, z, locals, s.mem) == Push([y % 0x100])
        && Act(LDM_SB, imm, x, z, locals, s.mem) == Push([SignExtend8(y % 0x100)])
      else s == Halting(Fault) && Act(LDM_UB, imm, x, z, locals, mem) == Halting(Fault)
  {
    hide Read, Write, SignExtend8;
    ReadsBack(mem, x, [y % 0x100]);
  }

  // ---------- Locals ----------

  /** A stored local is loaded back, the others stay, and storing fails exactly when loading
      panics. */
  lemma LocalsRoundTrip(locals: Locals, i: u32, j: u32, v: u32, mem: Memory)
    ensures var s := StoreLocal(locals, i, v, mem);
      if s.Update? then
        && s.mem == mem && LoadLocal(s.locals, i) == Push([v])
        && (j != i ==> LoadLocal(s.locals, j) == LoadLocal(locals, j))
      else s.Halting? && s.halt.Panic? && LoadLocal(locals, i) == s
  {
  }

  /** LOCALS makes room for `n` locals with no value yet. */
  lemma FreshLocals(n: u32, x: u32, y: u32, locals: Locals, mem: Memory, j: u32)
    ensures var s := Act(LOCALS, n, x, y, locals, mem);
      s.Update? && s.mem == mem
      && LoadLocal(s.locals, j) == (if j < n then Halting(Undefined) else Halting(Panic(LocalOutOfBounds)))
  {
  }
}
