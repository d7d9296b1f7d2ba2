/** Multi-limb addition and subtraction: the carry-chain loops over 32-bit limbs, least
    significant first. */
module Limbs {
  import opened Numbers
  import opened Words

  /** The number a sequence of limbs stands for. */
  function Value(limbs: seq<u32>): int {
    if |limbs| == 0 then 0
    else Value(limbs[..|limbs| - 1]) + limbs[|limbs| - 1] * Power(WORD, |limbs| - 1)
  }

  lemma {:induction false} ValueBound(limbs: seq<u32>)
    ensures 0 <= Value(limbs) < Power(WORD, |limbs|)
  {
    if |limbs| > 0 {
      var n := |limbs| - 1;
      ValueBound(limbs[..n]);
      LimbBound(limbs[n], Power(WORD, n));
    }
  }

  lemma LimbBound(x: u32, p: int)
    requires p > 0
    ensures 0 <= x * p <= WORD * p - p
  {
    Scale(WORD - x, p);
    assert (WORD - x) * p == WORD * p - x * p;
  }

  /** Limb sequences of one length are determined by their value. */
  lemma {:induction false} ValueInjective(a: seq<u32>, b: seq<u32>)
    requires |a| == |b| && Value(a) == Value(b)
    ensures a == b
  {
    if |a| > 0 {
      var n := |a| - 1;
      ValueBound(a[..n]);
      ValueBound(b[..n]);
      TopLimb(Value(a[..n]), a[n], Value(b[..n]), b[n], Power(WORD, n));
      ValueInjective(a[..n], b[..n]);
      assert a == a[..n] + [a[n]] && b == b[..n] + [b[n]];
    }
  }

  lemma TopLimb(x: int, a: u32, y: int, b: u32, p: int)
    requires 0 <= x < p && 0 <= y < p && x + a * p == y + b * p
    ensures a == b && x == y
  {
    Scale(b - a, p);
    Scale(a - b, p);
    assert (b - a) * p == b * p - a * p && (a - b) * p == a * p - b * p;
  }

  lemma AddStep(front: int, lo: int, ro: int, x: u32, y: u32, carry: int, sum: u32, carry': int, p: int)
    requires front + carry * p == lo + ro
    requires sum + carry' * WORD == x + y + carry
    ensures front + sum * p + carry' * (WORD * p) == (lo + x * p) + (ro + y * p)
  {
    assert (sum + carry' * WORD) * p == sum * p + carry' * (WORD * p);
    assert (x + y + carry) * p == x * p + y * p + carry * p;
  }

  lemma SubStep(front: int, lo: int, ro: int, x: u32, y: u32, borrow: int, diff: u32, borrow': int, p: int)
    requires front == lo - ro + borrow * p
    requires diff == x - y - borrow + borrow' * WORD
    ensures front + diff * p == (lo + x * p) - (ro + y * p) + borrow' * (WORD * p)
  {
    assert (x - y - borrow + borrow' * WORD) * p == x * p - y * p - borrow * p + borrow' * (WORD * p);
  }

  lemma ValueOfNone()
    ensures Value([]) == 0 && Power(WORD, 0) == 1
  {
  }

  lemma ValueExtends(limbs: seq<u32>, i: nat)
    requires i < |limbs|
    ensures Value(limbs[..i + 1]) == Value(limbs[..i]) + limbs[i] * Power(WORD, i)
    ensures Power(WORD, i + 1) == WORD * Power(WORD, i)
  {
    assert limbs[..i + 1][..i] == limbs[..i];
  }

  /** Adds `n` limbs of two numbers. The result may share its array with either operand. */
  method Add(lo: array<u32>, ro: array<u32>, res: array<u32>, n: nat) returns (carry: int)
    requires 1 <= n <= lo.Length && n <= ro.Length && n <= res.Length
    modifies res
    ensures 0 <= carry <= 1
    ensures Value(res[..n]) + carry * Power(WORD, n) == Value(old(lo[..n])) + Value(old(ro[..n]))
    ensures res[n..] == old(res[n..])
  {
    hide Value, Power;
    ValueOfNone();
    ghost var a, b := lo[..], ro[..];
    assert res[..0] == a[..0] == b[..0] == [];
    carry := 0;
    var i, count := 0, n;
    while true
      invariant 0 <= i < n && count == n - i && 0 <= carry <= 1
      invariant forall k :: i <= k < lo.Length ==> lo[k] == a[k]
      invariant forall k :: i <= k < ro.Length ==> ro[k] == b[k]
      invariant res[n..] == old(res[n..])
      invariant Value(res[..i]) + carry * Power(WORD, i) == Value(a[..i]) + Value(b[..i])
      decreases count
    {
      var t := lo[i] + ro[i] + carry;
      AddStep(Value(res[..i]), Value(a[..i]), Value(b[..i]), lo[i], ro[i], carry, t % WORD, t / WORD, Power(WORD, i));
      ValueExtends(a, i);
      ValueExtends(b, i);
      ghost var before := res[..i];
      res[i] := t % WORD;
      carry := t / WORD;
      assert res[..i] == before;
      ValueExtends(res[..], i);
      assert res[..][..i + 1] == res[..i + 1] && res[..][..i] == res[..i];
      i, count := i + 1, count - 1;
      if count == 0 {
        break;
      }
    }
    assert a[..n] == old(lo[..n]) && b[..n] == old(ro[..n]);
  }

  /** Subtracts `n` limbs. The result may share its array with either operand. */
  method Sub(lo: array<u32>, ro: array<u32>, res: array<u32>, n: nat) returns (borrow: int)
    requires 1 <= n <= lo.Length && n <= ro.Length && n <= res.Length
    modifies res
    ensures 0 <= borrow <= 1
    ensures Value(res[..n]) == Value(old(lo[..n])) - Value(old(ro[..n])) + borrow * Power(WORD, n)
    ensures res[n..] == old(res[n..])
  {
    hide Value, Power;
    ValueOfNone();
    ghost var a, b := lo[..], ro[..];
    assert res[..0] == a[..0] == b[..0] == [];
    borrow := 0;
    var i, count := 0, n;
    while true
      invariant 0 <= i < n && count == n - i && 0 <= borrow <= 1
      invariant forall k :: i <= k < lo.Length ==> lo[k] == a[k]
      invariant forall k :: i <= k < ro.Length ==> ro[k] == b[k]
      invariant res[n..] == old(res[n..])
      invariant Value(res[..i]) == Value(a[..i]) - Value(b[..i]) + borrow * Power(WORD, i)
      decreases count
    {
      var t := lo[i] - ro[i] - borrow;
      var below := if t < 0 then 1 else 0;
      SubStep(Value(res[..i]), Value(a[..i]), Value(b[..i]), lo[i], ro[i], borrow, t + below * WORD, below,
              Power(WORD, i));
      ValueExtends(a, i);
      ValueExtends(b, i);
      ghost var before := res[..i];
      res[i] := t + below * WORD;
      borrow := below;
      assert res[..i] == before;
      ValueExtends(res[..], i);
      assert res[..][..i + 1] == res[..i + 1] && res[..][..i] == res[..i];
      i, count := i + 1, count - 1;
      if count == 0 {
        break;
      }
    }
    assert a[..n] == old(lo[..n]) && b[..n] == old(ro[..n]);
  }

  /** Subtracting the same operand undoes an addition limb for limb, and the borrow equals the
      carry. */
  lemma SubUndoesAdd(lo: seq<u32>, ro: seq<u32>, sum: seq<u32>, carry: int, diff: seq<u32>, borrow: int)
    requires |lo| == |ro| == |sum| == |diff| && 0 <= carry <= 1 && 0 <= borrow <= 1
    requires Value(sum) + carry * Power(WORD, |lo|) == Value(lo) + Value(ro)
    requires Value(diff) == Value(sum) - Value(ro) + borrow * Power(WORD, |lo|)
    ensures diff == lo && borrow == carry
  {
    ValueBound(lo);
    ValueBound(diff);
    hide Value, Power;
    CarryIsBorrow(Value(diff), Value(lo), carry, borrow, Power(WORD, |lo|));
    ValueInjective(diff, lo);
  }

  lemma CarryIsBorrow(d: int, l: int, carry: int, borrow: int, p: int)
    requires 0 <= d < p && 0 <= l < p && 0 <= carry <= 1 && 0 <= borrow <= 1
    requires d - l == borrow * p - carry * p
    ensures d == l && carry == borrow
  {
    if carry == 0 {
      assert carry * p == 0;
    } else {
      assert carry * p == p;
    }
    if borrow == 0 {
      assert borrow * p == 0;
    } else {
      assert borrow * p == p;
    }
  }

  /** Adding in place and subtracting the same operand leaves the array as it was. */
  method AddThenSub(x: array<u32>, y: array<u32>, n: nat)
    requires 1 <= n <= x.Length && n <= y.Length && x != y
    modifies x
    ensures x[..] == old(x[..])
  {
    ghost var lo, ro := x[..n], y[..n];
    var carry := Add(x, y, x, n);
    ghost var sum := x[..n];
    var borrow := Sub(x, y, x, n);
    SubUndoesAdd(lo, ro, sum, carry, x[..n], borrow);
    assert x[..] == x[..n] + x[n..];
    assert old(x[..]) == lo + old(x[n..]);
  }
}
