/** Machine words of the 32-bit little-endian target: wrap-around, sign extension, bit
    operations and the byte order used both by the image writer and by the VM fetches. */
module Words {
  import opened Numbers

  type u8 = x: int | 0 <= x < 0x100
  type u16 = x: int | 0 <= x < 0x1_0000
  type u32 = x: int | 0 <= x < 0x1_0000_0000

  datatype Option<+T> = None | Some(value: T)

  function Wrap(x: int): u32 {
    x % 0x1_0000_0000
  }

  function Signed8(b: u8): int {
    if b < 0x80 then b else b - 0x100
  }

  function Signed32(x: u32): int {
    if x < 0x8000_0000 then x else x - 0x1_0000_0000
  }

  function SignExtend8(b: u8): u32 {
    Wrap(Signed8(b))
  }

  function SignExtend16(h: u16): u32 {
    Wrap(if h < 0x8000 then h else h - 0x1_0000)
  }

  /** Combines the low `n` bits of `a` and `b` bit by bit. */
  function Bitwise(f: (bool, bool) -> bool, n: nat, a: nat, b: nat): (r: nat)
    ensures r < Power(2, n)
  {
    if n == 0 then 0 else 2 * Bitwise(f, n - 1, a / 2, b / 2) + if f(a % 2 == 1, b % 2 == 1) then 1 else 0
  }

  /** Bit `k` of the combination is the combination of the bits `k`. */
  lemma {:induction false} BitwiseBit(f: (bool, bool) -> bool, n: nat, a: nat, b: nat, k: nat)
    requires k < n
    ensures Bitwise(f, n, a, b) / Power(2, k) % 2 ==
      if f(a / Power(2, k) % 2 == 1, b / Power(2, k) % 2 == 1) then 1 else 0
  {
    var r := Bitwise(f, n, a, b);
    var low := if f(a % 2 == 1, b % 2 == 1) then 1 else 0;
    assert r / 2 == Bitwise(f, n - 1, a / 2, b / 2) && r % 2 == low;
    if k == 0 {
      assert Power(2, 0) == 1;
    } else {
      BitwiseBit(f, n - 1, a / 2, b / 2, k - 1);
      HalfThen(r, k);
      HalfThen(a, k);
      HalfThen(b, k);
    }
  }

  /** The bits of a number above the lowest are the bits of its half. */
  lemma HalfThen(x: nat, k: nat)
    requires k > 0
    ensures x / Power(2, k) == x / 2 / Power(2, k - 1)
  {
    var p := Power(2, k - 1);
    assert Power(2, k) == 2 * p;
    QuotientOfQuotient(x, 2, p);
  }

  predicate Both(x: bool, y: bool) {
    x && y
  }

  predicate Either(x: bool, y: bool) {
    x || y
  }

  predicate OneOf(x: bool, y: bool) {
    x != y
  }

  function BitAnd(a: u32, b: u32): u32 {
    PowerOfWord();
    Bitwise(Both, 32, a, b)
  }

  function BitOr(a: u32, b: u32): u32 {
    PowerOfWord();
    Bitwise(Either, 32, a, b)
  }

  function BitXor(a: u32, b: u32): u32 {
    PowerOfWord();
    Bitwise(OneOf, 32, a, b)
  }

  /** The operations bit by bit. */
  lemma BitsMean(a: u32, b: u32, k: nat)
    requires k < 32
    ensures BitAnd(a, b) / Power(2, k) % 2 == a / Power(2, k) % 2 * (b / Power(2, k) % 2)
    ensures BitOr(a, b) / Power(2, k) % 2 == if a / Power(2, k) % 2 + b / Power(2, k) % 2 == 0 then 0 else 1
    ensures BitXor(a, b) / Power(2, k) % 2 == (a / Power(2, k) % 2 + b / Power(2, k) % 2) % 2
    ensures BitNot(a) / Power(2, k) % 2 == 1 - a / Power(2, k) % 2
  {
    hide *;
    BitsCombine(a, b, k);
    FlagSums(a / Power(2, k) % 2, b / Power(2, k) % 2);
    NotOfWord(a, k);
  }

  lemma BitsCombine(a: u32, b: u32, k: nat)
    requires k < 32
    ensures
      var x, y := a / Power(2, k) % 2, b / Power(2, k) % 2;
      && 0 <= x < 2 && 0 <= y < 2
      && BitAnd(a, b) / Power(2, k) % 2 == (if x == 1 && y == 1 then 1 else 0)
      && BitOr(a, b) / Power(2, k) % 2 == (if x == 1 || y == 1 then 1 else 0)
      && BitXor(a, b) / Power(2, k) % 2 == (if (x == 1) != (y == 1) then 1 else 0)
  {
    hide Power, Bitwise;
    BitwiseBit(Both, 32, a, b, k);
    BitwiseBit(Either, 32, a, b, k);
    BitwiseBit(OneOf, 32, a, b, k);
  }

  lemma FlagSums(x: int, y: int)
    requires 0 <= x < 2 && 0 <= y < 2
    ensures x * y == if x == 1 && y == 1 then 1 else 0
    ensures (x + y == 0) == !(x == 1 || y == 1)
    ensures (x + y) % 2 == if (x == 1) != (y == 1) then 1 else 0
  {
  }

  lemma NotOfWord(a: u32, k: nat)
    requires k < 32
    ensures BitNot(a) / Power(2, k) % 2 == 1 - a / Power(2, k) % 2
  {
    hide Power;
    PowerOfWord();
    NotBit(32, a, k);
  }

  lemma {:induction false} XorNothing(n: nat, a: nat)
    requires a < Power(2, n)
    ensures Bitwise(OneOf, n, a, 0) == a
  {
    if n > 0 {
      assert Power(2, n) == 2 * Power(2, n - 1);
      XorNothing(n - 1, a / 2);
    }
  }

  lemma {:induction false} NotBit(n: nat, a: nat, k: nat)
    requires k < n && a < Power(2, n)
    ensures (Power(2, n) - 1 - a) / Power(2, k) % 2 == 1 - a / Power(2, k) % 2
  {
    var r := Power(2, n) - 1 - a;
    var half := Power(2, n - 1);
    assert Power(2, n) == 2 * half;
    assert r / 2 == half - 1 - a / 2 && r % 2 == 1 - a % 2;
    if k == 0 {
      assert Power(2, 0) == 1;
    } else {
      NotBit(n - 1, a / 2, k - 1);
      HalfThen(r, k);
      HalfThen(a, k);
    }
  }

  function BitNot(a: u32): u32 {
    0xFFFF_FFFF - a
  }

  function Repeat<T>(x: T, n: nat): (s: seq<T>)
    ensures |s| == n
  {
    seq(n, _ => x)
  }

  /** The alignments in use: 2 and 4 in the assembler, 8 and 4096 in the allocator. */
  predicate Alignment(a: int) {
    a == 1 || a == 2 || a == 4 || a == 8 || a == 0x1000
  }

  /** Rounds up to a multiple of `a` without wrap-around. */
  function AlignUp(x: int, a: int): (r: int)
    requires a > 0
    ensures x <= r < x + a
  {
    x + a - 1 - (x + a - 1) % a
  }

  lemma AlignedToWord(x: int)
    ensures AlignUp(x, 4) % 4 == 0
  {
  }

  lemma AlignedToUnit(x: int)
    ensures AlignUp(x, 8) % 8 == 0
  {
  }

  lemma AlignedToPage(x: int)
    ensures AlignUp(x, 0x1000) % 0x1000 == 0
  {
  }

  lemma AlignedMultiple(x: int, a: int)
    requires Alignment(a)
    ensures AlignUp(x, a) % a == 0
  {
    if a == 4 {
      AlignedToWord(x);
    } else if a == 8 {
      AlignedToUnit(x);
    } else if a == 0x1000 {
      AlignedToPage(x);
    }
  }

  /** The source's ALIGN macros on a 32-bit operand: the sum wraps before the mask. */
  function AlignWord(x: u32, a: int): u32
    requires Alignment(a)
  {
    var s := Wrap(x + a - 1);
    s - s % a
  }

  lemma AlignWordIsAlignUp(x: u32, a: int)
    requires Alignment(a) && x + a - 1 < 0x1_0000_0000
    ensures AlignWord(x, a) == AlignUp(x, a)
  {
    assert Wrap(x + a - 1) == x + a - 1;
  }

  /** Byte order: least significant byte first. */
  function Le16(x: u16): seq<u8> {
    [x % 0x100, x / 0x100]
  }

  function Le32(x: u32): seq<u8> {
    [x % 0x100, x / 0x100 % 0x100, x / 0x1_0000 % 0x100, x / 0x100_0000]
  }

  function Fetch16(b: seq<u8>): u16
    requires |b| == 2
  {
    b[0] as int + 0x100 * b[1] as int
  }

  function Fetch32(b: seq<u8>): u32
    requires |b| == 4
  {
    b[0] as int + 0x100 * b[1] as int + 0x1_0000 * b[2] as int + 0x100_0000 * b[3] as int
  }

  lemma FetchInvertsStore16(x: u16)
    ensures |Le16(x)| == 2 && Fetch16(Le16(x)) == x
  {
  }

  lemma FetchInvertsStore32(x: u32)
    ensures |Le32(x)| == 4 && Fetch32(Le32(x)) == x
  {
    var a, b, c := x / 0x100, x / 0x1_0000, x / 0x100_0000;
    assert a / 0x100 == b && b / 0x100 == c;
    assert x == 0x100 * a + x % 0x100;
    assert a == 0x100 * b + a % 0x100;
    assert b == 0x100 * c + b % 0x100;
  }

  /** A two's-complement byte survives truncation when it is in range. */
  lemma ShortDisplacement(d: int)
    requires -128 <= d <= 127
    ensures Signed8(d % 0x100) == d
  {
  }

  lemma WrapShift(x: int, k: int)
    ensures Wrap(x + k * 0x1_0000_0000) == Wrap(x)
  {
    var q := x / 0x1_0000_0000;
    assert x == q * 0x1_0000_0000 + Wrap(x);
    assert x + k * 0x1_0000_0000 == (q + k) * 0x1_0000_0000 + Wrap(x);
  }

  lemma WrapAdd(x: int, y: int)
    ensures Wrap(Wrap(x) + y) == Wrap(x + y)
    ensures Wrap(x + Wrap(y)) == Wrap(x + y)
  {
    WrapShift(x + y, -(x / 0x1_0000_0000));
    WrapShift(x + y, -(y / 0x1_0000_0000));
  }

  lemma WrapSigned(x: u32, y: int)
    ensures Wrap(y + Signed32(x)) == Wrap(y + x)
  {
  }
}
