/** Powers, and the facts about products, quotients and remainders that the other modules use. */
module Numbers {

  const WORD := 0x1_0000_0000

  function Power(base: int, n: nat): (p: int)
    requires base > 0
    ensures p > 0
  {
    if n == 0 then 1
    else
      NonNegative(base - 1, Power(base, n - 1));
      base * Power(base, n - 1)
  }

  lemma NonNegative(x: int, y: int)
    requires x >= 0 && y >= 0
    ensures x * y >= 0 && (x + 1) * y >= y
  {
  }

  lemma ProductAtLeast(a: int, b: int, c: int, d: int)
    requires a >= c >= 0 && b >= d >= 0
    ensures a * b >= c * d
  {
    NonNegative(a - c, b);
    NonNegative(c, b - d);
    assert (a - c) * b == a * b - c * b && c * (b - d) == c * b - c * d;
  }

  lemma Regroup(x: int, y: int, z: int)
    ensures x * (y * z) == x * y * z
  {
  }

  lemma {:induction false} PowerSum(base: int, a: nat, b: nat)
    requires base > 0
    ensures Power(base, a + b) == Power(base, a) * Power(base, b)
  {
    if a == 0 {
      assert Power(base, 0) == 1;
    } else {
      PowerSum(base, a - 1, b);
      assert Power(base, a) == base * Power(base, a - 1);
      assert Power(base, a + b) == base * Power(base, a - 1 + b);
      Regroup(base, Power(base, a - 1), Power(base, b));
    }
  }

  lemma PowerOfWord()
    ensures Power(2, 32) == WORD
  {
    assert Power(2, 8) == 0x100;
    PowerSum(2, 8, 8);
    PowerSum(2, 16, 16);
  }

  lemma Scale(k: int, b: int)
    requires b > 0
    ensures k >= 1 ==> k * b >= b
    ensures k >= 0 ==> k * b >= k
    ensures k <= -1 ==> k * b <= -b
  {
  }

  lemma ProductBound(x: int, y: int, m: int)
    requires -m <= x <= m && -m <= y <= m
    ensures -(m * m) <= x * y <= m * m
  {
    assert 0 <= (m - x) * (m + y) && 0 <= (m + x) * (m - y);
    assert 0 <= (m - x) * (m - y) && 0 <= (m + x) * (m + y);
    assert (m - x) * (m + y) + (m + x) * (m - y) == 2 * (m * m) - 2 * (x * y);
    assert (m - x) * (m - y) + (m + x) * (m + y) == 2 * (m * m) + 2 * (x * y);
  }

  lemma DivMod(a: int, b: int)
    requires b > 0
    ensures a == a / b * b + a % b && 0 <= a % b < b
  {
  }

  lemma QuotientFacts(a: int, b: int)
    requires a >= 0 && b > 0
    ensures a == a / b * b + a % b && 0 <= a % b < b && 0 <= a / b <= a
    ensures b >= 2 ==> a / b <= a / 2
  {
    var q := a / b;
    DivMod(a, b);
    Scale(q, b);
    assert b >= 2 ==> q * (b - 1) >= q by {
      if b >= 2 {
        Scale(q, b - 1);
      }
    }
    assert q * (b - 1) == q * b - q;
  }

  lemma FloorFacts(a: int, p: int)
    requires p > 0
    ensures a / p * p <= a < (a / p + 1) * p
    ensures a >= 0 ==> 0 <= a / p <= a
    ensures a < 0 ==> a <= a / p < 0
  {
    var q := a / p;
    DivMod(a, p);
    assert (q + 1) * p == q * p + p;
    if a >= 0 {
      QuotientFacts(a, p);
    } else {
      Scale(q, p);
      Scale(q - a + 1, p);
      Scale(-a, p);
      assert (q - a + 1) * p == q * p + (-a) * p + p;
    }
  }

  lemma UniqueRemainder(n: int, m: int, d: int, r: int)
    requires m > 0 && n == d * m + r && 0 <= r < m
    ensures n % m == r
  {
    var e := n / m;
    DivMod(n, m);
    assert (d - e) * m == n % m - r;
    Scale(d - e, m);
  }

  lemma ScaledRemainder(y: nat, p: int, q: int)
    requires p > 0 && q > 0
    ensures p * q > 0 && y * p % (p * q) == y % q * p
  {
    var d, r := y / q, y % q;
    DivMod(y, q);
    Scale(p, q);
    assert y * p == d * (p * q) + r * p by {
      assert (d * q + r) * p == d * q * p + r * p;
      Regroup(d, q, p);
      assert q * p == p * q;
    }
    NonNegative(r, p);
    Scale(q - r, p);
    assert (q - r) * p == q * p - r * p;
    UniqueRemainder(y * p, p * q, d, r * p);
  }

  lemma ScaledQuotient(r: int, p: int)
    requires p > 0
    ensures r * p / p == r
  {
    var e := r * p / p;
    DivMod(r * p, p);
    assert (r - e) * p == r * p % p;
    Scale(r - e, p);
  }

  lemma QuotientOfQuotient(x: nat, a: int, b: int)
    requires a > 0 && b > 0
    ensures a * b > 0 && x / (a * b) == x / a / b
  {
    var q := x / a / b;
    DivMod(x, a);
    DivMod(x / a, b);
    var r := x / a % b * a + x % a;
    Scale(a, b);
    assert x == q * (a * b) + r by {
      assert (q * b + x / a % b) * a == q * b * a + x / a % b * a;
      Regroup(q, b, a);
    }
    NonNegative(x / a % b, a);
    Scale(b - x / a % b, a);
    assert (b - x / a % b) * a == b * a - x / a % b * a;
    UniqueRemainder(x, a * b, q, r);
    UniqueQuotient(x, a * b, q, r);
  }

  lemma UniqueQuotient(n: int, m: int, d: int, r: int)
    requires m > 0 && n == d * m + r && 0 <= r < m
    ensures n / m == d
  {
    DivMod(n, m);
    UniqueRemainder(n, m, d, r);
    assert (n / m - d) * m == 0;
    Scale(n / m - d, m);
  }
}
