/**
Minimum and maximum, and the non-linear arithmetic of the other modules.

Every fact is stated on plain variables, so that a proof that needs one calls it by name
and stays linear itself:

- products of integers: distributing, regrouping, growing with a factor;
- quotients: uniqueness of quotient and remainder, cancelling a common factor;
- reals: exact quotients of integers, and rounding half up through `Floor`.
*/
module Algebra {

  function Min(a: int, b: int): int {
    if a < b then a else b
  }

  function Max(a: int, b: int): int {
    if a < b then b else a
  }

  function Power2(n: nat): (p: nat)
    ensures p > 0
  {
    if n == 0 then 1 else 2 * Power2(n - 1)
  }

  lemma {:induction false} MulDistribute(x: int, y: int, z: int)
    ensures x * (y + z) == x * y + x * z
  {
  }

  lemma {:induction false} MulSum(whole: int, x: int, y: int, n: int)
    requires whole == x + y
    ensures whole * n == x * n + y * n
  {
  }

  lemma {:induction false} Associate(x: int, y: int, z: int)
    ensures x * (y * z) == (x * y) * z
  {
  }

  lemma {:induction false} Interchange(a: int, b: int, c: int, d: int)
    ensures (a * b) * (c * d) == (a * c) * (b * d)
  {
    Associate(a * b, c, d);
    Associate(a * c, b, d);
    assert (a * b) * c == (a * c) * b;
  }

  lemma {:induction false} MulMonotone(x: nat, y: nat, k: nat)
    requires x <= y
    ensures x * k <= y * k
  {
  }

  lemma {:induction false} MulStrict(x: nat, y: nat, m: nat, n: nat)
    requires x < y && m < n
    ensures x * m < y * n
  {
    MulMonotone(x, y, m);
    assert y * m < y * n;
  }

  lemma {:induction false} Shift(n: int, p: int)
    ensures 10 * (n * p) == n * (10 * p)
  {
  }

  lemma {:induction false} MulZero(x: int)
    ensures x * 0 == 0 && 0 * x == 0
  {
  }

  lemma {:induction false} QuotientNonNegative(n: nat, p: nat)
    requires p > 0
    ensures n / p >= 0
  {
    var q, r := n / p, n % p;
    assert n == q * p + r && r < p;
  }

  lemma {:induction false} EuclidUnique(q: int, r: nat, q': int, r': nat, p: nat)
    requires r < p && r' < p && q * p + r == q' * p + r'
    ensures q == q'
  {
    MulSum(q, q', q - q', p);
    var d := q - q';
    assert d * p == r' - r;
    if d > 0 {
      MulMonotone(1, d, p);
    } else if d < 0 {
      MulMonotone(1, -d, p);
    }
  }

  lemma {:induction false} QuotientIs(n: nat, q: nat, r: nat, p: nat)
    requires r < p && n == q * p + r
    ensures n / p == q
  {
    assert n == (n / p) * p + n % p;
    EuclidUnique(q, r, n / p, n % p, p);
  }

  // ----- quotients of reals

  lemma {:induction false} DivCancel(n: real, d: real, k: real)
    requires d > 0.0 && k > 0.0
    ensures n / d == (n * k) / (d * k)
  {
    var q := n / d;
    assert q * d == n;
    assert q * (d * k) == (q * d) * k;
  }

  lemma {:induction false} DivTimesDiv(a: real, b: real, c: real, d: real)
    requires b > 0.0 && d > 0.0
    ensures (a / b) * (c / d) == (a * c) / (b * d)
  {
    var p, q := a / b, c / d;
    RealInterchange(p, b, q, d);
    assert a == p * b && c == q * d;
    QuotientUnique(p * q, b * d, a * c);
  }

  lemma {:induction false} RealInterchange(a: real, b: real, c: real, d: real)
    ensures (a * b) * (c * d) == (a * c) * (b * d)
  {
    assert (a * b) * (c * d) == ((a * b) * c) * d;
    assert (a * b) * c == (a * c) * b;
  }

  lemma {:induction false} QuotientUnique(q: real, d: real, n: real)
    requires d > 0.0 && n == q * d
    ensures n / d == q
  {
  }

  lemma {:induction false} DivOrder(a: real, b: real, d: real)
    requires d > 0.0
    ensures a < b <==> a / d < b / d
    ensures a == b <==> a / d == b / d
  {
    var p, q := a / d, b / d;
    assert p * d == a && q * d == b;
  }

  lemma {:induction false} MulAsReal(a: int, b: int)
    ensures (a * b) as real == a as real * b as real
  {
  }

  /** One column of an addition: `t` splits into a digit and a carry ten times as heavy. */
  lemma {:induction false} ColumnSum(p: int, x: int, y: int, carry: int, t: int)
    requires t == x + y + carry
    ensures p * (t % 10) + (10 * p) * (t / 10) == x * p + y * p + p * carry
  {
    MulSum(t, t % 10, 10 * (t / 10), p);
    Associate(10, t / 10, p);
    MulSum(t, x + y, carry, p);
    MulSum(x + y, x, y, p);
    assert (10 * p) * (t / 10) == 10 * ((t / 10) * p);
  }

  lemma {:induction false} ProperFraction(l: nat, p: nat)
    requires l < p
    ensures 0.0 <= l as real / p as real < 1.0
    ensures l as real / p as real >= 0.5 <==> 2 * l >= p
  {
    QuotientTimes(l as real, p as real);
    FractionBounds(l as real / p as real, l as real, p as real);
  }

  lemma {:induction false} FractionBounds(q: real, l: real, p: real)
    requires q * p == l && 0.0 <= l < p
    ensures 0.0 <= q < 1.0
    ensures q >= 0.5 <==> 2.0 * l >= p
  {
    CompareTimes(q, 0.0, p);
    CompareTimes(q, 1.0, p);
    CompareTimes(q, 0.5, p);
  }

  lemma {:induction false} PositiveTimes(d: real, k: real)
    requires d > 0.0 && k > 0.0
    ensures d * k > 0.0
  {
  }

  /** A positive factor keeps the order of two numbers. */
  lemma {:induction false} CompareTimes(a: real, b: real, k: real)
    requires k > 0.0
    ensures a < b <==> a * k < b * k
    ensures b < a <==> b * k < a * k
  {
    if a < b {
      PositiveTimes(b - a, k);
      assert (b - a) * k == b * k - a * k;
    } else if b < a {
      PositiveTimes(a - b, k);
      assert (a - b) * k == a * k - b * k;
    }
  }

  /** Rounding `n / p` half up when `n = k * p + l`. */
  lemma {:induction false} FloorHalf(n: nat, k: nat, l: nat, p: nat)
    requires p > 0 && l < p && n == k * p + l
    ensures (n as real / p as real + 0.5).Floor == k + (if 2 * l >= p then 1 else 0)
  {
    var q := l as real / p as real;
    ProperFraction(l, p);
    QuotientSum(n, k, l, p);
    assert n as real / p as real == k as real + q;
  }

  lemma {:induction false} QuotientSum(n: nat, k: nat, l: nat, p: nat)
    requires p > 0 && n == k * p + l
    ensures n as real / p as real == k as real + l as real / p as real
  {
    MulAsReal(k, p);
    DivSum(k as real * p as real, l as real, p as real);
    QuotientUnique(k as real, p as real, k as real * p as real);
  }

  lemma {:induction false} DivSum(x: real, y: real, d: real)
    requires d > 0.0
    ensures (x + y) / d == x / d + y / d
  {
    var p, q := x / d, y / d;
    assert p * d == x && q * d == y;
    QuotientUnique(p + q, d, x + y);
  }

  lemma {:induction false} RealMulMonotone(a: real, b: real, k: real)
    requires a <= b && k >= 0.0
    ensures a * k <= b * k
  {
  }

  lemma {:induction false} QuotientTimes(x: real, d: real)
    requires d > 0.0
    ensures (x / d) * d == x && (x >= 0.0 ==> x / d >= 0.0)
  {
  }

  // ----- powers of two

  lemma {:induction false} Power2Add(j: nat, k: nat)
    ensures Power2(j + k) == Power2(j) * Power2(k)
  {
    if j > 0 {
      Power2Add(j - 1, k);
      Associate(2, Power2(j - 1), Power2(k));
      assert Power2(j + k) == 2 * Power2(j - 1 + k);
    } else {
      assert 1 * Power2(k) == Power2(k);
    }
  }

  lemma {:induction false} RemainderBelow(x: nat, b: nat)
    requires b > 0
    ensures x == (x / b) * b + x % b && x % b < b
  {
  }

  /** Dividing twice is dividing by the product. */
  lemma {:induction false} DivideTwice(x: nat, a: nat, b: nat)
    requires a > 0 && b > 0 && a * b > 0
    ensures x / (a * b) == (x / a) / b
  {
    var y := x / a;
    var q, r := y / b, y % b;
    RemainderBelow(x, a);
    RemainderBelow(y, b);
    MulSum(y, q * b, r, a);
    Associate(q, b, a);
    RemainderFits(r, x % a, a, b);
    QuotientIs(x, q, r * a + x % a, a * b);
  }

  lemma {:induction false} RemainderFits(r: nat, s: nat, a: nat, b: nat)
    requires r < b && s < a
    ensures r * a + s < a * b
  {
    MulMonotone(r + 1, b, a);
    MulSum(r + 1, r, 1, a);
  }

  lemma {:induction false} QuotientSame(p: int, q: int, r: int, d: int)
    requires d > 0 && p == d * q + r && 0 <= r < d
    ensures p % d == r
  {
    EuclidUnique(p / d, p % d, q, r, d);
  }

  lemma {:induction false} MultipleRemainder(n: int, d: int, k: int)
    requires d > 0 && n == d * k
    ensures n % d == 0
  {
    QuotientSame(n, k, 0, d);
  }

  lemma {:induction false} Multiple(n: int, d: int)
    requires d > 0
    ensures n % d == 0 <==> exists k: int :: n == d * k
  {
    assert n % d == 0 ==> n == d * (n / d);
    if k: int :| n == d * k {
      MultipleRemainder(n, d, k);
    }
  }

  lemma {:induction false} ShiftRest(p: int, r: int, d: int, k: int)
    requires d > 0 && p == d * k + r
    ensures p % d == r % d
  {
    assert r == d * (r / d) + r % d;
    MulDistribute(d, k, r / d);
    QuotientSame(p, k + r / d, r % d, d);
  }

  lemma {:induction false} SameRest(p: int, d: int, e: int)
    requires d > 0 && e > 0
    ensures p % (d * e) % d == p % d
  {
    var whole, rest := p / (d * e), p % (d * e);
    Associate(d, e, whole);
    MultipleRemainder(d * (e * whole), d, e * whole);
    assert p == d * (e * whole) + rest;
    ShiftRest(p, rest, d, e * whole);
  }
}
