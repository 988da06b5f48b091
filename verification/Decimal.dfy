/** Exact non-negative decimals (backend-rs/src/fx.rs). */
module Decimal {
  import opened Algebra
  import opened DigitStrings

  // A canonical digit string over a power of ten. `Value` is the rational the string stands
  // for; every operation of the source is specified by the decimal whose value it must return.

  /** `digits / 10^scale`, most significant digit first. */
  datatype Dec = Dec(digits: seq<Digit>, scale: nat) {
    predicate Canonical() {
      IsCanonical(digits)
    }

    predicate IsZero() {
      digits == [0]
    }

    ghost function Value(): real {
      Num(digits) as real / Pow10(scale) as real
    }
  }

  datatype FxError = NotANumber | TooLarge | TooManyDecimals | RateOutOfRange | RateTooPrecise

  const ZERO := Dec([0], 0)
  const ZERO_MONEY := Dec([0], 2)

  // ----- specifications: the decimal an operation must return

  ghost function Product(a: Dec, b: Dec): Dec
  {
    if a.IsZero() || b.IsZero() then ZERO
    else Dec(Digits(Num(a.digits) * Num(b.digits)), a.scale + b.scale)
  }

  /** `100 * v` rounded half up: the cents of a money amount. */
  ghost function Cents(v: real): int
  {
    (100.0 * v + 0.5).Floor
  }

  ghost function Rounded(a: Dec): Dec
    requires a.Value() >= 0.0
  {
    Dec(Digits(Cents(a.Value())), 2)
  }

  ghost function Sum(a: Dec, b: Dec): Dec
  {
    Dec(Digits(Num(a.digits) + Num(b.digits)), 2)
  }

  // ----- values

  lemma {:induction false} ValueNonNegative(a: Dec)
    ensures a.Value() >= 0.0
  {
    var v, p := a.Value(), Pow10(a.scale) as real;
    assert v * p == Num(a.digits) as real;
  }

  /** The same value written with `k` more decimals. */
  lemma {:induction false} ValueRescaled(a: Dec, k: nat)
    ensures a.Value() == (Num(a.digits) * Pow10(k)) as real / Pow10(a.scale + k) as real
  {
    hide Pow10, Num;
    Pow10Add(a.scale, k);
    MulAsReal(Num(a.digits), Pow10(k));
    MulAsReal(Pow10(a.scale), Pow10(k));
    DivCancel(Num(a.digits) as real, Pow10(a.scale) as real, Pow10(k) as real);
  }

  lemma {:induction false} ValueOf(a: Dec)
    ensures a.Value() == Num(a.digits) as real / Pow10(a.scale) as real
  {
  }

  lemma {:induction false} ValueZero(a: Dec)
    requires a.Canonical()
    ensures a.Value() == 0.0 <==> a.IsZero()
  {
    ZeroIsCanonicalZero(a.digits);
    var v, p := a.Value(), Pow10(a.scale) as real;
    assert v * p == Num(a.digits) as real;
  }

  lemma {:induction false} QuotientProduct(m: nat, n: nat, s: nat, t: nat)
    ensures (m * n) as real / Pow10(s + t) as real
         == (m as real / Pow10(s) as real) * (n as real / Pow10(t) as real)
  {
    hide Pow10;
    Pow10Add(s, t);
    MulAsReal(m, n);
    MulAsReal(Pow10(s), Pow10(t));
    DivTimesDiv(m as real, Pow10(s) as real, n as real, Pow10(t) as real);
  }

  /** Multiplication is exact and keeps the canonical form. */
  lemma {:induction false} ProductIsExact(a: Dec, b: Dec)
    requires a.Canonical() && b.Canonical()
    ensures Product(a, b).Canonical()
    ensures Product(a, b).Value() == a.Value() * b.Value()
  {
    hide Pow10, Num, Digits, Dec.Value;
    if a.IsZero() || b.IsZero() {
      ValueZero(a);
      ValueZero(b);
      ValueZero(ZERO);
    } else {
      DigitsNum(Num(a.digits) * Num(b.digits));
      QuotientProduct(Num(a.digits), Num(b.digits), a.scale, b.scale);
      ValueOf(a);
      ValueOf(b);
      ValueOf(Product(a, b));
    }
  }

  /** A canonical decimal at a given scale is determined by its value. */
  lemma {:induction false} ValueDetermines(a: Dec, b: Dec)
    requires a.Canonical() && b.Canonical() && a.scale == b.scale
    requires a.Value() == b.Value()
    ensures a == b
  {
    DivOrder(Num(a.digits) as real, Num(b.digits) as real, Pow10(a.scale) as real);
    CanonicalUnique(a.digits);
    CanonicalUnique(b.digits);
  }

  lemma {:induction false} MoneyValue(cents: nat)
    ensures Dec(Digits(cents), 2).Canonical()
    ensures Dec(Digits(cents), 2).Value() == cents as real / 100.0
  {
    DigitsNum(cents);
    assert Pow10(2) == 100;
  }

  /** Rounding lands on the nearest cent: ties go up, nothing moves further than half a cent. */
  lemma {:induction false} RoundedIsNearest(a: Dec)
    requires a.Value() >= 0.0
    ensures Rounded(a).Canonical() && Rounded(a).scale == 2
    ensures -0.005 < Rounded(a).Value() - a.Value() <= 0.005
    ensures Rounded(a).Value() == Cents(a.Value()) as real / 100.0
  {
    MoneyValue(Cents(a.Value()));
  }

  lemma {:induction false} SumIsExact(a: Dec, b: Dec)
    requires a.scale == 2 && b.scale == 2
    ensures Sum(a, b).Canonical() && Sum(a, b).scale == 2
    ensures Sum(a, b).Value() == a.Value() + b.Value()
  {
    hide Num, Digits;
    MoneyValue(Num(a.digits) + Num(b.digits));
    assert Pow10(2) == 100;
  }
}
