/**
Order, precision and printing of decimals (backend-rs/src/fx.rs, `cmp_value`,
`significant_scale`, `to_text`, `to_text_trimmed`).
*/
module DecimalText {
  import opened Algebra
  import opened DigitStrings
  import opened Decimal

  // ----- numeric order

  datatype Ordering = Less | Equal | Greater

  function CompareNat(m: nat, n: nat): Ordering {
    if m < n then Less else if m == n then Equal else Greater
  }

  /** Lexicographic comparison of digit vectors. */
  function CompareDigits(a: seq<Digit>, b: seq<Digit>): Ordering
  {
    if |a| == 0 || |b| == 0 then CompareNat(|a|, |b|)
    else if a[0] != b[0] then CompareNat(a[0], b[0])
    else CompareDigits(a[1..], b[1..])
  }

  function Padded(a: Dec, scale: nat): seq<Digit>
    requires a.scale <= scale
  {
    if a.IsZero() then [0] else a.digits + Zeros(scale - a.scale)
  }

  /** `cmp_value`: pad to a common scale, then length first, then digit by digit. */
  function Compare(a: Dec, b: Dec): Ordering
  {
    var scale := if a.scale > b.scale then a.scale else b.scale;
    var x, y := Padded(a, scale), Padded(b, scale);
    if |x| != |y| then CompareNat(|x|, |y|) else CompareDigits(x, y)
  }

  lemma {:induction false} EqualLengthOrder(a: seq<Digit>, b: seq<Digit>)
    requires |a| == |b|
    ensures CompareDigits(a, b) == CompareNat(Num(a), Num(b))
  {
    if |a| > 0 {
      var p := Pow10(|a| - 1);
      assert a == [a[0]] + a[1..] && b == [b[0]] + b[1..];
      NumPrepend(a[0], a[1..]);
      NumPrepend(b[0], b[1..]);
      NumBound(a[1..]);
      NumBound(b[1..]);
      if a[0] < b[0] {
        LeadingDigit(a[0], b[0], p);
      } else if a[0] > b[0] {
        LeadingDigit(b[0], a[0], p);
      } else {
        EqualLengthOrder(a[1..], b[1..]);
      }
    }
  }

  lemma {:induction false} LeadingDigit(x: nat, y: nat, p: nat)
    requires x < y
    ensures x * p + p <= y * p
  {
    MulMonotone(x + 1, y, p);
  }

  lemma {:induction false} CanonicalOrder(x: seq<Digit>, y: seq<Digit>)
    requires IsCanonical(x) && IsCanonical(y)
    ensures |x| < |y| ==> Num(x) < Num(y)
  {
    if |x| < |y| {
      NumBound(x);
      NumLower(y);
      Pow10Monotone(|x|, |y| - 1);
    }
  }

  lemma {:induction false} PaddedValue(a: Dec, scale: nat)
    requires a.Canonical() && a.scale <= scale
    ensures IsCanonical(Padded(a, scale))
    ensures a.Value() == Num(Padded(a, scale)) as real / Pow10(scale) as real
  {
    hide Num, Pow10;
    if a.IsZero() {
      ZeroIsCanonicalZero(a.digits);
      ValueRescaled(a, scale - a.scale);
      MulZero(Pow10(scale - a.scale));
    } else {
      NumPadRight(a.digits, scale - a.scale);
      ValueRescaled(a, scale - a.scale);
    }
  }

  /** `cmp_value` is the order of the values. */
  lemma {:induction false} CompareIsNumeric(a: Dec, b: Dec)
    requires a.Canonical() && b.Canonical()
    ensures Compare(a, b) == Less <==> a.Value() < b.Value()
    ensures Compare(a, b) == Equal <==> a.Value() == b.Value()
    ensures Compare(a, b) == Greater <==> a.Value() > b.Value()
  {
    hide Num, Pow10, Dec.Value, CompareDigits, Padded;
    var scale := if a.scale > b.scale then a.scale else b.scale;
    var x, y := Padded(a, scale), Padded(b, scale);
    PaddedValue(a, scale);
    PaddedValue(b, scale);
    DivOrder(Num(x) as real, Num(y) as real, Pow10(scale) as real);
    DivOrder(Num(y) as real, Num(x) as real, Pow10(scale) as real);
    if |x| == |y| {
      EqualLengthOrder(x, y);
    } else {
      CanonicalOrder(x, y);
      CanonicalOrder(y, x);
    }
  }

  // ----- precision

  /** Whether the value is a whole number of `10^-k` units. */
  ghost predicate FitsDecimals(a: Dec, k: nat) {
    exists units: nat :: a.Value() == Units(units, k)
  }

  /** `units` counts of `10^-k`. */
  ghost function Units(units: nat, k: nat): real {
    units as real / Pow10(k) as real
  }

  function SignificantOf(ds: seq<Digit>, scale: nat): (s: nat)
    ensures s <= scale
  {
    if scale > 0 && |ds| > 0 && ds[|ds| - 1] == 0 then SignificantOf(ds[..|ds| - 1], scale - 1) else scale
  }

  /** `significant_scale`: decimals left after dropping trailing zeros. */
  function SignificantScale(a: Dec): (s: nat)
    ensures s <= a.scale
  {
    if a.IsZero() then 0 else SignificantOf(a.digits, a.scale)
  }

  /** The scan from the last digit computes it. */
  method ScanSignificantScale(a: Dec) returns (s: nat)
    ensures s == SignificantScale(a)
  {
    if a.IsZero() {
      return 0;
    }
    s := a.scale;
    var end := |a.digits|;
    assert a.digits[..end] == a.digits;
    while s > 0 && end > 0 && a.digits[end - 1] == 0
      invariant 0 <= s && 0 <= end <= |a.digits|
      invariant SignificantOf(a.digits[..end], s) == SignificantOf(a.digits, a.scale)
    {
      assert a.digits[..end][..end - 1] == a.digits[..end - 1];
      s := s - 1;
      end := end - 1;
    }
  }

  lemma {:induction false} DropZeroValue(a: Dec)
    requires a.scale > 0 && |a.digits| > 0 && a.digits[|a.digits| - 1] == 0
    ensures a.Value() == Dec(a.digits[..|a.digits| - 1], a.scale - 1).Value()
  {
    ValueRescaled(Dec(a.digits[..|a.digits| - 1], a.scale - 1), 1);
    assert Pow10(1) == 10;
  }

  /** A nonzero value needs at most `k` decimals exactly when its significant scale says so. */
  lemma {:induction false} SignificantIsExact(a: Dec, k: nat)
    requires |a.digits| > 0 && a.digits[0] != 0
    ensures SignificantOf(a.digits, a.scale) <= k <==> FitsDecimals(a, k)
    decreases a.scale
  {
    if a.scale <= k {
      Fits(a, k);
    } else if a.digits[|a.digits| - 1] != 0 {
      LastDigitNeeded(a, k);
    } else {
      var b := Dec(a.digits[..|a.digits| - 1], a.scale - 1);
      DropZeroValue(a);
      SignificantIsExact(b, k);
      assert FitsDecimals(a, k) <==> FitsDecimals(b, k);
    }
  }

  lemma {:induction false} Fits(a: Dec, k: nat)
    requires a.scale <= k
    ensures FitsDecimals(a, k)
  {
    ValueRescaled(a, k - a.scale);
    var units := Num(a.digits) * Pow10(k - a.scale);
    assert a.Value() == Units(units, k);
  }

  lemma {:induction false} LastDigitNeeded(a: Dec, k: nat)
    requires |a.digits| > 0 && a.digits[|a.digits| - 1] != 0 && k < a.scale
    ensures !FitsDecimals(a, k)
  {
    if FitsDecimals(a, k) {
      hide Pow10, Num, Dec.Value;
      var units: nat :| a.Value() == Units(units, k);
      var j := a.scale - k;
      ScaledUnits(a, units, k);
      NextPower(j - 1);
      Shift(units, Pow10(j - 1));
      LastDigit(a.digits);
      assert false;
    }
  }

  lemma {:induction false} ScaledUnits(a: Dec, units: nat, k: nat)
    requires k <= a.scale && a.Value() == Units(units, k)
    ensures Num(a.digits) == units * Pow10(a.scale - k)
  {
    hide Pow10, Num;
    var j := a.scale - k;
    Pow10Add(k, j);
    MulAsReal(Pow10(k), Pow10(j));
    MulAsReal(units, Pow10(j));
    DivCancel(units as real, Pow10(k) as real, Pow10(j) as real);
    DivOrder(Num(a.digits) as real, (units * Pow10(j)) as real, Pow10(a.scale) as real);
  }

  lemma {:induction false} LastDigit(ds: seq<Digit>)
    requires |ds| > 0
    ensures Num(ds) % 10 == ds[|ds| - 1]
  {
  }

  lemma {:induction false} SignificantScaleIsExact(a: Dec, k: nat)
    requires a.Canonical()
    ensures SignificantScale(a) <= k <==> FitsDecimals(a, k)
  {
    if a.IsZero() {
      ZeroIsCanonicalZero(a.digits);
      ZeroFits(a, k);
    } else {
      NumOne(a.digits[0]);
      assert a.digits[0] != 0 by {
        if |a.digits| == 1 {
          assert a.digits == [a.digits[0]];
        }
      }
      SignificantIsExact(a, k);
    }
  }

  lemma {:induction false} ZeroFits(a: Dec, k: nat)
    requires Num(a.digits) == 0
    ensures FitsDecimals(a, k)
  {
    assert a.Value() == 0.0;
    assert a.Value() == Units(0, k);
  }

  // ----- printing

  /** The last `k` digits of a number. */
  function FixedDigits(n: nat, k: nat): (ds: seq<Digit>)
    ensures |ds| == k
  {
    if k == 0 then [] else FixedDigits(n / 10, k - 1) + [n % 10]
  }

  /** The part above the decimal point. */
  function IntegerPart(a: Dec): nat {
    QuotientNonNegative(Num(a.digits), Pow10(a.scale));
    Num(a.digits) / Pow10(a.scale)
  }

  /** Integer part without padding, then exactly `scale` decimals. */
  function TextOf(a: Dec): string
  {
    if a.scale == 0 then Text(Digits(Num(a.digits)))
    else Text(Digits(IntegerPart(a))) + "." + Text(FixedDigits(Num(a.digits), a.scale))
  }

  lemma {:induction false} FixedValue(n: nat, k: nat)
    ensures Num(FixedDigits(n, k)) == n % Pow10(k)
  {
    if k > 0 {
      FixedValue(n / 10, k - 1);
      var p := Pow10(k - 1);
      assert FixedDigits(n, k)[..k - 1] == FixedDigits(n / 10, k - 1);
      TenParts(n, p);
    }
  }

  lemma {:induction false} TenParts(n: nat, p: nat)
    requires p > 0
    ensures n % (10 * p) == 10 * (n / 10 % p) + n % 10
  {
    var q, r := n / 10 / p, n / 10 % p;
    assert n == 10 * (q * p + r) + n % 10;
    Shift(q, p);
    assert 10 * r + n % 10 < 10 * p;
    QuotientSame(n, q, 10 * r + n % 10, 10 * p);
  }

  /** The text: a whole part without leading zeros, and after a point exactly as many decimals as the scale. */
  lemma {:induction false} TextShape(a: Dec) returns (whole: seq<Digit>, decimals: seq<Digit>)
    ensures IsCanonical(whole) && |decimals| == a.scale
    ensures TextOf(a) == Text(whole) + (if a.scale == 0 then "" else "." + Text(decimals))
    ensures Num(whole) * Pow10(a.scale) + Num(decimals) == Num(a.digits)
  {
    hide Num, Pow10, FixedDigits, Digits;
    whole, decimals := Digits(IntegerPart(a)), FixedDigits(Num(a.digits), a.scale);
    DigitsNum(IntegerPart(a));
    FixedValue(Num(a.digits), a.scale);
    if a.scale == 0 {
      PowerOfZero();
    }
    assert Text(whole) + "." + Text(decimals) == Text(whole) + ("." + Text(decimals));
    RemainderBelow(Num(a.digits), Pow10(a.scale));
  }

  lemma {:induction false} FixedUnique(ds: seq<Digit>, k: nat)
    requires k <= |ds|
    ensures FixedDigits(Num(ds), k) == ds[|ds| - k..]
  {
    if k > 0 {
      var init := ds[..|ds| - 1];
      FixedUnique(init, k - 1);
      assert ds[|ds| - k..] == init[|init| - (k - 1)..] + [ds[|ds| - 1]];
    }
  }

  lemma {:induction false} SplitQuotient(ds: seq<Digit>, k: nat)
    requires k <= |ds|
    ensures Num(ds) / Pow10(k) == Num(ds[..|ds| - k])
  {
    hide Num, Pow10;
    NumSplit(ds, k);
    QuotientIs(Num(ds), Num(ds[..|ds| - k]), Num(ds[|ds| - k..]), Pow10(k));
  }

  /** What `to_text` splits: at least `scale + 1` digits, no more leading zeros than that needs. */
  ghost predicate PaddedTo(padded: seq<Digit>, a: Dec) {
    |padded| > a.scale && Num(padded) == Num(a.digits) && IsCanonical(padded[..|padded| - a.scale])
  }

  lemma {:induction false} PaddedText(padded: seq<Digit>, a: Dec)
    requires a.scale > 0 && PaddedTo(padded, a)
    ensures TextOf(a) == Text(padded[..|padded| - a.scale]) + "." + Text(padded[|padded| - a.scale..])
  {
    hide Num, Pow10, Digits, FixedDigits;
    var k := a.scale;
    SplitQuotient(padded, k);
    CanonicalUnique(padded[..|padded| - k]);
    FixedUnique(padded, k);
  }

  lemma {:induction false} PaddingDone(padded: seq<Digit>, a: Dec)
    requires a.Canonical() && |padded| >= |a.digits| && padded == Zeros(|padded| - |a.digits|) + a.digits
    requires |padded| > a.scale && (|padded| > |a.digits| ==> |padded| == a.scale + 1)
    ensures PaddedTo(padded, a)
  {
    NumPadLeft(|padded| - |a.digits|, a.digits);
    if |padded| == |a.digits| {
      assert padded == a.digits;
      assert padded[..|padded| - a.scale][0] == a.digits[0];
    }
  }

  lemma {:induction false} PlainText(a: Dec)
    requires a.Canonical() && a.scale == 0
    ensures TextOf(a) == Text(a.digits)
  {
    CanonicalUnique(a.digits);
  }

  method ToText(a: Dec) returns (s: string)
    requires a.Canonical()
    ensures s == TextOf(a)
  {
    hide Num, Pow10, Digits, FixedDigits, PaddedTo, TextOf, Text;
    if a.scale == 0 {
      PlainText(a);
      return Text(a.digits);
    }
    var padded := a.digits;
    assert a.digits == Zeros(0) + a.digits;
    while |padded| <= a.scale
      invariant |padded| >= |a.digits| && padded == Zeros(|padded| - |a.digits|) + a.digits
      invariant |padded| > |a.digits| ==> |padded| <= a.scale + 1
      decreases a.scale - |padded|
    {
      assert [0] + padded == Zeros(|padded| + 1 - |a.digits|) + a.digits;
      padded := [0] + padded;
    }
    PaddingDone(padded, a);
    PaddedText(padded, a);
    var split := |padded| - a.scale;
    s := Text(padded[..split]) + "." + Text(padded[split..]);
  }

  // ----- trimmed printing

  const U64 := 0x1_0000_0000_0000_0000

  /** `Vec::truncate(len)` with the length computed on wrapping 64-bit integers. */
  function TruncateWrapping(ds: seq<Digit>, cut: nat): seq<Digit>
  {
    var keep := (|ds| - cut) % U64;
    if keep < |ds| then ds[..keep] else ds
  }

  function TrimTo(a: Dec, keep: nat): Dec
  {
    if a.scale > keep then
      var ds := TruncateWrapping(a.digits, a.scale - keep);
      Dec(if ds == [] then [0] else ds, keep)
    else a
  }

  ghost function KeptScale(a: Dec, min: nat): nat {
    var keep := if SignificantScale(a) > min then SignificantScale(a) else min;
    if a.scale > keep then keep else a.scale
  }

  /** The value written with `k` decimals. */
  ghost function Written(v: real, k: nat): Dec
    requires v >= 0.0
  {
    Dec(Digits(WholeUnits(v, Pow10(k))), k)
  }

  ghost function WholeUnits(v: real, p: nat): nat
    requires v >= 0.0
  {
    (v * p as real).Floor
  }

  /** The value of `a` written with no insignificant decimal past `min`. */
  ghost function Shown(a: Dec, min: nat): Dec
    requires a.Value() >= 0.0
  {
    Written(a.Value(), KeptScale(a, min))
  }

  method ToTextTrimmed(a: Dec, min: nat) returns (s: string)
    requires a.Canonical() && |a.digits| < U64 && a.scale < U64
    ensures a.Value() >= 0.0 && s == TextOf(Shown(a, min))
  {
    var significant := ScanSignificantScale(a);
    var keep := if significant > min then significant else min;
    TrimKeepsValue(a, keep);
    TrimmedIsShown(a, min);
    s := ToText(TrimTo(a, keep));
  }

  lemma {:induction false} BackFromQuotient(n: nat, p: nat, v: real)
    requires p > 0 && v == n as real / p as real && v >= 0.0
    ensures WholeUnits(v, p) == n
  {
    assert v * p as real == n as real;
  }

  lemma {:induction false} WrittenAtScale(d: Dec)
    requires d.Canonical()
    ensures d.Value() >= 0.0 && Written(d.Value(), d.scale) == d
  {
    hide Num, Pow10, Digits, Dec.Value, WholeUnits;
    ValueNonNegative(d);
    ValueOf(d);
    BackFromQuotient(Num(d.digits), Pow10(d.scale), d.Value());
    CanonicalUnique(d.digits);
  }

  lemma {:induction false} TrimmedIsShown(a: Dec, min: nat)
    requires a.Canonical() && |a.digits| < U64 && a.scale < U64
    ensures a.Value() >= 0.0
    ensures TrimTo(a, if SignificantScale(a) > min then SignificantScale(a) else min) == Shown(a, min)
  {
    hide Written, Num, Pow10, Digits, SignificantScale, Dec.Value, Dec.Canonical;
    ValueNonNegative(a);
    var keep := if SignificantScale(a) > min then SignificantScale(a) else min;
    TrimKeepsValue(a, keep);
    var d := TrimTo(a, keep);
    WrittenAtScale(d);
    assert d.scale == KeptScale(a, min);
  }

  /** Trimming keeps the value, drops only decimals it does not need, and never adds one. */
  lemma {:induction false} ShownKeepsValue(a: Dec, min: nat)
    requires a.Canonical() && |a.digits| < U64 && a.scale < U64
    ensures a.Value() >= 0.0 && Shown(a, min).Canonical() && Shown(a, min).Value() == a.Value()
    ensures Shown(a, min).scale <= a.scale
    ensures Shown(a, min).scale <= min || Shown(a, min).scale == SignificantScale(a)
  {
    hide Num, Pow10, Digits, SignificantScale, Dec.Value, Dec.Canonical;
    TrimmedIsShown(a, min);
    var keep := if SignificantScale(a) > min then SignificantScale(a) else min;
    TrimKeepsValue(a, keep);
  }

  lemma {:induction false} TrailingZeros(ds: seq<Digit>, scale: nat, keep: nat)
    requires |ds| > 0 && ds[0] != 0
    requires SignificantOf(ds, scale) <= keep <= scale
    ensures scale - keep < |ds|
    ensures Dec(ds, scale).Value() == Dec(ds[..|ds| - (scale - keep)], keep).Value()
    decreases scale
  {
    if scale == keep {
      assert ds[..|ds|] == ds;
    } else {
      var shorter := ds[..|ds| - 1];
      DropZeroValue(Dec(ds, scale));
      assert |shorter| > 0 && shorter[0] == ds[0];
      TrailingZeros(shorter, scale - 1, keep);
      assert shorter[..|shorter| - (scale - 1 - keep)] == ds[..|ds| - (scale - keep)];
    }
  }

  /** Cutting only insignificant zeros never changes the value, wrap-around included. */
  lemma {:induction false} TrimKeepsValue(a: Dec, keep: nat)
    requires a.Canonical() && |a.digits| < U64 && a.scale < U64
    requires SignificantScale(a) <= keep
    ensures TrimTo(a, keep).Canonical() && TrimTo(a, keep).Value() == a.Value()
  {
    if a.scale > keep {
      if a.IsZero() {
        var cut := a.scale - keep;
        assert TruncateWrapping([0], cut) == [] || TruncateWrapping([0], cut) == [0];
        ValueZero(a);
        ValueZero(Dec([0], keep));
      } else {
        NonZeroLead(a.digits);
        TrailingZeros(a.digits, a.scale, keep);
        assert TruncateWrapping(a.digits, a.scale - keep) == a.digits[..|a.digits| - (a.scale - keep)];
      }
    }
  }

  lemma {:induction false} NonZeroLead(ds: seq<Digit>)
    requires IsCanonical(ds) && ds != [0]
    ensures ds[0] != 0
  {
    if |ds| == 1 {
      assert ds == [ds[0]];
    }
  }

  /** `digits.len() - cut` is negative. */
  predicate Underflows(a: Dec, min: nat) {
    var keep := if SignificantScale(a) > min then SignificantScale(a) else min;
    a.scale > keep && a.scale - keep > |a.digits|
  }

  /** The length subtraction itself stays in range except for a zero kept with two or more spare decimals. */
  lemma {:induction false} TrimUnderflowsExactly(a: Dec, min: nat)
    requires a.Canonical()
    ensures Underflows(a, min) <==> a.IsZero() && a.scale > min + 1
  {
    var keep := if SignificantScale(a) > min then SignificantScale(a) else min;
    if !a.IsZero() && a.scale > keep {
      NonZeroLead(a.digits);
      TrailingZeros(a.digits, a.scale, keep);
    }
  }

  /** A total of no lines, trimmed to no decimals: two places cut from one digit. */
  lemma {:induction false} TrimUnderflowWitness()
    ensures ZERO_MONEY.Canonical() && Underflows(ZERO_MONEY, 0) && TrimTo(ZERO_MONEY, 0) == ZERO
  {
  }
}
