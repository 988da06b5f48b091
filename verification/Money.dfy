/**
The one rounding, the exact sum and the conversions built from them
(backend-rs/src/fx.rs, `round_money`, `add_money`, `convert`, `convert_line`,
`base_line_value`, `total`).
*/
module Money {
  import opened Algebra
  import opened DigitStrings
  import opened Decimal
  import opened DecimalMul
  import opened Sums
  import opened Wrappers

  // ----- rounding

  /** Cutting `drop` digits off and looking at the first of them is rounding half up. */
  lemma {:induction false} DroppedDigits(ds: seq<Digit>, drop: nat)
    requires 0 < drop <= |ds|
    ensures var up := if ds[|ds| - drop] >= 5 then 1 else 0;
            (Num(ds) as real / Pow10(drop) as real + 0.5).Floor == Num(ds[..|ds| - drop]) + up
  {
    hide Num, Pow10;
    var tail := ds[|ds| - drop..];
    NumSplit(ds, drop);
    FirstDigitDecides(tail);
    FloorHalf(Num(ds), Num(ds[..|ds| - drop]), Num(tail), Pow10(drop));
  }

  lemma {:induction false} FirstDigitDecides(tail: seq<Digit>)
    requires |tail| > 0
    ensures tail[0] >= 5 <==> 2 * Num(tail) >= Pow10(|tail|)
  {
    var rest, p := tail[1..], Pow10(|tail| - 1);
    assert tail == [tail[0]] + rest;
    NumPrepend(tail[0], rest);
    NumBound(rest);
    if tail[0] >= 5 {
      MulMonotone(5, tail[0], p);
    } else {
      MulMonotone(tail[0], 4, p);
    }
  }

  /** More dropped digits than there are: the value is below half a cent. */
  lemma {:induction false} DroppedAll(ds: seq<Digit>, drop: nat)
    requires drop > |ds|
    ensures (Num(ds) as real / Pow10(drop) as real + 0.5).Floor == 0
  {
    NumBound(ds);
    Pow10Monotone(|ds|, drop);
    FloorHalf(Num(ds), 0, Num(ds), Pow10(drop));
  }

  lemma {:induction false} CentsOfCoarse(a: Dec)
    requires a.scale <= 2
    ensures Cents(a.Value()) == Num(a.digits) * Pow10(2 - a.scale)
  {
    ValueRescaled(a, 2 - a.scale);
    assert Pow10(2) == 100;
  }

  lemma {:induction false} CentsOfFine(a: Dec)
    requires a.scale > 2
    ensures Cents(a.Value()) == (Num(a.digits) as real / Pow10(a.scale - 2) as real + 0.5).Floor
  {
    var p := Pow10(a.scale - 2);
    Pow10Add(2, a.scale - 2);
    assert Pow10(2) == 100;
    HundredTimes(Num(a.digits) as real, p as real);
  }

  lemma {:induction false} HundredTimes(n: real, p: real)
    requires p > 0.0
    ensures 100.0 * (n / (100.0 * p)) == n / p
  {
    var q := n / p;
    assert q * p == n;
    QuotientUnique(q / 100.0, 100.0 * p, n);
  }

  /** `n` trailing zeros below a head that has already been raised by one. */
  ghost function Raised(ds: seq<Digit>, i: nat): nat
    requires i <= |ds|
  {
    (Num(ds[..i]) + 1) * Pow10(|ds| - i)
  }

  /** Adds one unit in the last place, carrying through trailing nines. */
  method Increment(ds: seq<Digit>) returns (kept: seq<Digit>)
    requires |ds| > 0
    ensures Num(kept) == Num(ds) + 1
  {
    hide Num, Pow10, Raised;
    kept := ds;
    var i := |kept|;
    RaisedEnds(ds);
    assert ds[..|ds|] == ds;
    while true
      invariant 0 <= i <= |ds|
      invariant kept == ds[..i] + Zeros(|ds| - i)
      invariant Num(ds) + 1 == Raised(ds, i)
      decreases i
    {
      if i == 0 {
        kept := [1] + kept;
        assert kept == [1] + Zeros(|ds|);
        break;
      }
      i := i - 1;
      RaiseStep(ds, i);
      if kept[i] == 9 {
        kept := kept[i := 0];
        assert kept == ds[..i] + Zeros(|ds| - i);
      } else {
        kept := kept[i := kept[i] + 1];
        assert kept == ds[..i] + [ds[i] + 1] + Zeros(|ds| - (i + 1));
        break;
      }
    }
  }

  lemma {:induction false} RaisedEnds(ds: seq<Digit>)
    ensures Raised(ds, |ds|) == Num(ds) + 1
    ensures Raised(ds, 0) == Num([1] + Zeros(|ds|))
  {
    hide Num, Pow10;
    assert ds[..|ds|] == ds && ds[..0] == [];
    EmptyEnds();
    NumPadRight([1], |ds|);
    NumOne(1);
  }

  lemma {:induction false} EmptyEnds()
    ensures Num([]) == 0 && Pow10(0) == 1
  {
  }

  lemma {:induction false} RaiseStep(ds: seq<Digit>, i: nat)
    requires i < |ds|
    ensures ds[i] == 9 ==> Raised(ds, i + 1) == Raised(ds, i)
    ensures ds[i] < 9 ==> Raised(ds, i + 1) == Num(ds[..i] + [ds[i] + 1] + Zeros(|ds| - (i + 1)))
  {
    hide Pow10;
    var p, n := Pow10(|ds| - (i + 1)), Num(ds[..i]);
    assert ds[..i + 1][..i] == ds[..i];
    NextPower(|ds| - (i + 1));
    if ds[i] == 9 {
      Shift(n + 1, p);
      Associate(10, n + 1, p);
    } else {
      var head := ds[..i] + [ds[i] + 1];
      assert head[..i] == ds[..i];
      NumPadRight(head, |ds| - (i + 1));
    }
  }

  /** Half up to two decimals, whatever the number of digits dropped. */
  method RoundMoney(a: Dec) returns (r: Dec)
    requires a.Canonical()
    ensures a.Value() >= 0.0 && r == Rounded(a)
    ensures r.Canonical() && r.scale == 2 && r.Value() == Cents(a.Value()) as real / 100.0
  {
    hide Num, Digits;
    ValueNonNegative(a);
    RoundedIsNearest(a);
    if a.IsZero() {
      CentsOfZero(a);
      return Dec([0], 2);
    }
    if a.scale <= 2 {
      CentsOfCoarse(a);
      PaddedIsDigits(a.digits, 2 - a.scale);
      return Dec(a.digits + Zeros(2 - a.scale), 2);
    }
    CentsOfFine(a);
    var drop, len := a.scale - 2, |a.digits|;
    var firstDropped := if drop > len then 0 else a.digits[len - drop];
    var kept := if drop >= len then [0] else a.digits[..len - drop];
    if drop > len {
      DroppedAll(a.digits, drop);
      NumOne(0);
    } else {
      DroppedDigits(a.digits, drop);
      EmptyKept(a.digits, drop, kept);
    }
    if firstDropped >= 5 {
      kept := Increment(kept);
    }
    StripIsDigits(kept);
    r := Dec(StripLeadingZeros(kept), 2);
  }

  lemma {:induction false} CentsOfZero(a: Dec)
    requires a.IsZero()
    ensures a.Canonical() && Cents(a.Value()) == 0 && Digits(0) == [0]
  {
    NumOne(0);
    ZeroQuotient(Pow10(a.scale) as real);
  }

  lemma {:induction false} ZeroQuotient(d: real)
    requires d > 0.0
    ensures 0.0 / d == 0.0
  {
  }

  lemma {:induction false} EmptyKept(ds: seq<Digit>, drop: nat, kept: seq<Digit>)
    requires drop <= |ds| && kept == if drop >= |ds| then [0] else ds[..|ds| - drop]
    ensures Num(kept) == Num(ds[..|ds| - drop])
  {
    NumOne(0);
  }

  lemma {:induction false} PaddedIsDigits(ds: seq<Digit>, n: nat)
    requires IsCanonical(ds) && ds != [0]
    ensures Digits(Num(ds) * Pow10(n)) == ds + Zeros(n)
  {
    NumPadRight(ds, n);
    CanonicalUnique(ds + Zeros(n));
  }

  // ----- the exact sum

  ghost function Low(ds: seq<Digit>, k: nat): nat
  {
    if k <= |ds| then Num(ds[|ds| - k..]) else Num(ds)
  }

  function DigitAt(ds: seq<Digit>, k: nat): Digit
  {
    if k < |ds| then ds[|ds| - 1 - k] else 0
  }

  lemma {:induction false} LowNext(ds: seq<Digit>, k: nat)
    ensures Low(ds, k + 1) == DigitAt(ds, k) * Pow10(k) + Low(ds, k)
  {
    if k < |ds| {
      assert ds[|ds| - (k + 1)..] == [ds[|ds| - 1 - k]] + ds[|ds| - k..];
      NumPrepend(ds[|ds| - 1 - k], ds[|ds| - k..]);
    } else if k == |ds| {
      assert ds[|ds| - k..] == ds;
    }
  }

  lemma {:induction false} AddStep(out: seq<Digit>, carry: nat, a: seq<Digit>, b: seq<Digit>, t: nat)
    requires Columns(out, carry, a, b)
    requires t == DigitAt(a, |out|) + DigitAt(b, |out|) + carry
    ensures Columns(out + [t % 10], t / 10, a, b)
  {
    hide Num, Low, DigitAt, Pow10;
    var k := |out|;
    LowNext(a, k);
    LowNext(b, k);
    NumLEAppend(out, [t % 10]);
    assert NumLE([t % 10]) == t % 10 + 10 * NumLE([t % 10][1..]);
    ColumnSum(Pow10(k), DigitAt(a, k), DigitAt(b, k), carry, t);
    NextPower(k);
  }

  /** The columns added so far and the carry out of them hold the low ends of both numbers. */
  ghost predicate Columns(out: seq<Digit>, carry: nat, a: seq<Digit>, b: seq<Digit>) {
    NumLE(out) + Pow10(|out|) * carry == Low(a, |out|) + Low(b, |out|)
  }

  /** Column addition with a carry digit; every intermediate fits a byte. */
  method AddMoney(a: Dec, b: Dec) returns (r: Dec)
    requires a.Canonical() && b.Canonical() && a.scale == 2 && b.scale == 2
    ensures r == Sum(a, b)
    ensures r.Canonical() && r.Value() == a.Value() + b.Value()
  {
    hide Num, NumLE, Pow10, Digits, Columns, StripLeadingZeros, Dec.Value;
    SumIsExact(a, b);
    var n := if |a.digits| > |b.digits| then |a.digits| else |b.digits|;
    var out: seq<Digit> := [];
    var carry: nat := 0;
    ColumnsStart(a.digits, b.digits);
    while |out| < n
      invariant |out| <= n && carry <= 1
      invariant Columns(out, carry, a.digits, b.digits)
    {
      var t := DigitAt(a.digits, |out|) + DigitAt(b.digits, |out|) + carry;
      assert t < 256;
      AddStep(out, carry, a.digits, b.digits, t);
      out := out + [t % 10];
      carry := t / 10;
    }
    ColumnsEnd(out, carry, a.digits, b.digits);
    if carry > 0 {
      out := out + [carry];
    }
    CanonicalOfLE(out);
    r := Dec(StripLeadingZeros(Reversed(out)), 2);
  }

  lemma {:induction false} ColumnsStart(a: seq<Digit>, b: seq<Digit>)
    ensures Columns([], 0, a, b)
  {
  }

  lemma {:induction false} LowEnd(ds: seq<Digit>, n: nat)
    requires n >= |ds|
    ensures Low(ds, n) == Num(ds)
  {
    assert ds[|ds| - |ds|..] == ds;
  }

  lemma {:induction false} ColumnsEnd(out: seq<Digit>, carry: nat, a: seq<Digit>, b: seq<Digit>)
    requires carry <= 1 && |out| >= |a| && |out| >= |b|
    requires Columns(out, carry, a, b)
    ensures NumLE(if carry > 0 then out + [carry] else out) == Num(a) + Num(b)
  {
    hide Num, Pow10, Low;
    LowEnd(a, |out|);
    LowEnd(b, |out|);
    if carry > 0 {
      assert carry == 1;
      NumLEAppend(out, [1]);
      assert NumLE([1]) == 1 + 10 * NumLE([1][1..]);
    }
  }

  // ----- conversions

  /** What `Dec::parse` can return: below 10^30 with at most 40 decimals. */
  predicate InputSized(a: Dec) {
    a.Canonical() && |a.digits| <= 70 && a.scale <= 40
  }

  lemma {:induction false} ProductLength(a: Dec, b: Dec)
    requires a.Canonical() && b.Canonical()
    ensures Product(a, b).Canonical()
    ensures |Product(a, b).digits| <= |a.digits| + |b.digits|
    ensures Product(a, b).scale <= a.scale + b.scale
  {
    ProductIsExact(a, b);
    var r := Product(a, b);
    if !a.IsZero() && !b.IsZero() {
      hide Num, Pow10, Digits;
      DigitsNum(Num(a.digits) * Num(b.digits));
      ProductBound(a.digits, b.digits);
      if Num(r.digits) > 0 {
        LengthByPower(r.digits, |a.digits| + |b.digits|);
      } else {
        ZeroIsCanonicalZero(r.digits);
      }
    }
  }

  /** Every product of three in-range factors stays far inside the 32-bit accumulators. */
  lemma {:induction false} ThreeFactorsFit(a: Dec, b: Dec, c: Dec)
    requires InputSized(a) && InputSized(b) && InputSized(c)
    ensures FitsU32(a, b) && FitsU32(Product(a, b), c)
    ensures |Product(Product(a, b), c).digits| <= 210
  {
    ProductLength(a, b);
    ProductLength(Product(a, b), c);
  }

  method Convert(amount: Dec, rate: Dec) returns (r: Dec)
    requires InputSized(amount) && InputSized(rate)
    ensures r.Canonical() && r.scale == 2
    ensures r.Value() == Cents(amount.Value() * rate.Value()) as real / 100.0
  {
    hide Cents, Dec.Value, Product, Rounded;
    var exact := Mul(amount, rate);
    r := RoundMoney(exact);
  }

  /** Quantity times unit cost times rate, not rounded anywhere. */
  ghost function LineProduct(qty: Dec, unitCost: Dec, rate: Dec): real {
    qty.Value() * unitCost.Value() * rate.Value()
  }

  ghost function Cost(qty: Dec, unitCost: Dec): real {
    qty.Value() * unitCost.Value()
  }

  lemma {:induction false} TripleProduct(xy: real, x: real, y: real, z: real)
    requires xy == x * y
    ensures xy * z == x * y * z
  {
  }

  /** Exact until the single rounding. */
  method ConvertLine(qty: Dec, unitCost: Dec, rate: Dec) returns (r: Dec)
    requires InputSized(qty) && InputSized(unitCost) && InputSized(rate)
    ensures r.Canonical() && r.scale == 2
    ensures r.Value() == Cents(LineProduct(qty, unitCost, rate)) as real / 100.0
  {
    hide Cents, Dec.Value, Product, Rounded;
    ThreeFactorsFit(qty, unitCost, rate);
    var cost := Mul(qty, unitCost);
    var exact := Mul(cost, rate);
    TripleProduct(cost.Value(), qty.Value(), unitCost.Value(), rate.Value());
    assert exact.Value() == LineProduct(qty, unitCost, rate);
    r := RoundMoney(exact);
  }

  method BaseLineValue(qty: Dec, unitCost: Dec) returns (r: Dec)
    requires InputSized(qty) && InputSized(unitCost)
    ensures r.Canonical() && r.scale == 2
    ensures r.Value() == Cents(Cost(qty, unitCost)) as real / 100.0
  {
    hide Cents, Dec.Value, Product, Rounded;
    var exact := Mul(qty, unitCost);
    assert exact.Value() == Cost(qty, unitCost);
    r := RoundMoney(exact);
  }

  // ----- totals

  ghost predicate AllMoney(values: seq<Dec>) {
    forall i :: 0 <= i < |values| ==> values[i].Canonical() && values[i].scale == 2
  }

  ghost function SumOfValues(values: seq<Dec>): real {
    SumBy(values, (d: Dec) => d.Value())
  }

  method Total(values: seq<Dec>) returns (r: Dec)
    requires AllMoney(values)
    ensures r.Canonical() && r.scale == 2
    ensures r.Value() == SumOfValues(values)
  {
    r := ZERO_MONEY;
    CentsOfZero(r);
    ValueZero(r);
    var i := 0;
    while i < |values|
      invariant 0 <= i <= |values|
      invariant r.Canonical() && r.scale == 2 && r.Value() == SumOfValues(values[..i])
    {
      r := AddMoney(r, values[i]);
      assert values[..i + 1][..i] == values[..i];
      i := i + 1;
    }
    assert values[..i] == values;
  }

  /** Two totals over the same lines in any order are the same decimal, digit for digit. */
  lemma {:induction false} TotalIgnoresOrder(v: seq<Dec>, w: seq<Dec>, tv: Dec, tw: Dec)
    requires multiset(v) == multiset(w)
    requires tv.Canonical() && tv.scale == 2 && tv.Value() == SumOfValues(v)
    requires tw.Canonical() && tw.scale == 2 && tw.Value() == SumOfValues(w)
    ensures tv == tw
  {
    SumIgnoresOrder(v, w, (d: Dec) => d.Value());
    ValueDetermines(tv, tw);
  }

  /** An order line: in the base currency (no rate) or converted. */
  datatype Line = Line(qty: Dec, unitCost: Dec, rate: Option<Dec>) {
    predicate Sized() {
      InputSized(qty) && InputSized(unitCost) && (rate.Some? ==> InputSized(rate.value))
    }

    ghost function Exact(): real {
      if rate.Some? then LineProduct(qty, unitCost, rate.value)
      else Cost(qty, unitCost)
    }
  }

  ghost function ExactTotal(lines: seq<Line>): real
  {
    if |lines| == 0 then 0.0 else ExactTotal(lines[..|lines| - 1]) + lines[|lines| - 1].Exact()
  }

  ghost predicate Within(x: real, y: real, n: nat) {
    -0.005 * n as real <= x - y <= 0.005 * n as real
  }

  lemma {:induction false} OneMoreLine(v: real, exact: real, sum: real, total: real, n: nat)
    requires v == Cents(exact) as real / 100.0 && Within(sum, total, n)
    ensures Within(sum + v, total + exact, n + 1)
  {
  }

  method LineValue(l: Line) returns (v: Dec)
    requires l.Sized()
    ensures v.Canonical() && v.scale == 2
    ensures v.Value() == Cents(l.Exact()) as real / 100.0
  {
    hide Cents, Dec.Value, LineProduct, Cost;
    if l.rate.Some? {
      v := ConvertLine(l.qty, l.unitCost, l.rate.value);
    } else {
      v := BaseLineValue(l.qty, l.unitCost);
    }
  }

  /**
  Rounding once per line: the total of `n` lines is within half a cent per line of the
  unrounded total.
  */
  method TotalLines(lines: seq<Line>) returns (r: Dec)
    requires forall i :: 0 <= i < |lines| ==> lines[i].Sized()
    ensures r.Canonical() && r.scale == 2
    ensures Within(r.Value(), ExactTotal(lines), |lines|)
  {
    hide Cents, Dec.Value, Line.Exact;
    var values: seq<Dec> := [];
    var i := 0;
    while i < |lines|
      invariant 0 <= i <= |lines| && |values| == i
      invariant AllMoney(values)
      invariant Within(SumOfValues(values), ExactTotal(lines[..i]), i)
    {
      var v := LineValue(lines[i]);
      OneMoreLine(v.Value(), lines[i].Exact(), SumOfValues(values), ExactTotal(lines[..i]), i);
      assert lines[..i + 1][..i] == lines[..i];
      assert (values + [v])[..i] == values;
      values := values + [v];
      i := i + 1;
    }
    assert lines[..i] == lines;
    r := Total(values);
  }
}
