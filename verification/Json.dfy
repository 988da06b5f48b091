/** JSON values as both backends hold them; object fields keep their order. */
module Json {
  import opened Algebra
  import opened DigitStrings
  import opened Wrappers

  /**
  An integer, or a finite float by its shortest decimal digits: `d.ddd` times ten to
  `exponent`.
  */
  datatype Number = Int(value: int) | Float(negative: bool, digits: seq<Digit>, exponent: int)

  datatype Json =
    | Null
    | Bool(b: bool)
    | Num(n: Number)
    | Str(s: string)
    | Arr(items: seq<Json>)
    | Obj(fields: seq<(string, Json)>)

  function Power(exponent: int): real {
    if exponent >= 0 then Pow10(exponent) as real else 1.0 / Pow10(-exponent) as real
  }

  /** The number as a real (an integer is not rounded to a double here). */
  function AsReal(n: Number): real {
    match n
    case Int(v) => v as real
    case Float(negative, digits, exponent) =>
      var magnitude := DigitStrings.Num(digits) as real * Power(exponent - (|digits| - 1));
      if negative then -magnitude else magnitude
  }

  lemma {:induction false} PowerSteps(exponent: int)
    ensures Power(0) == 1.0 && Power(exponent) > 0.0 && Power(exponent + 1) == 10.0 * Power(exponent)
  {
    hide Pow10;
    PowerOfZero();
    if exponent >= 0 {
      NextPower(exponent);
    } else {
      NextPower(-exponent - 1);
      QuotientTimes(1.0, Pow10(-exponent) as real);
      TenTimes(Pow10(-exponent - 1) as real, Pow10(-exponent) as real);
    }
  }

  lemma {:induction false} TenTimes(p: real, q: real)
    requires p > 0.0 && q == 10.0 * p
    ensures 1.0 / q > 0.0 && 1.0 / p == 10.0 * (1.0 / q)
  {
    DivCancel(1.0, p, 10.0);
  }

  lemma {:induction false} PowerShifts(exponent: int, k: nat)
    ensures Pow10(k) as real * Power(exponent - k) == Power(exponent)
    decreases k
  {
    hide Power, Pow10;
    if k == 0 {
      PowerOfZero();
    } else {
      PowerShifts(exponent - 1, k - 1);
      PowerSteps(exponent - 1);
      NextPower(k - 1);
      assert exponent - 1 - (k - 1) == exponent - k;
      TimesTen(Pow10(k) as real, Pow10(k - 1) as real, Power(exponent - k));
    }
  }

  lemma {:induction false} TimesTen(p: real, q: real, x: real)
    requires p == 10.0 * q
    ensures p * x == 10.0 * (q * x)
  {
  }

  /** The first digit of a float counts `10^exponent`, and the others less than one more of those. */
  lemma {:induction false} FloatLeads(negative: bool, digits: seq<Digit>, exponent: int)
    requires |digits| > 0
    ensures var x := AsReal(Float(negative, digits, exponent));
            var magnitude := if negative then -x else x;
            digits[0] as real * Power(exponent) <= magnitude < (digits[0] as real + 1.0) * Power(exponent)
  {
    hide AsReal, Power, Pow10, DigitStrings.Num;
    var k := |digits| - 1;
    NumLeads(digits);
    PowerShifts(exponent, k);
    PowerSteps(exponent - k);
    FloatIs(negative, digits, exponent);
    Leads(digits[0] as real, Pow10(k) as real, DigitStrings.Num(digits[1..]) as real, Power(exponent - k));
  }

  lemma {:induction false} NumLeads(digits: seq<Digit>)
    requires |digits| > 0
    ensures var first, rest := digits[0] as real * Pow10(|digits| - 1) as real, DigitStrings.Num(digits[1..]) as real;
            DigitStrings.Num(digits) as real == first + rest && 0.0 <= rest < Pow10(|digits| - 1) as real
  {
    hide Pow10, DigitStrings.Num;
    assert digits == [digits[0]] + digits[1..];
    NumPrepend(digits[0], digits[1..]);
    NumBound(digits[1..]);
    MulAsReal(digits[0], Pow10(|digits| - 1));
  }

  lemma {:induction false} FloatIs(negative: bool, digits: seq<Digit>, exponent: int)
    ensures var x := AsReal(Float(negative, digits, exponent));
            (if negative then -x else x) == DigitStrings.Num(digits) as real * Power(exponent - (|digits| - 1))
  {
    hide Power, DigitStrings.Num;
  }

  lemma {:induction false} Leads(d: real, p: real, r: real, unit: real)
    requires 0.0 <= r < p && unit > 0.0
    ensures d * (p * unit) <= (d * p + r) * unit < (d + 1.0) * (p * unit)
  {
    assert (d * p + r) * unit == d * (p * unit) + r * unit;
    assert (d + 1.0) * (p * unit) == d * (p * unit) + p * unit;
    CompareTimes(r, p, unit);
    RealMulMonotone(0.0, r, unit);
  }

  function Get(fields: seq<(string, Json)>, key: string): Option<Json>
  {
    if |fields| == 0 then None
    else if fields[0].0 == key then Some(fields[0].1)
    else Get(fields[1..], key)
  }
}
