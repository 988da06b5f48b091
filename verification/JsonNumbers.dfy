/** Every number comes back, in all three float layouts. */
module JsonNumbers {
  import opened Wrappers
  import opened DigitStrings
  import opened Json
  import opened PyJson
  import opened JsonReader

  /** What may follow a number without being read as part of it. */
  predicate EndsNumber(rest: string) {
    |rest| == 0 || (!IsDigitChar(rest[0]) && rest[0] != '.' && rest[0] != 'e' && rest[0] != 'E')
  }

  lemma {:induction false} RunOfDigits(ds: seq<Digit>, rest: string)
    requires |rest| == 0 || !IsDigitChar(rest[0])
    ensures DigitRun(Text(ds) + rest) == |ds|
  {
    if |ds| == 0 {
      assert Text(ds) + rest == rest;
    } else {
      assert (Text(ds) + rest)[1..] == Text(ds[1..]) + rest;
      RunOfDigits(ds[1..], rest);
    }
  }

  lemma {:induction false} ReadRun(ds: seq<Digit>, rest: string)
    requires |rest| == 0 || !IsDigitChar(rest[0])
    ensures var t := Text(ds) + rest;
            DigitRun(t) == |ds| && DigitsIn(t[..|ds|]) == ds && t[|ds|..] == rest
  {
    RunOfDigits(ds, rest);
    TextDigits(ds);
    assert (Text(ds) + rest)[..|ds|] == Text(ds);
  }

  lemma {:induction false} StripZeros(ds: seq<Digit>, k: nat)
    requires |ds| > 0 && ds[|ds| - 1] != 0
    ensures StripTrailing(ds + Zeros(k)) == ds
  {
    if k == 0 {
      assert ds + Zeros(0) == ds;
    } else {
      assert (ds + Zeros(k))[..|ds| + k - 1] == ds + Zeros(k - 1);
      StripZeros(ds, k - 1);
    }
  }

  lemma {:induction false} NormalizeLeading(negative: bool, k: nat, ds: seq<Digit>, position: int)
    ensures Normalize(negative, Zeros(k) + ds, position) == Normalize(negative, ds, position - k)
  {
    if k == 0 {
      assert Zeros(0) + ds == ds;
    } else {
      assert (Zeros(k) + ds)[1..] == Zeros(k - 1) + ds;
      NormalizeLeading(negative, k - 1, ds, position - 1);
    }
  }

  /** Zeros around canonical digits do not change the number. */
  lemma {:induction false} NormalizeCanonical(negative: bool, digits: seq<Digit>, exponent: int, before: nat,
                                              after: nat)
    requires |digits| > 0 && digits[0] != 0 && digits[|digits| - 1] != 0
    ensures Normalize(negative, Zeros(before) + digits + Zeros(after), exponent + before)
      == Float(negative, digits, exponent)
  {
    assert Zeros(before) + digits + Zeros(after) == Zeros(before) + (digits + Zeros(after));
    NormalizeLeading(negative, before, digits + Zeros(after), exponent + before);
    StripZeros(digits, after);
  }

  function Signed(negative: bool, body: string): string {
    if negative then "-" + body else body
  }

  lemma {:induction false} ReadNoFraction(rest: string)
    requires EndsNumber(rest) || (|rest| > 0 && rest[0] == 'e')
    ensures ReadFraction(rest) == Some((None, rest))
  {
  }

  lemma {:induction false} ReadTheFraction(frac: seq<Digit>, rest: string)
    requires |frac| > 0 && (|rest| == 0 || !IsDigitChar(rest[0]))
    ensures ReadFraction("." + Text(frac) + rest) == Some((Some(frac), rest))
  {
    var t := "." + Text(frac) + rest;
    assert t[1..] == Text(frac) + rest;
    ReadRun(frac, rest);
  }

  lemma {:induction false} ExponentShape(exponent: int, ds: seq<Digit>, rest: string)
    requires ExponentText(if exponent < 0 then -exponent else exponent) == Text(ds)
    ensures var t := ExponentPart(exponent) + rest;
            |t| > 1 && t[0] == 'e' && t[1] == (if exponent < 0 then '-' else '+') && t[2..] == Text(ds) + rest
  {
    hide Text, ExponentText;
  }

  lemma {:induction false} ReadTheExponent(exponent: int, rest: string)
    requires EndsNumber(rest)
    ensures ReadExponent(ExponentPart(exponent) + rest) == Some((Some(exponent), rest))
  {
    hide Text, DigitRun, Digits, ExponentText, ExponentPart;
    var magnitude: nat := if exponent < 0 then -exponent else exponent;
    var ds := if magnitude < 10 then [0] + Digits(magnitude) else Digits(magnitude);
    ExponentDigits(magnitude);
    ExponentShape(exponent, ds, rest);
    ReadRun(ds, rest);
  }

  lemma {:induction false} ExponentDigits(n: nat)
    ensures var ds := if n < 10 then [0] + Digits(n) else Digits(n);
            ExponentText(n) == Text(ds) && DigitStrings.Num(ds) == n && |ds| > 0
  {
    DigitsNum(n);
    if n < 10 {
      NumPrepend(0, Digits(n));
      assert "0" + Text(Digits(n)) == Text([0] + Digits(n));
    }
  }

  lemma {:induction false} ReadSign(negative: bool, body: string)
    requires |body| > 0 && body[0] != '-'
    ensures var t := Signed(negative, body);
            (|t| > 0 && t[0] == '-') == negative && (if negative then t[1..] else t) == body
  {
  }

  lemma {:induction false} SignedAppend(negative: bool, body: string, rest: string)
    ensures Signed(negative, body) + rest == Signed(negative, body + rest)
  {
  }

  /** What a number's three parts denote. */
  function Assembled(negative: bool, whole: seq<Digit>, frac: Option<seq<Digit>>, exp: Option<int>): Number {
    if frac.None? && exp.None? then
      var v: int := DigitStrings.Num(whole);
      Int(if negative then -v else v)
    else
      Normalize(negative, whole + (if frac.Some? then frac.value else []),
            |whole| - 1 + (if exp.Some? then exp.value else 0))
  }

  lemma {:induction false} ReadParts(negative: bool, whole: seq<Digit>, after: string, frac: Option<seq<Digit>>,
                                     afterFrac: string, exp: Option<int>, rest: string)
    requires |whole| > 0 && (|whole| > 1 ==> whole[0] != 0) && (|after| == 0 || !IsDigitChar(after[0]))
    requires ReadFraction(after) == Some((frac, afterFrac)) && ReadExponent(afterFrac) == Some((exp, rest))
    ensures ReadNumber(Signed(negative, Text(whole) + after)) == Some((Assembled(negative, whole, frac, exp), rest))
  {
    hide DigitRun, ReadFraction, ReadExponent, Normalize;
    var body := Text(whole) + after;
    assert body[0] == DigitChar(whole[0]);
    ReadSign(negative, body);
    ReadRun(whole, after);
  }

  lemma {:induction false} NoExponent(rest: string)
    requires EndsNumber(rest)
    ensures ReadExponent(rest) == Some((None, rest)) && (|rest| == 0 || !IsDigitChar(rest[0]))
  {
  }

  /** Fixed notation: sign, whole digits, a point, fraction digits. */
  lemma {:induction false} ReadFixed(negative: bool, whole: seq<Digit>, frac: seq<Digit>, rest: string)
    requires |whole| > 0 && (|whole| > 1 ==> whole[0] != 0) && |frac| > 0 && EndsNumber(rest)
    ensures ReadNumber(Signed(negative, Text(whole) + "." + Text(frac)) + rest)
         == Some((Normalize(negative, whole + frac, |whole| - 1), rest))
  {
    hide ReadNumber, ReadFraction, ReadExponent, Normalize, EndsNumber, Text, Signed;
    var after := "." + Text(frac) + rest;
    SignedAppend(negative, Text(whole) + "." + Text(frac), rest);
    assert Text(whole) + "." + Text(frac) + rest == Text(whole) + after;
    NoExponent(rest);
    ReadTheFraction(frac, rest);
    ReadParts(negative, whole, after, Some(frac), rest, None, rest);
  }

  function ExponentPart(exponent: int): string {
    "e" + (if exponent < 0 then "-" else "+") + ExponentText(if exponent < 0 then -exponent else exponent)
  }

  function FractionPart(frac: seq<Digit>): string {
    if |frac| == 0 then "" else "." + Text(frac)
  }

  /** Scientific notation: sign, one digit, perhaps a fraction, an exponent. */
  lemma {:induction false} ReadScientific(negative: bool, first: Digit, frac: seq<Digit>, exponent: int, rest: string)
    requires EndsNumber(rest)
    ensures ReadNumber(Signed(negative, Text([first]) + FractionPart(frac) + ExponentPart(exponent)) + rest)
         == Some((Normalize(negative, [first] + frac, exponent), rest))
  {
    hide ReadNumber, ReadFraction, ReadExponent, Normalize, EndsNumber, Text, Signed, ExponentText;
    var tail := ExponentPart(exponent) + rest;
    var after := FractionPart(frac) + tail;
    SignedAppend(negative, Text([first]) + FractionPart(frac) + ExponentPart(exponent), rest);
    assert Text([first]) + FractionPart(frac) + ExponentPart(exponent) + rest == Text([first]) + after;
    ReadTheExponent(exponent, rest);
    if |frac| == 0 {
      assert after == tail;
      ReadNoFraction(tail);
      assert [first] + [] == [first] + frac;
      ReadParts(negative, [first], after, None, tail, Some(exponent), rest);
    } else {
      assert after == "." + Text(frac) + tail;
      ReadTheFraction(frac, tail);
      ReadParts(negative, [first], after, Some(frac), tail, Some(exponent), rest);
    }
  }

  lemma {:induction false} IntRoundTrip(v: int, rest: string)
    requires EndsNumber(rest)
    ensures ReadNumber(IntText(v) + rest) == Some((Int(v), rest))
  {
    hide ReadNumber, Digits, ReadFraction, ReadExponent;
    var n: nat := if v < 0 then -v else v;
    var ds := Digits(n);
    DigitsNum(n);
    SignedAppend(v < 0, Text(ds), rest);
    ReadNoFraction(rest);
    NoExponent(rest);
    ReadParts(v < 0, ds, rest, None, rest, None, rest);
  }

  // ----- the three layouts

  lemma {:induction false} SmallLayout(negative: bool, digits: seq<Digit>, exponent: int)
    requires CanonicalFloat(digits, exponent) && digits != [0] && -4 <= exponent < 0
    ensures FloatRepr(negative, digits, exponent)
      == Signed(negative, Text([0]) + "." + Text(Zeros(-(exponent + 1)) + digits))
  {
    var tail := Text(Zeros(-(exponent + 1)) + digits);
    assert Text([0]) == "0";
    assert "0." + tail == "0" + "." + tail;
    SignedPlus(negative, "0.", tail);
  }

  lemma {:induction false} SignedPlus(negative: bool, a: string, b: string)
    ensures (if negative then "-" else "") + a + b == Signed(negative, a + b)
  {
    assert "" + a + b == a + b;
    assert "-" + a + b == "-" + (a + b);
  }

  lemma {:induction false} LargeLayout(negative: bool, digits: seq<Digit>, exponent: int)
    requires CanonicalFloat(digits, exponent) && digits != [0] && 0 <= exponent < 16
    ensures var pt := exponent + 1;
            FloatRepr(negative, digits, exponent)
            == if pt >= |digits| then Signed(negative, Text(digits + Zeros(pt - |digits|)) + "." + Text([0]))
               else Signed(negative, Text(digits[..pt]) + "." + Text(digits[pt..]))
  {
    hide Text, Signed;
    var pt := exponent + 1;
    TextZero();
    if pt >= |digits| {
      SignedPlus(negative, Text(digits + Zeros(pt - |digits|)), ".0");
      assert Text(digits + Zeros(pt - |digits|)) + "." + "0" == Text(digits + Zeros(pt - |digits|)) + ".0";
    } else {
      SignedPlus(negative, Text(digits[..pt]), "." + Text(digits[pt..]));
      var sign := if negative then "-" else "";
      assert sign + Text(digits[..pt]) + "." + Text(digits[pt..])
        == sign + Text(digits[..pt]) + ("." + Text(digits[pt..]));
      assert Text(digits[..pt]) + "." + Text(digits[pt..]) == Text(digits[..pt]) + ("." + Text(digits[pt..]));
    }
  }

  lemma {:induction false} TextZero()
    ensures Text([0]) == "0"
  {
  }

  lemma {:induction false} ScientificLayout(negative: bool, digits: seq<Digit>, exponent: int)
    requires CanonicalFloat(digits, exponent) && digits != [0] && !(-4 <= exponent < 16)
    ensures FloatRepr(negative, digits, exponent)
         == Signed(negative, Text([digits[0]]) + FractionPart(digits[1..]) + ExponentPart(exponent))
  {
    hide Text, Signed, ExponentText;
    var sign := if negative then "-" else "";
    var esign := if exponent < 0 then "-" else "+";
    var magnitude := ExponentText(if exponent < 0 then -exponent else exponent);
    var head, frac := Text([digits[0]]), FractionPart(digits[1..]);
    assert digits[..1] == [digits[0]];
    assert |digits| == 1 ==> digits[1..] == [];
    SignedPlus(negative, head, frac + ExponentPart(exponent));
    assert sign + head + frac + "e" + esign + magnitude == sign + head + (frac + ("e" + esign + magnitude));
    assert head + frac + ExponentPart(exponent) == head + (frac + ExponentPart(exponent));
  }

  lemma {:induction false} SmallFloatRoundTrip(negative: bool, digits: seq<Digit>, exponent: int, rest: string)
    requires CanonicalFloat(digits, exponent) && digits != [0] && -4 <= exponent < 0 && EndsNumber(rest)
    ensures ReadNumber(FloatRepr(negative, digits, exponent) + rest) == Some((Float(negative, digits, exponent), rest))
  {
    hide ReadNumber, Normalize, FloatRepr, Signed, Text, EndsNumber;
    var k := -(exponent + 1);
    SmallLayout(negative, digits, exponent);
    ReadFixed(negative, [0], Zeros(k) + digits, rest);
    NormalizeCanonical(negative, digits, exponent, k + 1, 0);
    assert [0] + (Zeros(k) + digits) == Zeros(k + 1) + digits + Zeros(0);
  }

  lemma {:induction false} LargeFloatRoundTrip(negative: bool, digits: seq<Digit>, exponent: int, rest: string)
    requires CanonicalFloat(digits, exponent) && digits != [0] && 0 <= exponent < 16 && EndsNumber(rest)
    ensures ReadNumber(FloatRepr(negative, digits, exponent) + rest) == Some((Float(negative, digits, exponent), rest))
  {
    hide ReadNumber, Normalize, FloatRepr, Signed, Text, EndsNumber;
    var pt := exponent + 1;
    LargeLayout(negative, digits, exponent);
    if pt >= |digits| {
      var k := pt - |digits|;
      ReadFixed(negative, digits + Zeros(k), [0], rest);
      NormalizeCanonical(negative, digits, exponent, 0, k + 1);
      assert digits + Zeros(k) + [0] == Zeros(0) + digits + Zeros(k + 1);
    } else {
      ReadFixed(negative, digits[..pt], digits[pt..], rest);
      NormalizeCanonical(negative, digits, exponent, 0, 0);
      assert digits[..pt] + digits[pt..] == Zeros(0) + digits + Zeros(0);
    }
  }

  lemma {:induction false} ScientificRoundTrip(negative: bool, digits: seq<Digit>, exponent: int, rest: string)
    requires CanonicalFloat(digits, exponent) && digits != [0] && !(-4 <= exponent < 16) && EndsNumber(rest)
    ensures ReadNumber(FloatRepr(negative, digits, exponent) + rest) == Some((Float(negative, digits, exponent), rest))
  {
    hide ReadNumber, Normalize, FloatRepr, Signed, Text, EndsNumber, FractionPart, ExponentPart;
    ScientificLayout(negative, digits, exponent);
    ReadScientific(negative, digits[0], digits[1..], exponent, rest);
    NormalizeCanonical(negative, digits, exponent, 0, 0);
    assert [digits[0]] + digits[1..] == Zeros(0) + digits + Zeros(0);
  }

  lemma {:induction false} ZeroFloatRoundTrip(negative: bool, rest: string)
    requires EndsNumber(rest)
    ensures ReadNumber(FloatRepr(negative, [0], 0) + rest) == Some((Float(negative, [0], 0), rest))
  {
    hide ReadNumber, EndsNumber;
    TextZero();
    assert "0" + "." + "0" == "0.0";
    SignedPlus(negative, "0.0", "");
    assert "0.0" + "" == "0.0";
    assert FloatRepr(negative, [0], 0) == Signed(negative, Text([0]) + "." + Text([0]));
    ReadFixed(negative, [0], [0], rest);
    NormalizeLeading(negative, 2, [], 0);
    assert [0] + [0] == Zeros(2) + [];
  }

  /** Every number comes back, in all three float layouts. */
  lemma {:induction false} NumberRoundTrip(n: Number, rest: string)
    requires ValidNumber(n) && EndsNumber(rest)
    ensures ReadNumber(NumberText(n) + rest) == Some((n, rest))
  {
    hide ReadNumber, FloatRepr, IntText;
    match n {
      case Int(v) => IntRoundTrip(v, rest);
      case Float(negative, digits, exponent) =>
        if digits == [0] {
          ZeroFloatRoundTrip(negative, rest);
        } else if -4 <= exponent < 0 {
          SmallFloatRoundTrip(negative, digits, exponent, rest);
        } else if 0 <= exponent < 16 {
          LargeFloatRoundTrip(negative, digits, exponent, rest);
        } else {
          ScientificRoundTrip(negative, digits, exponent, rest);
        }
    }
  }
}
