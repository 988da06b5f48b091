/** The text grammar of amounts and rates (backend-rs/src/fx.rs, `Dec::parse`, `parse_rate`). */
module DecimalParse {
  import opened Algebra
  import opened DigitStrings
  import opened Decimal
  import opened DecimalText
  import opened Money
  import opened Whitespace
  import opened Wrappers

  // `Literal` is the grammar as data; the lemmas say that `Parse` accepts exactly its
  // renderings and returns exactly mantissa times ten to the exponent.

  const MAX_INT_DIGITS := 30
  const MAX_DECIMALS := 40
  const MAX_EXPONENT := 10_000
  const RATE_DECIMALS := 10

  // ----- the parser

  function StripSign(s: string, sign: char): string {
    if |s| > 0 && s[0] == sign then s[1..] else s
  }

  /** Index of the first character in `cs`, or the length. */
  function IndexOf(s: string, cs: set<char>): (i: nat)
    ensures i <= |s|
  {
    if |s| == 0 || s[0] in cs then 0 else 1 + IndexOf(s[1..], cs)
  }

  function ExponentValue(text: string): Result<int, FxError> {
    var negative := |text| > 0 && text[0] == '-';
    var body := if negative then text[1..] else StripSign(text, '+');
    if |body| == 0 || !AllDigits(body) then Err(NotANumber)
    else
      var v: int := Num(DigitsIn(body));
      if v > MAX_EXPONENT then Err(if negative then TooManyDecimals else TooLarge)
      else Ok(if negative then -v else v)
  }

  function IntDigitCount(a: Dec): nat {
    if a.IsZero() || |a.digits| <= a.scale then 0 else |a.digits| - a.scale
  }

  function Finish(a: Dec): Result<Dec, FxError> {
    if IntDigitCount(a) > MAX_INT_DIGITS then Err(TooLarge) else Ok(a)
  }

  /** The digits of the mantissa with `decimals` of them after the point (negative: zeros to append). */
  function Assemble(digits: seq<Digit>, decimals: int): Result<Dec, FxError> {
    var clean := StripLeadingZeros(digits);
    var zero := clean == [0];
    if decimals > MAX_DECIMALS then Err(TooManyDecimals)
    else if decimals < 0 && !zero then
      if |clean| - decimals > MAX_INT_DIGITS then Err(TooLarge) else Finish(Dec(clean + Zeros(-decimals), 0))
    else Finish(Dec(clean, if zero || decimals < 0 then 0 else decimals))
  }

  function Parse(text: string): Result<Dec, FxError> {
    var t := StripSign(Trim(text), '+');
    var e := IndexOf(t, {'e', 'E'});
    var mantissa := t[..e];
    var dot := IndexOf(mantissa, {'.'});
    var intPart := mantissa[..dot];
    var fracPart := if dot < |mantissa| then mantissa[dot + 1..] else "";
    if !AllDigits(intPart) || !AllDigits(fracPart) || (intPart == "" && fracPart == "") then Err(NotANumber)
    else
      var exponent := if e < |t| then ExponentValue(t[e + 1..]) else Ok(0);
      match exponent
      case Err(error) => Err(error)
      case Ok(v) => Assemble(DigitsIn(intPart + fracPart), |fracPart| - v)
  }

  // ----- the grammar

  datatype Exponent = NoExponent | Exponent(marker: char, sign: string, body: string) {
    predicate WellFormed() {
      Exponent? ==> marker in {'e', 'E'} && sign in {"", "+", "-"} && |body| > 0 && AllDigits(body)
    }

    function Render(): string {
      if NoExponent? then "" else [marker] + (sign + body)
    }

    function Magnitude(): nat
      requires WellFormed()
    {
      if NoExponent? then 0 else Num(DigitsIn(body))
    }

    predicate Negative() {
      Exponent? && sign == "-"
    }

    function Value(): int
      requires WellFormed()
    {
      var m: int := Magnitude();
      if Negative() then -m else m
    }
  }

  datatype Literal = Literal(lead: string, plus: bool, intPart: string, point: bool, fracPart: string,
                             exponent: Exponent, trail: string)
  {
    predicate WellFormed() {
      AllSpace(lead) && AllSpace(trail) && AllDigits(intPart) && AllDigits(fracPart)
      && (!point ==> fracPart == "") && |intPart| + |fracPart| > 0 && exponent.WellFormed()
    }

    function Mantissa(): string {
      intPart + (if point then "." else "") + fracPart
    }

    function Unsigned(): string {
      Mantissa() + exponent.Render()
    }

    function Core(): string {
      (if plus then "+" else "") + Unsigned()
    }

    function Render(): string {
      lead + Core() + trail
    }

    function MantissaDigits(): seq<Digit>
      requires WellFormed()
    {
      DigitsIn(intPart + fracPart)
    }

    /** How far the point is moved: decimals written minus the exponent. */
    function Decimals(): int
      requires WellFormed()
    {
      |fracPart| - exponent.Value()
    }
  }

  predicate AllSpace(s: string) {
    forall k :: 0 <= k < |s| ==> IsSpace(s[k])
  }

  predicate NoSpace(s: string) {
    forall k :: 0 <= k < |s| ==> !IsSpace(s[k])
  }

  /** `n` with `decimals` digits after the point. */
  ghost function Scaled(n: nat, decimals: int): real {
    if decimals >= 0 then n as real / Pow10(decimals) as real
    else (n * Pow10(-decimals)) as real
  }

  /** What a literal means: refused for its exponent, its decimals or its size, else its exact value. */
  ghost predicate Means(l: Literal, r: Result<Dec, FxError>)
    requires l.WellFormed()
  {
    var v := Scaled(Num(l.MantissaDigits()), l.Decimals());
    if l.exponent.Magnitude() > MAX_EXPONENT then r == Err(if l.exponent.Negative() then TooManyDecimals else TooLarge)
    else if l.Decimals() > MAX_DECIMALS then r == Err(TooManyDecimals)
    else if v >= Pow10(MAX_INT_DIGITS) as real then r == Err(TooLarge)
    else r.Ok? && r.value.Value() == v && InputSized(r.value)
  }

  // ----- assembling digits is exact

  lemma {:induction false} LongerThan(ds: seq<Digit>, k: nat)
    requires IsCanonical(ds) && ds != [0]
    ensures |ds| > k <==> Num(ds) >= Pow10(k)
  {
    ZeroIsCanonicalZero(ds);
    LengthByPower(ds, k);
  }

  lemma {:induction false} AtLeast(n: nat, p: nat, q: nat)
    requires p > 0
    ensures n as real / p as real >= q as real <==> n >= q * p
  {
    MulAsReal(q, p);
    QuotientUnique(q as real, p as real, q as real * p as real);
    DivOrder(n as real, q as real * p as real, p as real);
  }

  lemma {:induction false} AssemblePositiveExponent(clean: seq<Digit>, k: int)
    requires IsCanonical(clean) && clean != [0] && k > 0
    ensures var big := Scaled(Num(clean), -k) >= Pow10(MAX_INT_DIGITS) as real;
            var a := Dec(clean + Zeros(k), 0);
            (big <==> |clean| + k > MAX_INT_DIGITS)
            && (!big ==> Finish(a) == Ok(a) && a.Value() == Scaled(Num(clean), -k) && InputSized(a))
  {
    hide Num, Pow10;
    var ds := clean + Zeros(k);
    NumPadRight(clean, k);
    LongerThan(ds, MAX_INT_DIGITS);
    PowerZero(ds);
  }

  lemma {:induction false} PowerZero(ds: seq<Digit>)
    ensures Dec(ds, 0).Value() == Num(ds) as real
  {
  }

  lemma {:induction false} AssembleDecimals(clean: seq<Digit>, k: nat)
    requires IsCanonical(clean) && clean != [0] && k <= MAX_DECIMALS
    ensures var big := Scaled(Num(clean), k) >= Pow10(MAX_INT_DIGITS) as real;
            var a := Dec(clean, k);
            Finish(a) == (if big then Err(TooLarge) else Ok(a))
            && a.Value() == Scaled(Num(clean), k) && (!big ==> InputSized(a))
  {
    hide Num, Pow10;
    LongerThan(clean, MAX_INT_DIGITS + k);
    Pow10Add(MAX_INT_DIGITS, k);
    AtLeast(Num(clean), Pow10(k), Pow10(MAX_INT_DIGITS));
  }

  lemma {:induction false} AssembleIsExact(digits: seq<Digit>, decimals: int)
    ensures var v, r := Scaled(Num(digits), decimals), Assemble(digits, decimals);
            if decimals > MAX_DECIMALS then r == Err(TooManyDecimals)
            else if v >= Pow10(MAX_INT_DIGITS) as real then r == Err(TooLarge)
            else r.Ok? && r.value.Value() == v && InputSized(r.value)
  {
    hide Num, Pow10, StripLeadingZeros, Scaled, Dec.Value;
    var clean := StripLeadingZeros(digits);
    StripNum(digits);
    if clean == [0] {
      ZeroScaled(digits, decimals);
    } else if decimals < 0 {
      AssemblePositiveExponent(clean, -decimals);
    } else if decimals <= MAX_DECIMALS {
      AssembleDecimals(clean, decimals);
    }
  }

  lemma {:induction false} ZeroScaled(digits: seq<Digit>, decimals: int)
    requires StripLeadingZeros(digits) == [0]
    ensures Scaled(Num(digits), decimals) == 0.0 && Dec([0], 0).Value() == 0.0
    ensures Scaled(Num(digits), decimals) < Pow10(MAX_INT_DIGITS) as real
  {
    hide Pow10;
    StripNum(digits);
    NumOne(0);
  }

  // ----- reading a rendering back

  lemma {:induction false} TrimStartLead(lead: string, core: string)
    requires AllSpace(lead) && |core| > 0 && !IsSpace(core[0])
    ensures TrimStart(lead + core) == core
  {
    if |lead| == 0 {
      assert lead + core == core;
    } else {
      assert (lead + core)[1..] == lead[1..] + core;
      TrimStartLead(lead[1..], core);
    }
  }

  lemma {:induction false} TrimEndTrail(core: string, trail: string)
    requires AllSpace(trail) && |core| > 0 && !IsSpace(core[|core| - 1])
    ensures TrimEnd(core + trail) == core
  {
    if |trail| == 0 {
      assert core + trail == core;
    } else {
      assert (core + trail)[..|core + trail| - 1] == core + trail[..|trail| - 1];
      TrimEndTrail(core, trail[..|trail| - 1]);
    }
  }

  lemma {:induction false} TrimAround(lead: string, core: string, trail: string)
    requires AllSpace(lead) && AllSpace(trail) && |core| > 0 && NoSpace(core)
    ensures Trim(lead + core + trail) == core
  {
    TrimEndTrail(lead + core, trail);
    TrimStartLead(lead, core);
  }

  lemma {:induction false} IndexOfSplit(a: string, b: string, cs: set<char>)
    requires forall k :: 0 <= k < |a| ==> a[k] !in cs
    requires |b| > 0 ==> b[0] in cs
    ensures IndexOf(a + b, cs) == |a|
  {
    if |a| == 0 {
      assert a + b == b;
    } else {
      assert (a + b)[1..] == a[1..] + b;
      IndexOfSplit(a[1..], b, cs);
    }
  }

  lemma {:induction false} CoreHasNoSpace(l: Literal)
    requires l.WellFormed()
    ensures NoSpace(l.Core()) && |l.Unsigned()| > 0 && l.Unsigned()[0] != '+'
  {
    assert NoSpace(l.Mantissa());
    assert NoSpace(l.exponent.Render());
  }

  lemma {:induction false} SplitMantissa(l: Literal)
    requires l.WellFormed()
    ensures var t := l.Unsigned(); var e := IndexOf(t, {'e', 'E'});
            e <= |t| && t[..e] == l.Mantissa()
            && (if l.exponent.NoExponent? then e == |t| else e < |t| && t[e + 1..] == l.exponent.sign + l.exponent.body)
  {
    IndexOfSplit(l.Mantissa(), l.exponent.Render(), {'e', 'E'});
  }

  lemma {:induction false} SplitPoint(l: Literal)
    requires l.WellFormed()
    ensures var m := l.Mantissa(); var dot := IndexOf(m, {'.'});
            dot <= |m| && m[..dot] == l.intPart && l.fracPart == (if dot < |m| then m[dot + 1..] else "")
  {
    var rest := (if l.point then "." else "") + l.fracPart;
    assert l.Mantissa() == l.intPart + rest;
    IndexOfSplit(l.intPart, rest, {'.'});
  }

  lemma {:induction false} ExponentMeaning(x: Exponent)
    requires x.WellFormed() && x.Exponent?
    ensures ExponentValue(x.sign + x.body)
         == if x.Magnitude() > MAX_EXPONENT then Err(if x.Negative() then TooManyDecimals else TooLarge)
             else Ok(x.Value())
  {
    if x.sign == "" {
      assert x.sign + x.body == x.body;
    } else {
      assert (x.sign + x.body)[1..] == x.body;
    }
  }

  /** Every text of the grammar gets exactly its meaning. */
  lemma {:induction false} ParseMeaning(l: Literal)
    requires l.WellFormed()
    ensures Means(l, Parse(l.Render()))
  {
    hide Num, Pow10, Scaled, Dec.Value, Assemble, Trim, IndexOf, ExponentValue, Literal.Mantissa, Literal.Render,
      Literal.Unsigned, Literal.Core;
    ParseSteps(l);
    if l.exponent.Exponent? {
      ExponentMeaning(l.exponent);
    }
    AssembleIsExact(l.MantissaDigits(), l.Decimals());
  }

  /** The parser takes a rendering apart into the literal's own fields. */
  lemma {:induction false} ParseSteps(l: Literal)
    requires l.WellFormed()
    ensures var exponent := if l.exponent.NoExponent? then Ok(0) else ExponentValue(l.exponent.sign + l.exponent.body);
            Parse(l.Render()) == match exponent
                                 case Err(error) => Err(error)
                                 case Ok(v) => Assemble(l.MantissaDigits(), |l.fracPart| - v)
  {
    hide Num, Pow10, Assemble, Trim, IndexOf, ExponentValue, Literal.Mantissa, Literal.Unsigned, AllSpace, NoSpace;
    CoreHasNoSpace(l);
    TrimAround(l.lead, l.Core(), l.trail);
    assert StripSign(l.Core(), '+') == l.Unsigned();
    SplitMantissa(l);
    SplitPoint(l);
  }

  // ----- nothing else is a number

  lemma {:induction false} TrimStartSplit(s: string) returns (lead: string)
    ensures AllSpace(lead) && s == lead + TrimStart(s)
  {
    if |s| > 0 && IsSpace(s[0]) {
      var rest := TrimStartSplit(s[1..]);
      lead := [s[0]] + rest;
    } else {
      lead := "";
    }
  }

  lemma {:induction false} TrimEndSplit(s: string) returns (trail: string)
    ensures AllSpace(trail) && s == TrimEnd(s) + trail
  {
    if |s| > 0 && IsSpace(s[|s| - 1]) {
      var rest := TrimEndSplit(s[..|s| - 1]);
      trail := rest + [s[|s| - 1]];
      assert s == s[..|s| - 1] + [s[|s| - 1]];
    } else {
      trail := "";
    }
  }

  lemma {:induction false} IndexOfHit(s: string, cs: set<char>)
    ensures IndexOf(s, cs) < |s| ==> s[IndexOf(s, cs)] in cs
  {
    if |s| > 0 && s[0] !in cs {
      IndexOfHit(s[1..], cs);
    }
  }

  lemma {:induction false} ExponentShape(marker: char, text: string) returns (x: Exponent)
    requires marker in {'e', 'E'} && ExponentValue(text) != Err(NotANumber)
    ensures x.WellFormed() && x.Render() == [marker] + text
  {
    if |text| > 0 && text[0] in {'-', '+'} {
      x := Exponent(marker, [text[0]], text[1..]);
      assert text == [text[0]] + text[1..];
    } else {
      x := Exponent(marker, "", text);
      assert "" + text == text;
    }
  }

  lemma {:induction false} SplitSpaces(text: string) returns (lead: string, trail: string)
    ensures AllSpace(lead) && AllSpace(trail) && text == lead + Trim(text) + trail
  {
    trail := TrimEndSplit(text);
    lead := TrimStartSplit(TrimEnd(text));
  }

  lemma {:induction false} SplitAtPoint(mantissa: string) returns (intPart: string, point: bool, fracPart: string)
    ensures mantissa == intPart + (if point then "." else "") + fracPart && (!point ==> fracPart == "")
    ensures intPart == mantissa[..IndexOf(mantissa, {'.'})] && point == (IndexOf(mantissa, {'.'}) < |mantissa|)
    ensures point ==> fracPart == mantissa[IndexOf(mantissa, {'.'}) + 1..]
  {
    var dot := IndexOf(mantissa, {'.'});
    IndexOfHit(mantissa, {'.'});
    intPart, point, fracPart := mantissa[..dot], dot < |mantissa|, "";
    if point {
      fracPart := mantissa[dot + 1..];
      assert mantissa == mantissa[..dot] + [mantissa[dot]] + fracPart;
    } else {
      assert mantissa == mantissa[..dot] + "" + "";
    }
  }

  lemma {:induction false} SplitExponent(t: string) returns (x: Exponent)
    requires var e := IndexOf(t, {'e', 'E'}); e < |t| ==> ExponentValue(t[e + 1..]) != Err(NotANumber)
    ensures x.WellFormed() && t == t[..IndexOf(t, {'e', 'E'})] + x.Render()
  {
    hide IndexOf, ExponentValue, AllDigits;
    var e := IndexOf(t, {'e', 'E'});
    IndexOfHit(t, {'e', 'E'});
    if e < |t| {
      x := ExponentShape(t[e], t[e + 1..]);
      assert t == t[..e] + ([t[e]] + t[e + 1..]);
    } else {
      x := NoExponent;
      assert t == t[..e] + "";
    }
  }

  /** A text that is not refused as "not a number" is a rendering of the grammar. */
  lemma {:induction false} GrammarIsComplete(text: string) returns (l: Literal)
    requires Parse(text) != Err(NotANumber)
    ensures l.WellFormed() && l.Render() == text
  {
    hide Num, Pow10, Assemble, IndexOf, ExponentValue, Trim, AllSpace, AllDigits;
    var lead, trail := SplitSpaces(text);
    var core := Trim(text);
    var t := StripSign(core, '+');
    var plus := |core| > 0 && core[0] == '+';
    var intPart, point, fracPart := SplitAtPoint(t[..IndexOf(t, {'e', 'E'})]);
    var x := SplitExponent(t);
    l := Literal(lead, plus, intPart, point, fracPart, x, trail);
    assert core == (if plus then "+" else "") + t;
  }

  /** Accepted means in the grammar, and then the value is the one written. */
  lemma {:induction false} ParseIsExact(text: string) returns (l: Literal)
    requires Parse(text).Ok?
    ensures l.WellFormed() && l.Render() == text
    ensures Parse(text).value.Value() == Scaled(Num(l.MantissaDigits()), l.Decimals())
    ensures InputSized(Parse(text).value)
  {
    hide Num, Pow10, Scaled, Dec.Value, Assemble, Trim, IndexOf, ExponentValue, Parse, Literal.Render;
    l := GrammarIsComplete(text);
    ParseMeaning(l);
  }

  // ----- printing and reading back

  lemma {:induction false} PointedLiteral(padded: seq<Digit>, split: nat) returns (l: Literal)
    requires split <= |padded| && |padded| > 0
    ensures l.WellFormed() && l.exponent == NoExponent
    ensures l.Render() == Text(padded[..split]) + "." + Text(padded[split..])
    ensures l.MantissaDigits() == padded && |l.fracPart| == |padded| - split
  {
    TextDigits(padded[..split]);
    TextDigits(padded[split..]);
    l := Literal("", false, Text(padded[..split]), true, Text(padded[split..]), NoExponent, "");
    assert DigitsIn(l.intPart + l.fracPart) == padded[..split] + padded[split..];
    assert l.Render() == l.intPart + "." + l.fracPart;
  }

  /** The text of a decimal as a literal of the grammar. */
  lemma {:induction false} TextIsLiteral(a: Dec) returns (l: Literal)
    requires a.Canonical()
    ensures l.WellFormed() && l.Render() == TextOf(a) && l.exponent == NoExponent
    ensures Num(l.MantissaDigits()) == Num(a.digits) && |l.fracPart| == a.scale
  {
    hide Num, Pow10, TextOf;
    if a.scale == 0 {
      PlainText(a);
      TextDigits(a.digits);
      l := Literal("", false, Text(a.digits), false, "", NoExponent, "");
      assert Text(a.digits) + "" == Text(a.digits);
    } else {
      hide Literal.Render, Text;
      var zeros := if |a.digits| <= a.scale then a.scale + 1 - |a.digits| else 0;
      var padded := Zeros(zeros) + a.digits;
      NumPadLeft(zeros, a.digits);
      PaddingDone(padded, a);
      PaddedText(padded, a);
      l := PointedLiteral(padded, |padded| - a.scale);
    }
  }

  /** Reading what was printed gives the decimal back (zero loses only its scale). */
  lemma {:induction false} PrintThenParse(a: Dec)
    requires InputSized(a) && IntDigitCount(a) <= MAX_INT_DIGITS
    ensures Parse(TextOf(a)) == Ok(if a.IsZero() then ZERO else a)
  {
    hide Num, Pow10, Trim, IndexOf, ExponentValue, Digits, StripLeadingZeros, TextOf, Literal.Render;
    var l := TextIsLiteral(a);
    ParseSteps(l);
    StripIsDigits(l.MantissaDigits());
    CanonicalUnique(a.digits);
  }

  // ----- trimming what was read

  lemma {:induction false} AssembledZero(digits: seq<Digit>, decimals: int)
    requires Assemble(digits, decimals).Ok?
    ensures var a := Assemble(digits, decimals).value; a.Canonical() && (a.IsZero() ==> a.scale == 0)
  {
    var clean := StripLeadingZeros(digits);
    StripIsCanonical(digits);
    if decimals < 0 && clean != [0] {
      NonZeroLead(clean);
    }
  }

  lemma {:induction false} StripIsCanonical(ds: seq<Digit>)
    ensures IsCanonical(StripLeadingZeros(ds))
  {
    StripIsDigits(ds);
    DigitsNum(Num(ds));
  }

  /** A decimal that was read from text never makes `to_text_trimmed` underflow: a zero is read with no decimals. */
  lemma {:induction false} ParsedNeverUnderflows(text: string, min: nat)
    requires Parse(text).Ok?
    ensures var a := Parse(text).value; (a.IsZero() ==> a.scale == 0) && !Underflows(a, min)
  {
    hide Assemble, Underflows, Trim, StripSign, IndexOf, ExponentValue, DigitsIn;
    var t := StripSign(Trim(text), '+');
    var e := IndexOf(t, {'e', 'E'});
    var mantissa := t[..e];
    var dot := IndexOf(mantissa, {'.'});
    var intPart := mantissa[..dot];
    var fracPart := if dot < |mantissa| then mantissa[dot + 1..] else "";
    var exponent := if e < |t| then ExponentValue(t[e + 1..]) else Ok(0);
    AssembledZero(DigitsIn(intPart + fracPart), |fracPart| - exponent.value);
    TrimUnderflowsExactly(Parse(text).value, min);
  }

  // ----- rates

  const MIN_RATE_TEXT := "0.0000000001"
  const MAX_RATE_TEXT := "1000000000"

  /** `parse_rate`: in range, and at most ten decimals that matter. */
  function ParseRate(text: string): Result<Dec, FxError> {
    match Parse(text)
    case Err(error) => Err(error)
    case Ok(d) =>
      var min, max := Parse(MIN_RATE_TEXT), Parse(MAX_RATE_TEXT);
      if min.Err? then min
      else if max.Err? then max
      else if Compare(d, min.value) == Less || Compare(d, max.value) == Greater then Err(RateOutOfRange)
      else if SignificantScale(d) > RATE_DECIMALS then Err(RateTooPrecise)
      else Ok(d)
  }

  const MIN_RATE := Dec([1], 10)
  const MAX_RATE := Dec([1] + Zeros(9), 0)

  lemma {:induction false} MinRateText()
    ensures TextOf(MIN_RATE) == MIN_RATE_TEXT
  {
    var padded := Zeros(10) + [1];
    PaddingDone(padded, MIN_RATE);
    PaddedText(padded, MIN_RATE);
    assert Text(padded[..1]) == "0" && Text(padded[1..]) == "0000000001";
  }

  lemma {:induction false} MaxRateText()
    ensures TextOf(MAX_RATE) == MAX_RATE_TEXT
  {
    CanonicalUnique(MAX_RATE.digits);
    assert Text(MAX_RATE.digits) == MAX_RATE_TEXT;
  }

  lemma {:induction false} RateBounds()
    ensures Parse(MIN_RATE_TEXT) == Ok(MIN_RATE) && MIN_RATE.Value() == 0.0000000001
    ensures Parse(MAX_RATE_TEXT) == Ok(MAX_RATE) && MAX_RATE.Value() == 1000000000.0
  {
    hide TextOf, Parse, Num;
    MinRateText();
    MaxRateText();
    PrintThenParse(MIN_RATE);
    PrintThenParse(MAX_RATE);
    NumOne(1);
    NumPadRight([1], 9);
    assert Pow10(9) == 1000000000 && Pow10(10) == 10000000000;
  }

  /** A rate is accepted exactly in [1e-10, 1e9] with at most ten decimals, and never rounded. */
  lemma {:induction false} RateAccepted(text: string, d: Dec)
    ensures ParseRate(text) == Ok(d)
       <==> Parse(text) == Ok(d) && 0.0000000001 <= d.Value() <= 1000000000.0 && FitsDecimals(d, RATE_DECIMALS)
  {
    hide Dec.Value, Compare, SignificantScale, FitsDecimals, Parse;
    RateBounds();
    if Parse(text) == Ok(d) {
      var l := ParseIsExact(text);
      CompareIsNumeric(d, MIN_RATE);
      CompareIsNumeric(d, MAX_RATE);
      SignificantScaleIsExact(d, RATE_DECIMALS);
    }
  }
}
