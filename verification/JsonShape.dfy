/**
The exact form of the printed text (backend-rs/src/pyjson.rs:18-133).

The compact text is signed byte for byte, so it is not enough that a reader gets the value
back. What is fixed here:

- white space, which occurs only after commas and colons of the default text;
- escapes, in strings that follow section 7 of RFC 8259;
- the layout of numbers.
*/
module JsonShape {
  import opened DigitStrings
  import opened Json
  import opened PyJson
  import opened JsonStrings
  import opened JsonNumbers

  // ----- text outside string literals

  datatype Mode = Plain | Literal | Escaped

  /** The mode after a character, from quotes and backslashes alone. */
  function After(mode: Mode, c: char): Mode {
    match mode
    case Plain => if c == '"' then Literal else Plain
    case Literal => if c == '"' then Plain else if c == '\\' then Escaped else Literal
    case Escaped => Literal
  }

  function EndMode(t: string, mode: Mode): Mode
  {
    if |t| == 0 then mode else After(EndMode(t[..|t| - 1], mode), t[|t| - 1])
  }

  /** The characters outside string literals; a literal leaves its opening quote. */
  function Outside(t: string, mode: Mode): string
  {
    if |t| == 0 then ""
    else
      var init, c := t[..|t| - 1], t[|t| - 1];
      Outside(init, mode) + (if EndMode(init, mode).Plain? then [c] else "")
  }

  /** The text without the spaces outside string literals. */
  function Squeezed(t: string, mode: Mode): string
  {
    if |t| == 0 then ""
    else
      var init, c := t[..|t| - 1], t[|t| - 1];
      Squeezed(init, mode) + (if EndMode(init, mode).Plain? && c == ' ' then "" else [c])
  }

  lemma {:induction false} ScanAppend(a: string, b: string, mode: Mode)
    ensures EndMode(a + b, mode) == EndMode(b, EndMode(a, mode))
    ensures Outside(a + b, mode) == Outside(a, mode) + Outside(b, EndMode(a, mode))
    ensures Squeezed(a + b, mode) == Squeezed(a, mode) + Squeezed(b, EndMode(a, mode))
  {
    if |b| == 0 {
      assert a + b == a;
    } else {
      var init := b[..|b| - 1];
      assert (a + b)[..|a + b| - 1] == a + init;
      ScanAppend(a, init, mode);
    }
  }

  ghost predicate White(c: char) {
    c in {' ', '\t', '\n', '\r'}
  }

  /** No white space at all. */
  ghost predicate Bare(t: string) {
    forall k :: 0 <= k < |t| ==> !White(t[k])
  }

  ghost predicate SpacedAt(t: string, k: nat)
    requires k < |t|
  {
    (White(t[k]) ==> t[k] == ' ' && k > 0 && t[k - 1] in {',', ':'})
    && (t[k] in {',', ':'} ==> k + 1 < |t| && t[k + 1] == ' ')
  }

  /** One space after each comma and colon, and no other white space. */
  ghost predicate Spaced(t: string) {
    forall k :: 0 <= k < |t| ==> SpacedAt(t, k)
  }

  lemma {:induction false} SpacedJoin(a: string, b: string)
    requires Spaced(a) && Spaced(b)
    ensures Spaced(a + b)
  {
    var t := a + b;
    forall k | 0 <= k < |t| ensures SpacedAt(t, k) {
      if k < |a| {
        assert SpacedAt(a, k);
      } else {
        assert SpacedAt(b, k - |a|);
      }
    }
  }

  /** A piece of text that begins and ends outside literals, spaced as the style asks. */
  ghost predicate Piece(t: string, style: Style) {
    EndMode(t, Plain) == Plain && (if style.Compact? then Bare(Outside(t, Plain)) else Spaced(Outside(t, Plain)))
  }

  lemma {:induction false} PieceJoin(a: string, b: string, style: Style)
    requires Piece(a, style) && Piece(b, style)
    ensures Piece(a + b, style)
  {
    hide EndMode, Outside, Spaced;
    ScanAppend(a, b, Plain);
    if style.Default? {
      SpacedJoin(Outside(a, Plain), Outside(b, Plain));
    }
  }

  /** Text without quotes is all outside. */
  lemma {:induction false} NoQuotes(t: string)
    requires '"' !in t
    ensures EndMode(t, Plain) == Plain && Outside(t, Plain) == t
    ensures ' ' !in t ==> Squeezed(t, Plain) == t
  {
    if |t| > 0 {
      var init := t[..|t| - 1];
      NoQuotes(init);
      assert t == init + [t[|t| - 1]];
      assert t[|t| - 1] in t;
    }
  }

  ghost predicate Solid(t: string) {
    forall k :: 0 <= k < |t| ==> !White(t[k]) && t[k] !in {'"', ',', ':'}
  }

  lemma {:induction false} SolidPiece(t: string, style: Style)
    requires Solid(t)
    ensures Piece(t, style) && Squeezed(t, Plain) == t
  {
    NoQuotes(t);
  }

  lemma {:induction false} SolidJoin(a: string, b: string)
    requires Solid(a) && Solid(b)
    ensures Solid(a + b)
  {
  }

  // ----- separators

  lemma {:induction false} SeparatorPiece(style: Style)
    ensures Piece(style.Item(), style) && Piece(style.Key(), style)
    ensures Squeezed(style.Item(), Plain) == "," && Squeezed(style.Key(), Plain) == ":"
  {
    var t, u := style.Item(), style.Key();
    NoQuotes(t);
    NoQuotes(u);
    if style.Default? {
      TwoSqueezed(',');
      TwoSqueezed(':');
      assert t == [',', ' '] && u == [':', ' '];
    }
  }

  lemma {:induction false} TwoSqueezed(c: char)
    requires c != '"' && c != ' '
    ensures Squeezed([c, ' '], Plain) == [c]
  {
    var t := [c, ' '];
    assert t[..1] == [c] && [c][..0] == "";
    assert EndMode([c], Plain) == Plain;
    assert Squeezed([c], Plain) == Squeezed("", Plain) + [c];
  }

  // ----- string literals

  lemma {:induction false} TwoEscape(c: char)
    ensures EndMode(['\\', c], Literal) == Literal && Outside(['\\', c], Literal) == ""
    ensures Squeezed(['\\', c], Literal) == ['\\', c]
  {
    var t := ['\\', c];
    assert t[..1] == ['\\'] && ['\\'][..0] == "";
    assert EndMode(['\\'], Literal) == Escaped;
    assert Outside(['\\'], Literal) == Outside("", Literal) + "";
    assert Squeezed(['\\'], Literal) == Squeezed("", Literal) + ['\\'];
  }

  lemma {:induction false} Ordinary(t: string)
    requires '"' !in t && '\\' !in t
    ensures EndMode(t, Literal) == Literal && Outside(t, Literal) == "" && Squeezed(t, Literal) == t
  {
    if |t| > 0 {
      var init := t[..|t| - 1];
      assert t[|t| - 1] in t;
      Ordinary(init);
      assert t == init + [t[|t| - 1]];
    }
  }

  /** Text that stays inside a literal. */
  ghost predicate Inside(t: string) {
    EndMode(t, Literal) == Literal && Outside(t, Literal) == "" && Squeezed(t, Literal) == t
  }

  lemma {:induction false} InsideJoin(a: string, b: string)
    requires Inside(a) && Inside(b)
    ensures Inside(a + b)
  {
    hide EndMode, Outside, Squeezed;
    ScanAppend(a, b, Literal);
  }

  lemma {:induction false} UnitInside(u: nat)
    requires u < 0x10000
    ensures Inside(UnitEscape(u))
  {
    hide HexDigit;
    UnitShape(u);
    var t := UnitEscape(u);
    TwoEscape('u');
    Ordinary(t[2..]);
    InsideJoin(['\\', 'u'], t[2..]);
    assert t == ['\\', 'u'] + t[2..];
  }

  lemma {:induction false} UnitsInside(us: seq<nat>)
    requires forall k :: 0 <= k < |us| ==> us[k] < 0x10000
    ensures Inside(EscapeUnits(us))
  {
    if |us| > 0 {
      UnitsInside(us[1..]);
      UnitInside(us[0]);
      InsideJoin(UnitEscape(us[0]), EscapeUnits(us[1..]));
    }
  }

  lemma {:induction false} EscapeInside(c: char)
    ensures Inside(Escape(c))
  {
    hide EscapeUnits, Inside, Utf16;
    if c in {'"', '\\', '\n', '\r', '\t'} || c as int == 0x08 || c as int == 0x0c {
      ShortInside(c);
    } else if (c as int) < 0x20 || (c as int) > 0x7e {
      UnitsInside(Utf16(c));
    } else {
      OneInside(c);
    }
  }

  lemma {:induction false} ShortInside(c: char)
    requires c in {'"', '\\', '\n', '\r', '\t'} || c as int == 0x08 || c as int == 0x0c
    ensures Inside(Escape(c))
  {
    hide EndMode, Outside, Squeezed;
    var t := Escape(c);
    TwoEscape(t[1]);
    assert t == ['\\', t[1]];
  }

  lemma {:induction false} OneInside(c: char)
    requires c != '"' && c != '\\'
    ensures Inside([c])
  {
    Ordinary([c]);
  }

  lemma {:induction false} AllInside(s: string)
    ensures Inside(EscapeAll(s))
  {
    if |s| > 0 {
      hide Escape;
      AllInside(s[1..]);
      EscapeInside(s[0]);
      InsideJoin(Escape(s[0]), EscapeAll(s[1..]));
    }
  }

  lemma {:induction false} QuoteAlone()
    ensures EndMode("\"", Plain) == Literal && Outside("\"", Plain) == "\"" && Squeezed("\"", Plain) == "\""
    ensures EndMode("\"", Literal) == Plain && Outside("\"", Literal) == "" && Squeezed("\"", Literal) == "\""
  {
    assert "\""[..0] == "";
  }

  lemma {:induction false} StringPiece(s: string, style: Style)
    ensures Piece(StringText(s), style) && Squeezed(StringText(s), Plain) == StringText(s)
  {
    AllInside(s);
    QuoteAlone();
    var body := EscapeAll(s);
    ScanAppend("\"" + body, "\"", Plain);
    ScanAppend("\"", body, Plain);
    hide EndMode, Outside, Squeezed, EscapeAll;
    assert Outside(StringText(s), Plain) == "\"";
  }

  // ----- numbers

  lemma {:induction false} DigitsSolid(ds: seq<Digit>)
    ensures Solid(Text(ds)) && AllDigits(Text(ds))
  {
  }

  lemma {:induction false} NumberSolid(n: Number)
    requires ValidNumber(n)
    ensures Solid(NumberText(n))
  {
    hide Digits, Text, Solid;
    match n {
      case Int(v) =>
        IntSolid(v);
      case Float(negative, digits, exponent) =>
        if digits == [0] {
          ZeroSolid(negative, exponent);
        } else {
          hide FloatRepr;
          FloatSolid(negative, digits, exponent);
        }
    }
  }

  lemma {:induction false} ZeroSolid(negative: bool, exponent: int)
    ensures Solid(FloatRepr(negative, [0], exponent))
  {
  }

  lemma {:induction false} IntSolid(v: int)
    ensures Solid(IntText(v))
  {
    hide Digits, Text;
    DigitsSolid(Digits(if v < 0 then -v else v));
  }

  lemma {:induction false} FloatSolid(negative: bool, digits: seq<Digit>, exponent: int)
    requires CanonicalFloat(digits, exponent) && digits != [0]
    ensures Solid(FloatRepr(negative, digits, exponent))
  {
    hide FloatRepr, Text, Solid, ExponentPart, FractionPart;
    if -4 <= exponent < 0 {
      SmallLayout(negative, digits, exponent);
      PointSolid(negative, [0], Zeros(-(exponent + 1)) + digits);
    } else if 0 <= exponent < 16 {
      var pt := exponent + 1;
      LargeLayout(negative, digits, exponent);
      if pt >= |digits| {
        PointSolid(negative, digits + Zeros(pt - |digits|), [0]);
      } else {
        PointSolid(negative, digits[..pt], digits[pt..]);
      }
    } else {
      ScientificLayout(negative, digits, exponent);
      ScienceSolid(negative, digits[0], digits[1..], exponent);
    }
  }

  lemma {:induction false} PointSolid(negative: bool, whole: seq<Digit>, frac: seq<Digit>)
    ensures Solid(Signed(negative, Text(whole) + "." + Text(frac)))
  {
    hide Text;
    DigitsSolid(whole);
    DigitsSolid(frac);
  }

  lemma {:induction false} ScienceSolid(negative: bool, first: Digit, frac: seq<Digit>, exponent: int)
    ensures Solid(Signed(negative, Text([first]) + FractionPart(frac) + ExponentPart(exponent)))
  {
    hide Text, Solid, ExponentPart, FractionPart;
    DigitsSolid([first]);
    FractionSolid(frac);
    ExponentSolid(exponent);
    SolidJoin(Text([first]), FractionPart(frac));
    SolidJoin(Text([first]) + FractionPart(frac), ExponentPart(exponent));
    SignedSolid(negative, Text([first]) + FractionPart(frac) + ExponentPart(exponent));
  }

  lemma {:induction false} SignedSolid(negative: bool, body: string)
    requires Solid(body)
    ensures Solid(Signed(negative, body))
  {
  }

  lemma {:induction false} FractionSolid(frac: seq<Digit>)
    ensures Solid(FractionPart(frac))
  {
    hide Text;
    DigitsSolid(frac);
  }

  lemma {:induction false} ExponentSolid(exponent: int)
    ensures Solid(ExponentPart(exponent))
  {
    hide Text, Digits, ExponentText;
    var magnitude: nat := if exponent < 0 then -exponent else exponent;
    ExponentDigits(magnitude);
    DigitsSolid(if magnitude < 10 then [0] + Digits(magnitude) else Digits(magnitude));
  }

  // ----- values

  /**
  Compact text has no white space outside string literals; the default has one space after each
  comma and colon outside them, and no other.
  */
  lemma {:induction false} SpacingExactly(v: Json, style: Style)
    requires Valid(v)
    ensures Piece(Dumps(v, style), style)
    decreases v, 1
  {
    hide NumberText, StringText, Items, Fields, Piece;
    match v {
      case Num(n) =>
        NumberSolid(n);
        SolidPiece(NumberText(n), style);
      case Str(s) => StringPiece(s, style);
      case Arr(items) =>
        ItemsSpacing(items, style);
        Bracketed("[", Items(items, style), "]", style);
      case Obj(fields) =>
        FieldsSpacing(fields, style);
        Bracketed("{", Fields(fields, style), "}", style);
      case _ => SolidPiece(Dumps(v, style), style);
    }
  }

  lemma {:induction false} Bracketed(open: string, body: string, close: string, style: Style)
    requires Solid(open) && Solid(close) && Piece(body, style)
    ensures Piece(open + body + close, style)
  {
    hide Piece;
    SolidPiece(open, style);
    SolidPiece(close, style);
    PieceJoin(open, body, style);
    PieceJoin(open + body, close, style);
  }

  lemma {:induction false} ItemsSpacing(items: seq<Json>, style: Style)
    requires ValidItems(items)
    ensures Piece(Items(items, style), style)
    decreases items, 0
  {
    hide Dumps, Valid, Piece, Style.Item;
    if |items| == 0 {
      SolidPiece("", style);
    } else {
      SpacingExactly(items[0], style);
      if |items| > 1 {
        ItemsSpacing(items[1..], style);
        SeparatorPiece(style);
        PieceJoin(Dumps(items[0], style), style.Item(), style);
        PieceJoin(Dumps(items[0], style) + style.Item(), Items(items[1..], style), style);
      }
    }
  }

  lemma {:induction false} FieldSpacing(field: (string, Json), style: Style)
    requires ValidField(field)
    ensures Piece(FieldText(field, style), style)
    decreases field, 2
  {
    hide Dumps, StringText, Piece, Style.Key;
    StringPiece(field.0, style);
    SpacingExactly(field.1, style);
    SeparatorPiece(style);
    PieceJoin(StringText(field.0), style.Key(), style);
    PieceJoin(StringText(field.0) + style.Key(), Dumps(field.1, style), style);
  }

  lemma {:induction false} FieldsSpacing(fields: seq<(string, Json)>, style: Style)
    requires ValidFields(fields)
    ensures Piece(Fields(fields, style), style)
    decreases fields, 0
  {
    hide FieldText, ValidField, Piece, Style.Item;
    if |fields| == 0 {
      SolidPiece("", style);
    } else {
      FieldSpacing(fields[0], style);
      if |fields| > 1 {
        FieldsSpacing(fields[1..], style);
        SeparatorPiece(style);
        PieceJoin(FieldText(fields[0], style), style.Item(), style);
        PieceJoin(FieldText(fields[0], style) + style.Item(), Fields(fields[1..], style), style);
      }
    }
  }

  // ----- escapes

  /** The value of a lower-case hexadecimal digit. */
  ghost function LowerHex(c: char): int {
    if '0' <= c <= '9' then c as int - '0' as int
    else if 'a' <= c <= 'f' then c as int - 'a' as int + 10
    else -1
  }

  /** `\u` and four lower-case hexadecimal digits that write `u`. */
  ghost predicate IsUnit(t: string, u: int) {
    |t| == 6 && t[0] == '\\' && t[1] == 'u' && (forall k :: 2 <= k < 6 ==> LowerHex(t[k]) >= 0)
    && LowerHex(t[2]) * 4096 + LowerHex(t[3]) * 256 + LowerHex(t[4]) * 16 + LowerHex(t[5]) == u
  }

  lemma {:induction false} HexLower(n: nat)
    requires n < 16
    ensures LowerHex(HexDigit(n)) == n
  {
  }

  lemma {:induction false} UnitShape(u: nat)
    requires u < 0x10000
    ensures IsUnit(UnitEscape(u), u)
    ensures '"' !in UnitEscape(u)[2..] && '\\' !in UnitEscape(u)[2..]
  {
    hide HexDigit;
    HexArithmetic(u);
    HexLower(u / 4096);
    HexLower(u / 256 % 16);
    HexLower(u / 16 % 16);
    HexLower(u % 16);
    var t := UnitEscape(u);
    assert t[2] == HexDigit(u / 4096) && t[3] == HexDigit(u / 256 % 16);
    assert t[4] == HexDigit(u / 16 % 16) && t[5] == HexDigit(u % 16);
  }

  /** The seven characters that have a two-character escape, and its letter. */
  ghost function ShortLetter(c: char): char {
    match c as int
    case 0x22 => '"'
    case 0x5c => '\\'
    case 0x0a => 'n'
    case 0x0d => 'r'
    case 0x09 => 't'
    case 0x08 => 'b'
    case 0x0c => 'f'
    case _ => ' '
  }

  /**
  Each short escape stands for its own character; other printable characters stand for
  themselves; every other one is its UTF-16 units, a surrogate pair past the first plane.
  */
  lemma {:induction false} EscapeExactly(c: char)
    ensures var n := c as int; var t := Escape(c);
            if ShortLetter(c) != ' ' then t == ['\\', ShortLetter(c)]
            else if 0x20 <= n <= 0x7e then t == [c]
            else if n < 0x10000 then IsUnit(t, n)
            else |t| == 12 && IsUnit(t[..6], 0xD800 + (n - 0x10000) / 0x400)
                 && IsUnit(t[6..], 0xDC00 + (n - 0x10000) % 0x400)
  {
    hide UnitEscape, IsUnit;
    var n := c as int;
    if ShortLetter(c) == ' ' && !(0x20 <= n <= 0x7e) {
      var us := Utf16(c);
      UnitShape(us[0]);
      if n < 0x10000 {
        assert us == [n] && us[1..] == [];
        assert EscapeUnits(us) == UnitEscape(n) + EscapeUnits([]);
        assert UnitEscape(n) + "" == UnitEscape(n);
      } else {
        UnitShape(us[1]);
        assert us[1..] == [us[1]] && us[1..][1..] == [];
        assert EscapeUnits(us[1..]) == UnitEscape(us[1]) + EscapeUnits([]);
        assert UnitEscape(us[1]) + "" == UnitEscape(us[1]);
        assert EscapeUnits(us) == UnitEscape(us[0]) + UnitEscape(us[1]);
      }
    }
  }

  // ----- layouts of numbers

  /** Decimal digits without a leading zero, except zero itself. */
  ghost predicate NoLeadingZero(t: string) {
    |t| > 0 && AllDigits(t) && (|t| > 1 ==> t[0] != '0')
  }

  lemma {:induction false} IntShape(v: int)
    ensures if v < 0 then IntText(v)[..1] == "-" && NoLeadingZero(IntText(v)[1..]) else NoLeadingZero(IntText(v))
  {
    hide Digits;
    var n: nat := if v < 0 then -v else v;
    DigitsNum(n);
    assert v < 0 ==> IntText(v)[1..] == Text(Digits(n));
  }

  /** `whole.frac`: no leading zero, and no trailing zero except the one digit that must follow the point. */
  ghost predicate Fixed(body: string, whole: string, frac: string) {
    body == whole + "." + frac && NoLeadingZero(whole) && |frac| > 0 && AllDigits(frac)
    && (|frac| > 1 ==> frac[|frac| - 1] != '0')
  }

  /** `d.frac` or `d`, then `e`, a sign, and at least two digits without a needless zero. */
  ghost predicate Scientific(body: string, first: char, frac: string, esign: char, digits: string) {
    body == [first] + (if frac == "" then "" else "." + frac) + "e" + [esign] + digits
    && '1' <= first <= '9' && AllDigits(frac) && (|frac| > 0 ==> frac[|frac| - 1] != '0')
    && esign in {'+', '-'} && |digits| >= 2 && AllDigits(digits) && (|digits| > 2 ==> digits[0] != '0')
  }

  ghost predicate FixedText(body: string) {
    exists whole, frac :: Fixed(body, whole, frac)
  }

  ghost predicate ScientificText(body: string, esign: char) {
    exists first, frac, digits :: Scientific(body, first, frac, esign, digits)
  }

  /** Fixed notation exactly for exponents from -4 to 15, scientific otherwise; a minus sign for negative floats. */
  lemma {:induction false} FloatShape(negative: bool, digits: seq<Digit>, exponent: int) returns (body: string)
    requires CanonicalFloat(digits, exponent)
    ensures FloatRepr(negative, digits, exponent) == if negative then "-" + body else body
    ensures if -4 <= exponent < 16 then FixedText(body) else ScientificText(body, if exponent < 0 then '-' else '+')
  {
    hide Fixed, Scientific, Text, Zeros, FractionPart, ExponentPart, ExponentText;
    if digits == [0] {
      body := "0.0";
      ZeroShape(negative, exponent);
    } else if -4 <= exponent < 0 {
      hide FloatRepr;
      SmallLayout(negative, digits, exponent);
      SmallShape(digits, Zeros(-(exponent + 1)));
      body := Text([0]) + "." + Text(Zeros(-(exponent + 1)) + digits);
    } else if 0 <= exponent < 16 {
      hide FloatRepr;
      var pt := exponent + 1;
      LargeLayout(negative, digits, exponent);
      if pt >= |digits| {
        WholeShape(digits, Zeros(pt - |digits|));
        body := Text(digits + Zeros(pt - |digits|)) + "." + Text([0]);
      } else {
        MixedShape(digits, pt);
        body := Text(digits[..pt]) + "." + Text(digits[pt..]);
      }
    } else {
      hide FloatRepr;
      ScientificLayout(negative, digits, exponent);
      ScienceShape(digits, exponent);
      body := Text([digits[0]]) + FractionPart(digits[1..]) + ExponentPart(exponent);
    }
  }

  lemma {:induction false} ZeroShape(negative: bool, exponent: int)
    ensures Fixed("0.0", "0", "0")
    ensures FloatRepr(negative, [0], exponent) == if negative then "-" + "0.0" else "0.0"
  {
  }

  lemma {:induction false} SmallShape(digits: seq<Digit>, zeros: seq<Digit>)
    requires |digits| > 0 && digits[|digits| - 1] != 0
    ensures Fixed(Text([0]) + "." + Text(zeros + digits), Text([0]), Text(zeros + digits))
  {
    TextDigits(zeros + digits);
  }

  lemma {:induction false} WholeShape(digits: seq<Digit>, zeros: seq<Digit>)
    requires |digits| > 0 && digits[0] != 0
    ensures Fixed(Text(digits + zeros) + "." + Text([0]), Text(digits + zeros), Text([0]))
  {
    TextDigits(digits + zeros);
  }

  lemma {:induction false} MixedShape(digits: seq<Digit>, pt: nat)
    requires 0 < pt < |digits| && digits[0] != 0 && digits[|digits| - 1] != 0
    ensures Fixed(Text(digits[..pt]) + "." + Text(digits[pt..]), Text(digits[..pt]), Text(digits[pt..]))
  {
    TextDigits(digits[..pt]);
    TextDigits(digits[pt..]);
  }

  lemma {:induction false} ScienceShape(digits: seq<Digit>, exponent: int)
    requires |digits| > 0 && digits[0] != 0 && digits[|digits| - 1] != 0 && !(-4 <= exponent < 16)
    ensures Scientific(Text([digits[0]]) + FractionPart(digits[1..]) + ExponentPart(exponent),
                       Text([digits[0]])[0], Text(digits[1..]), if exponent < 0 then '-' else '+',
                       ExponentText(if exponent < 0 then -exponent else exponent))
  {
    var magnitude: nat := if exponent < 0 then -exponent else exponent;
    ExponentForm(magnitude);
    TextDigits(digits[1..]);
    hide ExponentText;
    var first := Text([digits[0]])[0];
    assert Text([digits[0]]) == [first];
    var esign := if exponent < 0 then '-' else '+';
    var e := ExponentText(magnitude);
    var frac := if Text(digits[1..]) == "" then "" else "." + Text(digits[1..]);
    assert FractionPart(digits[1..]) == frac;
    assert [first] + frac + ("e" + [esign] + e) == [first] + frac + "e" + [esign] + e;
    assert ExponentPart(exponent) == "e" + [esign] + e;
  }

  lemma {:induction false} ExponentForm(n: nat)
    ensures var t := ExponentText(n); |t| >= 2 && AllDigits(t) && (|t| > 2 ==> t[0] != '0')
  {
    DigitsNum(n);
    TextDigits(Digits(n));
    if n >= 10 {
      AtLeastOne(n / 10);
      hide Digits;
    }
  }

  lemma {:induction false} AtLeastOne(n: nat)
    ensures |Digits(n)| > 0
  {
  }

  // ----- the two styles

  /** The compact text is the default text without the spaces outside string literals. */
  lemma {:induction false} CompactIsSqueezed(v: Json)
    requires Valid(v)
    ensures Squeezed(Dumps(v, Default), Plain) == Dumps(v, Compact)
    decreases v, 1
  {
    hide NumberText, StringText, Items, Fields, Squeezed;
    match v {
      case Num(n) =>
        NumberSolid(n);
        SolidPiece(NumberText(n), Default);
      case Str(s) => StringPiece(s, Default);
      case Arr(items) =>
        ItemsSqueezed(items);
        ItemsSpacing(items, Default);
        SqueezedBrackets("[", Items(items, Default), "]");
      case Obj(fields) =>
        FieldsSqueezed(fields);
        FieldsSpacing(fields, Default);
        SqueezedBrackets("{", Fields(fields, Default), "}");
      case _ => SolidPiece(Dumps(v, Default), Default);
    }
  }

  lemma {:induction false} SqueezedBrackets(open: string, body: string, close: string)
    requires Solid(open) && Solid(close) && Piece(body, Default)
    ensures Squeezed(open + body + close, Plain) == open + Squeezed(body, Plain) + close
  {
    hide Squeezed, EndMode, Outside, Solid;
    SolidPiece(open, Default);
    SolidPiece(close, Default);
    ScanAppend(open + body, close, Plain);
    ScanAppend(open, body, Plain);
  }

  /** Pieces are squeezed one by one. */
  lemma {:induction false} SqueezedThree(a: string, b: string, c: string)
    requires Piece(a, Default) && Piece(b, Default)
    ensures Squeezed(a + b + c, Plain) == Squeezed(a, Plain) + Squeezed(b, Plain) + Squeezed(c, Plain)
  {
    hide Squeezed, EndMode, Outside;
    ScanAppend(a + b, c, Plain);
    ScanAppend(a, b, Plain);
  }

  lemma {:induction false} ItemsSqueezed(items: seq<Json>)
    requires ValidItems(items)
    ensures Squeezed(Items(items, Default), Plain) == Items(items, Compact)
    decreases items, 0
  {
    hide Dumps, Valid, Piece, Squeezed, Style.Item;
    if |items| == 0 {
      SolidPiece("", Default);
    } else {
      CompactIsSqueezed(items[0]);
      if |items| > 1 {
        ItemsSqueezed(items[1..]);
        SpacingExactly(items[0], Default);
        SeparatorPiece(Default);
        CompactSeparators();
        SqueezedThree(Dumps(items[0], Default), Style.Default.Item(), Items(items[1..], Default));
      }
    }
  }

  lemma {:induction false} CompactSeparators()
    ensures Style.Compact.Item() == "," && Style.Compact.Key() == ":"
  {
  }

  lemma {:induction false} FieldSqueezed(field: (string, Json))
    requires ValidField(field)
    ensures Squeezed(FieldText(field, Default), Plain) == FieldText(field, Compact)
    decreases field, 2
  {
    hide Dumps, StringText, Piece, Squeezed, Style.Key;
    StringPiece(field.0, Default);
    CompactIsSqueezed(field.1);
    SeparatorPiece(Default);
    CompactSeparators();
    SqueezedThree(StringText(field.0), Style.Default.Key(), Dumps(field.1, Default));
  }

  lemma {:induction false} FieldsSqueezed(fields: seq<(string, Json)>)
    requires ValidFields(fields)
    ensures Squeezed(Fields(fields, Default), Plain) == Fields(fields, Compact)
    decreases fields, 0
  {
    hide FieldText, ValidField, Piece, Squeezed, Style.Item;
    if |fields| == 0 {
      SolidPiece("", Default);
    } else {
      FieldSqueezed(fields[0]);
      if |fields| > 1 {
        FieldsSqueezed(fields[1..]);
        FieldSpacing(fields[0], Default);
        SeparatorPiece(Default);
        CompactSeparators();
        SqueezedThree(FieldText(fields[0], Default), Style.Default.Item(), Fields(fields[1..], Default));
      }
    }
  }
}
