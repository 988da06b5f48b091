/**
The printed text is printable ASCII (backend-rs/src/pyjson.rs:61-133).

Everything outside 0x20 to 0x7e leaves `dumps_str` as an escape, and the other parts of the
text are digits, signs, words and separators. The lemmas follow the printer:

- one code unit, one character, one string;
- one number, in each of its layouts;
- one value, item by item and field by field.
*/
module JsonAscii {
  import opened DigitStrings
  import opened Json
  import opened PyJson
  import opened JsonStrings
  import opened JsonNumbers

  predicate Printable(t: string) {
    forall k :: 0 <= k < |t| ==> 0x20 <= t[k] as int <= 0x7e
  }

  lemma {:induction false} EscapePrintable(s: string)
    ensures Printable(EscapeAll(s))
  {
    if |s| > 0 {
      EscapePrintable(s[1..]);
      CharPrintable(s[0]);
    }
  }

  lemma {:induction false} CharPrintable(c: char)
    ensures Printable(Escape(c))
  {
    if (c as int) < 0x20 || (c as int) > 0x7e {
      UnitsPrintable(Utf16(c));
    }
  }

  lemma {:induction false} UnitsPrintable(us: seq<nat>)
    requires forall k :: 0 <= k < |us| ==> us[k] < 0x10000
    ensures Printable(EscapeUnits(us))
  {
    if |us| > 0 {
      UnitsPrintable(us[1..]);
      UnitPrintable(us[0]);
    }
  }

  lemma {:induction false} UnitPrintable(u: nat)
    requires u < 0x10000
    ensures Printable(UnitEscape(u))
  {
    HexArithmetic(u);
    HexPrintable(u / 4096);
    HexPrintable(u / 256 % 16);
    HexPrintable(u / 16 % 16);
    HexPrintable(u % 16);
  }

  lemma {:induction false} HexPrintable(n: nat)
    requires n < 16
    ensures 0x20 <= HexDigit(n) as int <= 0x7e
  {
  }

  lemma {:induction false} Joined(a: string, b: string)
    requires Printable(a) && Printable(b)
    ensures Printable(a + b)
  {
  }

  lemma {:induction false} TextPrintable(ds: seq<Digit>)
    ensures Printable(Text(ds))
  {
  }

  lemma {:induction false} SignedPrintable(negative: bool, body: string)
    requires Printable(body)
    ensures Printable(Signed(negative, body))
  {
  }

  lemma {:induction false} PointPrintable(negative: bool, whole: seq<Digit>, frac: seq<Digit>)
    ensures Printable(Signed(negative, Text(whole) + "." + Text(frac)))
  {
    hide Text, Signed;
    TextPrintable(whole);
    TextPrintable(frac);
    Joined(Text(whole), ".");
    Joined(Text(whole) + ".", Text(frac));
    SignedPrintable(negative, Text(whole) + "." + Text(frac));
  }

  lemma {:induction false} ExponentPrintable(exponent: int)
    ensures Printable(ExponentPart(exponent))
  {
    hide Text, Digits, ExponentText;
    var magnitude: nat := if exponent < 0 then -exponent else exponent;
    ExponentDigits(magnitude);
    TextPrintable(if magnitude < 10 then [0] + Digits(magnitude) else Digits(magnitude));
  }

  lemma {:induction false} SciencePrintable(negative: bool, first: Digit, frac: seq<Digit>, exponent: int)
    ensures Printable(Signed(negative, Text([first]) + FractionPart(frac) + ExponentPart(exponent)))
  {
    hide Text, Signed, ExponentPart;
    TextPrintable([first]);
    TextPrintable(frac);
    Joined(".", Text(frac));
    Joined(Text([first]), FractionPart(frac));
    ExponentPrintable(exponent);
    Joined(Text([first]) + FractionPart(frac), ExponentPart(exponent));
    SignedPrintable(negative, Text([first]) + FractionPart(frac) + ExponentPart(exponent));
  }

  lemma {:induction false} FloatPrintable(negative: bool, digits: seq<Digit>, exponent: int)
    requires CanonicalFloat(digits, exponent) && digits != [0]
    ensures Printable(FloatRepr(negative, digits, exponent))
  {
    hide FloatRepr, Text, Signed, Printable, FractionPart, ExponentPart;
    if -4 <= exponent < 0 {
      SmallLayout(negative, digits, exponent);
      PointPrintable(negative, [0], Zeros(-(exponent + 1)) + digits);
    } else if 0 <= exponent < 16 {
      var pt := exponent + 1;
      LargeLayout(negative, digits, exponent);
      if pt >= |digits| {
        PointPrintable(negative, digits + Zeros(pt - |digits|), [0]);
      } else {
        PointPrintable(negative, digits[..pt], digits[pt..]);
      }
    } else {
      ScientificLayout(negative, digits, exponent);
      SciencePrintable(negative, digits[0], digits[1..], exponent);
    }
  }

  lemma {:induction false} NumberPrintable(n: Number)
    requires ValidNumber(n)
    ensures Printable(NumberText(n))
  {
    hide Digits, Text;
    match n {
      case Int(v) =>
        TextPrintable(Digits(if v < 0 then -v else v));
      case Float(negative, digits, exponent) =>
        if digits != [0] {
          hide FloatRepr;
          FloatPrintable(negative, digits, exponent);
        }
    }
  }

  /** Only characters from space to tilde are written. */
  lemma {:induction false} DumpsPrintable(v: Json, style: Style)
    requires Valid(v)
    ensures Printable(Dumps(v, style))
    decreases v, 1
  {
    hide NumberText, EscapeAll, Items, Fields;
    match v {
      case Num(n) => NumberPrintable(n);
      case Str(s) => EscapePrintable(s);
      case Arr(items) => ItemsPrintable(items, style);
      case Obj(fields) => FieldsPrintable(fields, style);
      case _ =>
    }
  }

  lemma {:induction false} ItemsPrintable(items: seq<Json>, style: Style)
    requires ValidItems(items)
    ensures Printable(Items(items, style))
    decreases items, 0
  {
    hide Dumps, Valid;
    if |items| > 0 {
      DumpsPrintable(items[0], style);
      ItemsPrintable(items[1..], style);
    }
  }

  lemma {:induction false} FieldPrintable(field: (string, Json), style: Style)
    requires ValidField(field)
    ensures Printable(FieldText(field, style))
    decreases field, 2
  {
    hide Dumps, EscapeAll;
    EscapePrintable(field.0);
    DumpsPrintable(field.1, style);
  }

  lemma {:induction false} FieldsPrintable(fields: seq<(string, Json)>, style: Style)
    requires ValidFields(fields)
    ensures Printable(Fields(fields, style))
    decreases fields, 0
  {
    hide FieldText, ValidField;
    if |fields| > 0 {
      FieldPrintable(fields[0], style);
      FieldsPrintable(fields[1..], style);
    }
  }
}
