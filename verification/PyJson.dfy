/**
Python's `json.dumps` text (backend-rs/src/pyjson.rs, `dumps_str`, `float_repr`,
`dumps_sep`, `dumps`, `dumps_compact`).
*/
module PyJson {
  import opened DigitStrings
  import opened Json

  // ----- strings

  function HexDigit(n: nat): char
    requires n < 16
  {
    "0123456789abcdef"[n]
  }

  /** `\uXXXX` for one 16-bit unit. */
  function UnitEscape(u: nat): (s: string)
    requires u < 0x10000
    ensures |s| == 6
  {
    "\\u" + [HexDigit(u / 4096), HexDigit(u / 256 % 16), HexDigit(u / 16 % 16), HexDigit(u % 16)]
  }

  /** The UTF-16 units of a character: one, or a surrogate pair. */
  function Utf16(c: char): (us: seq<nat>)
    ensures forall k :: 0 <= k < |us| ==> us[k] < 0x10000
  {
    var n := c as int;
    if n < 0x10000 then [n]
    else [0xD800 + (n - 0x10000) / 0x400, 0xDC00 + (n - 0x10000) % 0x400]
  }

  function EscapeUnits(us: seq<nat>): string
    requires forall k :: 0 <= k < |us| ==> us[k] < 0x10000
  {
    if |us| == 0 then "" else UnitEscape(us[0]) + EscapeUnits(us[1..])
  }

  function Escape(c: char): string {
    if c == '"' then "\\\""
    else if c == '\\' then "\\\\"
    else if c == '\n' then "\\n"
    else if c == '\r' then "\\r"
    else if c == '\t' then "\\t"
    else if c as int == 0x08 then "\\b"
    else if c as int == 0x0c then "\\f"
    else if (c as int) < 0x20 || (c as int) > 0x7e then EscapeUnits(Utf16(c))
    else [c]
  }

  function EscapeAll(s: string): string
  {
    if |s| == 0 then "" else Escape(s[0]) + EscapeAll(s[1..])
  }

  function StringText(s: string): string {
    "\"" + EscapeAll(s) + "\""
  }

  lemma {:induction false} EscapeAppend(s: string, c: char)
    ensures EscapeAll(s + [c]) == EscapeAll(s) + Escape(c)
  {
    if |s| == 0 {
      assert s + [c] == [c];
      assert [c][1..] == "";
    } else {
      assert (s + [c])[1..] == s[1..] + [c];
      EscapeAppend(s[1..], c);
    }
  }

  method DumpsStr(s: string, before: string) returns (out: string)
    ensures out == before + StringText(s)
  {
    hide Escape, EscapeAll;
    out := before + "\"";
    var i := 0;
    EscapeNothing(s);
    while i < |s|
      invariant 0 <= i <= |s|
      invariant out == before + "\"" + EscapeAll(s[..i])
    {
      EscapeAppend(s[..i], s[i]);
      assert s[..i + 1] == s[..i] + [s[i]];
      out := out + Escape(s[i]);
      i := i + 1;
    }
    assert s[..i] == s;
    out := out + "\"";
  }

  lemma {:induction false} EscapeNothing(s: string)
    ensures EscapeAll(s[..0]) == ""
  {
  }

  // ----- numbers

  function NatText(n: nat): string {
    Text(Digits(n))
  }

  function IntText(v: int): string {
    if v < 0 then "-" + NatText(-v) else NatText(v)
  }

  /** At least two digits. */
  function ExponentText(n: nat): string {
    if n < 10 then "0" + NatText(n) else NatText(n)
  }

  /**
  `repr(float)`: fixed notation for exponents in [-4, 16), scientific outside it, and
  always a fraction or an exponent.
  */
  function FloatRepr(negative: bool, digits: seq<Digit>, exponent: int): string
    requires |digits| > 0
  {
    var sign := if negative then "-" else "";
    if digits == [0] then sign + "0.0"
    else if -4 <= exponent < 16 then
      var pt := exponent + 1;
      if pt <= 0 then sign + "0." + Text(Zeros(-pt) + digits)
      else if pt >= |digits| then sign + Text(digits + Zeros(pt - |digits|)) + ".0"
      else sign + Text(digits[..pt]) + "." + Text(digits[pt..])
    else
      var frac := if |digits| == 1 then "" else "." + Text(digits[1..]);
      var magnitude := if exponent < 0 then -exponent else exponent;
      sign + Text(digits[..1]) + frac + "e" + (if exponent < 0 then "-" else "+") + ExponentText(magnitude)
  }

  /** Shortest digits: no leading and no trailing zero, except zero itself. */
  predicate CanonicalFloat(digits: seq<Digit>, exponent: int) {
    (digits == [0] && exponent == 0)
    || (|digits| > 0 && digits[0] != 0 && digits[|digits| - 1] != 0)
  }

  predicate ValidNumber(n: Number) {
    n.Float? ==> CanonicalFloat(n.digits, n.exponent)
  }

  function NumberText(n: Number): string
    requires ValidNumber(n)
  {
    match n
    case Int(v) => IntText(v)
    case Float(negative, digits, exponent) => FloatRepr(negative, digits, exponent)
  }

  // ----- values

  predicate Valid(v: Json)
    decreases v, 1
  {
    match v
    case Num(n) => ValidNumber(n)
    case Arr(items) => ValidItems(items)
    case Obj(fields) => ValidFields(fields)
    case _ => true
  }

  predicate ValidItems(items: seq<Json>)
    decreases items, 0
  {
    |items| == 0 || (Valid(items[0]) && ValidItems(items[1..]))
  }

  predicate ValidFields(fields: seq<(string, Json)>)
    decreases fields, 0
  {
    |fields| == 0 || (ValidField(fields[0]) && ValidFields(fields[1..]))
  }

  predicate ValidField(field: (string, Json))
    decreases field, 2
  {
    Valid(field.1)
  }

  /** The two separators in use: Python's defaults and the compact form. */
  datatype Style = Default | Compact {
    function Item(): string {
      if Default? then ", " else ","
    }

    function Key(): string {
      if Default? then ": " else ":"
    }
  }

  function Dumps(v: Json, style: Style): string
    requires Valid(v)
    decreases v, 1
  {
    match v
    case Null => "null"
    case Bool(b) => if b then "true" else "false"
    case Num(n) => NumberText(n)
    case Str(s) => StringText(s)
    case Arr(items) => "[" + Items(items, style) + "]"
    case Obj(fields) => "{" + Fields(fields, style) + "}"
  }

  function Items(items: seq<Json>, style: Style): string
    requires ValidItems(items)
    decreases items, 0
  {
    if |items| == 0 then ""
    else if |items| == 1 then Dumps(items[0], style)
    else Dumps(items[0], style) + style.Item() + Items(items[1..], style)
  }

  function FieldText(field: (string, Json), style: Style): string
    requires ValidField(field)
    decreases field, 2
  {
    StringText(field.0) + style.Key() + Dumps(field.1, style)
  }

  function Fields(fields: seq<(string, Json)>, style: Style): string
    requires ValidFields(fields)
    decreases fields, 0
  {
    if |fields| == 0 then ""
    else if |fields| == 1 then FieldText(fields[0], style)
    else FieldText(fields[0], style) + style.Item() + Fields(fields[1..], style)
  }

  // ----- the appending writer

  lemma {:induction false} ItemsAppend(items: seq<Json>, v: Json, style: Style)
    requires ValidItems(items) && Valid(v)
    ensures ValidItems(items + [v])
    ensures Items(items + [v], style) == if |items| == 0 then Dumps(v, style)
      else Items(items, style) + style.Item() + Dumps(v, style)
    decreases |items|
  {
    hide Dumps, Valid;
    if |items| == 0 {
      assert items + [v] == [v];
      assert [v][1..] == [];
    } else {
      assert (items + [v])[1..] == items[1..] + [v];
      ItemsAppend(items[1..], v, style);
    }
  }

  lemma {:induction false} FieldsAppend(fields: seq<(string, Json)>, f: (string, Json), style: Style)
    requires ValidFields(fields) && ValidField(f)
    ensures ValidFields(fields + [f])
    ensures Fields(fields + [f], style)
         == if |fields| == 0 then FieldText(f, style) else Fields(fields, style) + style.Item() + FieldText(f, style)
    decreases |fields|
  {
    hide FieldText, ValidField;
    if |fields| == 0 {
      assert fields + [f] == [f];
      assert [f][1..] == [];
    } else {
      assert (fields + [f])[1..] == fields[1..] + [f];
      FieldsAppend(fields[1..], f, style);
    }
  }

  lemma {:induction false} ValidItemAt(items: seq<Json>, i: nat)
    requires ValidItems(items) && i < |items|
    ensures Valid(items[i])
    decreases i
  {
    if i > 0 {
      ValidItemAt(items[1..], i - 1);
    }
  }

  lemma {:induction false} ValidFieldAt(fields: seq<(string, Json)>, i: nat)
    requires ValidFields(fields) && i < |fields|
    ensures ValidField(fields[i])
    decreases i
  {
    if i > 0 {
      ValidFieldAt(fields[1..], i - 1);
    }
  }

  method DumpsSep(v: Json, before: string, style: Style) returns (out: string)
    requires Valid(v)
    ensures out == before + Dumps(v, style)
    decreases v, 1
  {
    match v {
      case Null => out := before + "null";
      case Bool(b) => out := before + (if b then "true" else "false");
      case Num(n) => out := before + NumberText(n);
      case Str(s) => out := DumpsStr(s, before);
      case Arr(items) => out := DumpsItems(items, before, style);
      case Obj(fields) => out := DumpsFields(fields, before, style);
    }
  }

  method DumpsItems(items: seq<Json>, before: string, style: Style) returns (out: string)
    requires ValidItems(items)
    ensures out == before + ("[" + Items(items, style) + "]")
    decreases items, 0
  {
    hide Items, Dumps, Valid, ValidItems;
    out := before + "[";
    NoItems(items, style);
    var i := 0;
    while i < |items|
      invariant 0 <= i <= |items| && ValidItems(items[..i])
      invariant out == before + "[" + Items(items[..i], style)
    {
      ValidItemAt(items, i);
      ItemsAppend(items[..i], items[i], style);
      assert items[..i + 1] == items[..i] + [items[i]];
      if i > 0 {
        out := out + style.Item();
      }
      out := DumpsSep(items[i], out, style);
      i := i + 1;
    }
    assert items[..i] == items;
    out := out + "]";
  }

  lemma {:induction false} NoItems(items: seq<Json>, style: Style)
    ensures ValidItems(items[..0]) && Items(items[..0], style) == ""
  {
  }

  method DumpsFields(fields: seq<(string, Json)>, before: string, style: Style) returns (out: string)
    requires ValidFields(fields)
    ensures out == before + ("{" + Fields(fields, style) + "}")
    decreases fields, 0
  {
    hide Fields, Dumps, Valid, ValidFields, StringText;
    out := before + "{";
    NoFields(fields, style);
    var i := 0;
    while i < |fields|
      invariant 0 <= i <= |fields| && ValidFields(fields[..i])
      invariant out == before + "{" + Fields(fields[..i], style)
    {
      ValidFieldAt(fields, i);
      FieldsAppend(fields[..i], fields[i], style);
      assert fields[..i + 1] == fields[..i] + [fields[i]];
      if i > 0 {
        out := out + style.Item();
      }
      out := DumpsField(fields[i], out, style);
      i := i + 1;
    }
    assert fields[..i] == fields;
    out := out + "}";
  }

  lemma {:induction false} NoFields(fields: seq<(string, Json)>, style: Style)
    ensures ValidFields(fields[..0]) && Fields(fields[..0], style) == ""
  {
  }

  method DumpsField(field: (string, Json), before: string, style: Style) returns (out: string)
    requires ValidField(field)
    ensures out == before + FieldText(field, style)
    decreases field, 2
  {
    out := DumpsStr(field.0, before);
    out := out + style.Key();
    out := DumpsSep(field.1, out, style);
  }
}
