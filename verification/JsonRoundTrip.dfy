/**
Reading what was printed gives the value back, in both separator styles; so the printed text
identifies the value.
*/
module JsonRoundTrip {
  import opened Wrappers
  import opened DigitStrings
  import opened Json
  import opened PyJson
  import opened JsonReader
  import opened JsonStrings
  import opened JsonNumbers

  /** The first character tells the reader which kind of value follows. */
  lemma {:induction false} NumberStarts(n: Number, rest: string)
    requires ValidNumber(n) && EndsNumber(rest)
    ensures var t := NumberText(n) + rest;
            |t| > 0 && (t[0] == '-' || IsDigitChar(t[0]))
  {
    hide NumberText, ReadFraction, ReadExponent, Normalize, EndsNumber;
    NumberRoundTrip(n, rest);
  }

  lemma {:induction false} NumberValue(n: Number, rest: string)
    requires ValidNumber(n) && EndsNumber(rest)
    ensures ReadValue(NumberText(n) + rest) == Some((Num(n), rest))
  {
    hide NumberText, ReadNumber, ReadItems, ReadFields, ReadBody, SkipWhite, ValidNumber;
    NumberRoundTrip(n, rest);
    NumberStarts(n, rest);
  }

  lemma {:induction false} WordValue(word: string, v: Json, rest: string)
    requires (word == "null" && v == Null) || (word == "true" && v == Bool(true))
      || (word == "false" && v == Bool(false))
    ensures ReadValue(word + rest) == Some((v, rest))
  {
    hide ReadNumber, ReadItems, ReadFields, ReadBody, SkipWhite;
    assert word <= word + rest && (word + rest)[|word|..] == rest;
  }

  lemma {:induction false} StringValue(s: string, rest: string)
    ensures ReadValue(StringText(s) + rest) == Some((Str(s), rest))
    ensures |StringText(s) + rest| > 0 && (StringText(s) + rest)[0] == '"'
  {
    hide ReadNumber, ReadItems, ReadFields, ReadBody, SkipWhite, EscapeAll;
    BodyRoundTrip(s, rest);
    assert (StringText(s) + rest)[1..] == EscapeAll(s) + "\"" + rest;
  }

  /** A printed value never starts with white space or a closing bracket. */
  predicate StartsValue(t: string) {
    |t| > 0 && !IsWhite(t[0]) && t[0] != ']' && t[0] != '}'
  }

  lemma {:induction false} DumpsStarts(v: Json, style: Style, rest: string)
    requires Valid(v) && EndsNumber(rest)
    ensures StartsValue(Dumps(v, style) + rest)
  {
    hide NumberText, StringText, Items, Fields, ValidNumber, EndsNumber;
    match v {
      case Num(n) => NumberStarts(n, rest);
      case Str(s) => StringValue(s, rest);
      case _ =>
    }
  }

  lemma {:induction false} SkipNothing(t: string)
    requires |t| > 0 && !IsWhite(t[0])
    ensures SkipWhite(t) == t && SkipWhite(" " + t) == t
  {
    assert (" " + t)[1..] == t;
  }

  lemma {:induction false} SpacedValue(t: string)
    requires |t| > 0
    ensures ReadValue(" " + t) == ReadValue(t)
  {
    hide ReadNumber, ReadItems, ReadFields, ReadBody, SkipWhite;
    assert (" " + t)[1..] == t;
  }

  lemma {:induction false} ItemShape(style: Style, t: string)
    ensures var s := style.Item() + t;
            s[0] == ',' && (s[1..] == t || s[1..] == " " + t)
  {
    if style.Default? {
      assert (style.Item() + t)[1..] == " " + t;
    } else {
      assert (style.Item() + t)[1..] == t;
    }
  }

  lemma {:induction false} KeyShape(style: Style, t: string)
    ensures var s := style.Key() + t;
            s[0] == ':' && (s[1..] == t || s[1..] == " " + t)
  {
    if style.Default? {
      assert (style.Key() + t)[1..] == " " + t;
    } else {
      assert (style.Key() + t)[1..] == t;
    }
  }

  lemma {:induction false} SpacedItems(t: string)
    requires |t| > 0
    ensures ReadItems(" " + t) == ReadItems(t)
  {
    hide ReadValue, SkipWhite;
    SpacedValue(t);
  }

  lemma {:induction false} SpacedFields(t: string)
    requires |t| > 0 && t[0] == '"'
    ensures ReadFields(" " + t) == ReadFields(t)
  {
    hide ReadValue, SkipWhite, ReadBody;
    SkipNothing(t);
  }

  /** After an item separator the next value is read as if the separator were a bare comma. */
  lemma {:induction false} AfterSeparator(style: Style, t: string)
    requires |t| > 0
    ensures var s := style.Item() + t;
            SkipWhite(s) == s && s[0] == ',' && ReadItems(s[1..]) == ReadItems(t)
  {
    hide ReadItems, SkipWhite, Style.Item;
    ItemShape(style, t);
    SkipNothing(style.Item() + t);
    SpacedItems(t);
  }

  lemma {:induction false} AfterFieldSeparator(style: Style, t: string)
    requires |t| > 0 && t[0] == '"'
    ensures var s := style.Item() + t;
            SkipWhite(s) == s && s[0] == ',' && ReadFields(s[1..]) == ReadFields(t)
  {
    hide ReadFields, SkipWhite, Style.Item;
    ItemShape(style, t);
    SkipNothing(style.Item() + t);
    SpacedFields(t);
  }

  lemma {:induction false} AfterColon(style: Style, t: string)
    requires |t| > 0
    ensures var s := style.Key() + t;
            SkipWhite(s) == s && s[0] == ':' && ReadValue(s[1..]) == ReadValue(t)
  {
    hide ReadValue, SkipWhite, Style.Key;
    KeyShape(style, t);
    SkipNothing(style.Key() + t);
    SpacedValue(t);
  }

  lemma {:induction false} ItemEnds(style: Style, t: string)
    ensures EndsNumber(style.Item() + t) && EndsNumber("]" + t) && EndsNumber("}" + t)
  {
  }

  lemma {:induction false} ClosingStops(c: char, rest: string)
    requires c == ']' || c == '}'
    ensures SkipWhite([c] + rest) == [c] + rest && ([c] + rest)[1..] == rest
  {
  }

  /** Reading a printed value gives it back with the rest of the text untouched. */
  lemma {:induction false} ValueRoundTrip(v: Json, style: Style, rest: string)
    requires Valid(v) && EndsNumber(rest)
    ensures ReadValue(Dumps(v, style) + rest) == Some((v, rest))
    decreases v, 3
  {
    hide NumberText, StringText, ReadValue, Items, Fields, ValidNumber, ValidItems, ValidFields, EndsNumber;
    match v {
      case Null => WordValue("null", v, rest);
      case Bool(b) => WordValue(if b then "true" else "false", v, rest);
      case Num(n) => NumberValue(n, rest);
      case Str(s) => StringValue(s, rest);
      case Arr(items) =>
        if |items| > 0 {
          ItemsRoundTrip(items, style, rest);
          ItemsStart(items, style, rest);
        }
        ArrayValue(items, style, rest);
      case Obj(fields) =>
        if |fields| > 0 {
          FieldsRoundTrip(fields, style, rest);
          FieldsStart(fields, style, rest);
        }
        ObjectValue(fields, style, rest);
    }
  }

  lemma {:induction false} ItemsStart(items: seq<Json>, style: Style, rest: string)
    requires ValidItems(items) && |items| > 0
    ensures StartsValue(Items(items, style) + "]" + rest)
  {
    hide Dumps, Valid, StartsValue;
    var first := Dumps(items[0], style);
    if |items| == 1 {
      ItemEnds(style, rest);
      DumpsStarts(items[0], style, "]" + rest);
      assert Items(items, style) + "]" + rest == first + ("]" + rest);
    } else {
      var tail := Items(items[1..], style) + "]" + rest;
      ItemEnds(style, tail);
      DumpsStarts(items[0], style, style.Item() + tail);
      assert Items(items, style) + "]" + rest == first + (style.Item() + tail);
    }
  }

  lemma {:induction false} FieldsStart(fields: seq<(string, Json)>, style: Style, rest: string)
    requires ValidFields(fields) && |fields| > 0
    ensures var t := Fields(fields, style) + "}" + rest; |t| > 0 && t[0] == '"'
  {
    hide Dumps, Valid, Fields, EscapeAll;
    FieldsHead(fields, style);
  }

  lemma {:induction false} FieldsHead(fields: seq<(string, Json)>, style: Style)
    requires ValidFields(fields) && |fields| > 0
    ensures |Fields(fields, style)| > 0 && Fields(fields, style)[0] == '"'
  {
    hide Dumps, Valid, EscapeAll;
  }

  lemma {:induction false} ArrayValue(items: seq<Json>, style: Style, rest: string)
    requires ValidItems(items)
    requires |items| > 0 ==> StartsValue(Items(items, style) + "]" + rest)
                             && ReadItems(Items(items, style) + "]" + rest) == Some((items, rest))
    ensures ReadValue("[" + Items(items, style) + "]" + rest) == Some((Arr(items), rest))
  {
    hide ReadNumber, ReadItems, ReadFields, ReadBody, SkipWhite, Dumps, ValidItems;
    var body := Items(items, style) + "]" + rest;
    var t := "[" + Items(items, style) + "]" + rest;
    assert t[1..] == body;
    if |items| == 0 {
      hide Items;
      NoItemsText(items, style);
      assert body == "]" + rest;
      ClosingStops(']', rest);
    } else {
      hide Items;
      SkipNothing(body);
    }
  }

  lemma {:induction false} NoItemsText(items: seq<Json>, style: Style)
    requires |items| == 0
    ensures ValidItems(items) && Items(items, style) == "" && items == []
  {
  }

  lemma {:induction false} ObjectValue(fields: seq<(string, Json)>, style: Style, rest: string)
    requires ValidFields(fields)
    requires |fields| > 0 ==> (var t := Fields(fields, style) + "}" + rest; |t| > 0 && t[0] == '"')
                              && ReadFields(Fields(fields, style) + "}" + rest) == Some((fields, rest))
    ensures ReadValue("{" + Fields(fields, style) + "}" + rest) == Some((Obj(fields), rest))
  {
    hide ReadNumber, ReadItems, ReadFields, ReadBody, SkipWhite, Dumps, ValidFields, Fields;
    var body := Fields(fields, style) + "}" + rest;
    var t := "{" + Fields(fields, style) + "}" + rest;
    assert t[1..] == body;
    if |fields| == 0 {
      NoFieldsText(fields, style);
      assert body == "}" + rest;
      ClosingStops('}', rest);
    } else {
      SkipNothing(body);
    }
  }

  lemma {:induction false} NoFieldsText(fields: seq<(string, Json)>, style: Style)
    requires |fields| == 0
    ensures ValidFields(fields) && Fields(fields, style) == "" && fields == []
  {
  }

  lemma {:induction false} ItemsRoundTrip(items: seq<Json>, style: Style, rest: string)
    requires ValidItems(items) && |items| > 0
    ensures ReadItems(Items(items, style) + "]" + rest) == Some((items, rest))
    decreases items, 0
  {
    hide Dumps, Valid, ReadValue, SkipWhite, EndsNumber;
    var first := Dumps(items[0], style);
    if |items| == 1 {
      ItemEnds(style, rest);
      ValueRoundTrip(items[0], style, "]" + rest);
      ClosingStops(']', rest);
      assert Items(items, style) + "]" + rest == first + ("]" + rest);
      assert [items[0]] == items;
    } else {
      var tail := Items(items[1..], style) + "]" + rest;
      ItemEnds(style, tail);
      ValueRoundTrip(items[0], style, style.Item() + tail);
      ItemsRoundTrip(items[1..], style, rest);
      AfterSeparator(style, tail);
      assert Items(items, style) + "]" + rest == first + (style.Item() + tail);
      assert [items[0]] + items[1..] == items;
    }
  }

  lemma {:induction false} FieldRoundTrip(field: (string, Json), style: Style, rest: string)
    requires ValidField(field) && EndsNumber(rest)
    ensures ReadField(FieldText(field, style) + rest) == Some((field, rest))
    decreases field, 4
  {
    hide Dumps, Valid, ReadValue, ReadBody, SkipWhite, EndsNumber, EscapeAll;
    var value := Dumps(field.1, style) + rest;
    var afterName := style.Key() + value;
    var t := FieldText(field, style) + rest;
    assert t == "\"" + (EscapeAll(field.0) + "\"" + afterName);
    SkipNothing(t);
    assert t[1..] == EscapeAll(field.0) + "\"" + afterName;
    BodyRoundTrip(field.0, afterName);
    ValueRoundTrip(field.1, style, rest);
    DumpsStarts(field.1, style, rest);
    AfterColon(style, value);
  }

  lemma {:induction false} FieldsRoundTrip(fields: seq<(string, Json)>, style: Style, rest: string)
    requires ValidFields(fields) && |fields| > 0
    ensures ReadFields(Fields(fields, style) + "}" + rest) == Some((fields, rest))
    decreases fields, 0
  {
    hide FieldText, ValidField, ReadField, SkipWhite, EndsNumber;
    var first := FieldText(fields[0], style);
    if |fields| == 1 {
      ItemEnds(style, rest);
      FieldRoundTrip(fields[0], style, "}" + rest);
      ClosingStops('}', rest);
      assert Fields(fields, style) + "}" + rest == first + ("}" + rest);
      assert [fields[0]] == fields;
    } else {
      var tail := Fields(fields[1..], style) + "}" + rest;
      ItemEnds(style, tail);
      FieldRoundTrip(fields[0], style, style.Item() + tail);
      FieldsRoundTrip(fields[1..], style, rest);
      FieldsStart(fields[1..], style, rest);
      AfterFieldSeparator(style, tail);
      assert Fields(fields, style) + "}" + rest == first + (style.Item() + tail);
      assert [fields[0]] + fields[1..] == fields;
    }
  }

  /** The whole text reads back as the value, in the default and in the compact style. */
  lemma {:induction false} DumpsRoundTrip(v: Json, style: Style)
    requires Valid(v)
    ensures ReadText(Dumps(v, style)) == Some(v)
  {
    hide ReadValue, Dumps;
    ValueRoundTrip(v, style, "");
    assert Dumps(v, style) + "" == Dumps(v, style);
  }

  /** Two values with the same text are the same value: what is signed identifies the payload. */
  lemma {:induction false} TextIdentifiesValue(v: Json, w: Json, style: Style)
    requires Valid(v) && Valid(w) && Dumps(v, style) == Dumps(w, style)
    ensures v == w
  {
    DumpsRoundTrip(v, style);
    DumpsRoundTrip(w, style);
  }
}
