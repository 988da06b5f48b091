/**
A reader written from RFC 8259 alone (sections 2 to 7), the partner of the printer:
it returns the value and the unread rest of the text.
*/
module JsonReader {
  import opened Wrappers
  import opened DigitStrings
  import opened Json

  // ----- white space

  predicate IsWhite(c: char) {
    c == ' ' || c == '\t' || c == '\n' || c == '\r'
  }

  function SkipWhite(t: string): (r: string)
    ensures |r| <= |t|
  {
    if |t| > 0 && IsWhite(t[0]) then SkipWhite(t[1..]) else t
  }

  // ----- strings (section 7)

  function HexValue(c: char): Option<nat> {
    if '0' <= c <= '9' then Some(c as int - '0' as int)
    else if 'a' <= c <= 'f' then Some(c as int - 'a' as int + 10)
    else if 'A' <= c <= 'F' then Some(c as int - 'A' as int + 10)
    else None
  }

  /** Four hexadecimal digits. */
  function ReadUnit(t: string): (r: Option<(nat, string)>)
    ensures r.Some? ==> |t| >= 4 && r.value.0 < 0x10000 && r.value.1 == t[4..]
  {
    if |t| < 4 || HexValue(t[0]).None? || HexValue(t[1]).None? || HexValue(t[2]).None? || HexValue(t[3]).None? then None
    else
      var (a, b, c, d) := (HexValue(t[0]).value, HexValue(t[1]).value, HexValue(t[2]).value, HexValue(t[3]).value);
      Some((a * 4096 + b * 256 + c * 16 + d, t[4..]))
  }

  /** After `\u`: one unit, or a high surrogate with the low one that must follow. */
  function ReadUnicode(t: string): (r: Option<(char, string)>)
    ensures r.Some? ==> |r.value.1| < |t|
  {
    match ReadUnit(t)
    case None => None
    case Some((high, rest)) =>
      if high < 0xD800 || high >= 0xE000 then Some((high as char, rest))
      else if high >= 0xDC00 || |rest| < 2 || rest[..2] != "\\u" then None
      else match ReadUnit(rest[2..])
        case None => None
        case Some((low, rest')) =>
          if 0xDC00 <= low < 0xE000 then Some(((0x10000 + (high - 0xD800) * 0x400 + (low - 0xDC00)) as char, rest'))
          else None
  }

  function SimpleEscape(c: char): Option<char> {
    if c == '"' || c == '\\' || c == '/' then Some(c)
    else if c == 'b' then Some(8 as char)
    else if c == 'f' then Some(12 as char)
    else if c == 'n' then Some('\n')
    else if c == 'r' then Some('\r')
    else if c == 't' then Some('\t')
    else None
  }

  /** One character of a string body. */
  function ReadChar(t: string): (r: Option<(char, string)>)
    requires |t| > 0
    ensures r.Some? ==> |r.value.1| < |t|
  {
    if t[0] != '\\' then (if (t[0] as int) < 0x20 then None else Some((t[0], t[1..])))
    else if |t| < 2 then None
    else if t[1] == 'u' then ReadUnicode(t[2..])
    else match SimpleEscape(t[1])
      case None => None
      case Some(c) => Some((c, t[2..]))
  }

  /** A string body up to and including the closing quote. */
  function ReadBody(t: string): (r: Option<(string, string)>)
    ensures r.Some? ==> |r.value.1| < |t|
    decreases |t|
  {
    if |t| == 0 then None
    else if t[0] == '"' then Some(("", t[1..]))
    else match ReadChar(t)
      case None => None
      case Some((c, rest)) =>
        (match ReadBody(rest)
         case None => None
         case Some((s, rest')) => Some(([c] + s, rest')))
  }

  // ----- numbers (section 6)

  function DigitRun(t: string): (n: nat)
    ensures n <= |t| && AllDigits(t[..n])
    ensures n < |t| ==> !IsDigitChar(t[n])
  {
    if |t| == 0 || !IsDigitChar(t[0]) then 0
    else
      assert t[..1 + DigitRun(t[1..])] == [t[0]] + t[1..][..DigitRun(t[1..])];
      1 + DigitRun(t[1..])
  }

  function StripTrailing(ds: seq<Digit>): seq<Digit>
  {
    if |ds| > 0 && ds[|ds| - 1] == 0 then StripTrailing(ds[..|ds| - 1]) else ds
  }

  /** Shortest digits of `ds`, whose first digit stands at ten to `position`. */
  function Normalize(negative: bool, ds: seq<Digit>, position: int): Number
    decreases |ds|
  {
    if |ds| == 0 then Float(negative, [0], 0)
    else if ds[0] == 0 then Normalize(negative, ds[1..], position - 1)
    else Float(negative, StripTrailing(ds), position)
  }

  /** A fraction: a point and at least one digit. `None` inside means there is none. */
  function ReadFraction(t: string): (r: Option<(Option<seq<Digit>>, string)>)
    ensures r.Some? ==> |r.value.1| <= |t|
  {
    if |t| == 0 || t[0] != '.' then Some((None, t))
    else
      var n := DigitRun(t[1..]);
      if n == 0 then None else Some((Some(DigitsIn(t[1..][..n])), t[1..][n..]))
  }

  function ReadExponent(t: string): (r: Option<(Option<int>, string)>)
    ensures r.Some? ==> |r.value.1| <= |t|
  {
    if |t| == 0 || (t[0] != 'e' && t[0] != 'E') then Some((None, t))
    else
      var negative := |t| > 1 && t[1] == '-';
      var body := if negative || (|t| > 1 && t[1] == '+') then t[2..] else t[1..];
      var n := DigitRun(body);
      if n == 0 then None
      else
        var v: int := DigitStrings.Num(DigitsIn(body[..n]));
        Some((Some(if negative then -v else v), body[n..]))
  }

  function ReadNumber(t: string): (r: Option<(Number, string)>)
    ensures r.Some? ==> |r.value.1| < |t|
  {
    var negative := |t| > 0 && t[0] == '-';
    var body := if negative then t[1..] else t;
    var n := DigitRun(body);
    if n == 0 || (n > 1 && body[0] == '0') then None
    else
      var whole := DigitsIn(body[..n]);
      match ReadFraction(body[n..])
      case None => None
      case Some((frac, afterFrac)) =>
        (match ReadExponent(afterFrac)
         case None => None
         case Some((exp, rest)) =>
           if frac.None? && exp.None? then
             var v: int := DigitStrings.Num(whole);
             Some((Int(if negative then -v else v), rest))
           else
             var ds := whole + (if frac.Some? then frac.value else []);
             Some((Normalize(negative, ds, n - 1 + (if exp.Some? then exp.value else 0)), rest)))
  }

  // ----- values (sections 2 to 5)

  function ReadWord(t: string, word: string, v: Json): (r: Option<(Json, string)>)
    requires |word| > 0
    ensures r.Some? ==> |r.value.1| < |t|
  {
    if word <= t then Some((v, t[|word|..])) else None
  }

  function ReadValue(t: string): (r: Option<(Json, string)>)
    ensures r.Some? ==> |r.value.1| < |t|
    decreases |t|, 2
  {
    if |t| == 0 then None
    else if IsWhite(t[0]) then ReadValue(t[1..])
    else if t[0] == '"' then
      (match ReadBody(t[1..])
       case None => None
       case Some((s, rest)) => Some((Str(s), rest)))
    else if t[0] == '[' then
      var body := SkipWhite(t[1..]);
      if |body| > 0 && body[0] == ']' then Some((Arr([]), body[1..]))
      else (match ReadItems(t[1..])
            case None => None
            case Some((items, rest)) => Some((Arr(items), rest)))
    else if t[0] == '{' then
      var body := SkipWhite(t[1..]);
      if |body| > 0 && body[0] == '}' then Some((Obj([]), body[1..]))
      else (match ReadFields(t[1..])
            case None => None
            case Some((fields, rest)) => Some((Obj(fields), rest)))
    else if t[0] == 'n' then ReadWord(t, "null", Null)
    else if t[0] == 't' then ReadWord(t, "true", Bool(true))
    else if t[0] == 'f' then ReadWord(t, "false", Bool(false))
    else match ReadNumber(t)
      case None => None
      case Some((n, rest)) => Some((Num(n), rest))
  }

  /** One or more values separated by commas, up to and including the closing bracket. */
  function ReadItems(t: string): (r: Option<(seq<Json>, string)>)
    ensures r.Some? ==> |r.value.1| < |t|
    decreases |t|, 3
  {
    match ReadValue(t)
    case None => None
    case Some((v, rest)) =>
      var next := SkipWhite(rest);
      if |next| == 0 then None
      else if next[0] == ']' then Some(([v], next[1..]))
      else if next[0] == ',' then
        (match ReadItems(next[1..])
         case None => None
         case Some((vs, rest')) => Some(([v] + vs, rest')))
      else None
  }

  /** A name, a colon and a value. */
  function ReadField(t: string): (r: Option<((string, Json), string)>)
    ensures r.Some? ==> |r.value.1| < |t|
    decreases |t|, 3
  {
    var start := SkipWhite(t);
    if |start| == 0 || start[0] != '"' then None
    else match ReadBody(start[1..])
      case None => None
      case Some((name, afterName)) =>
        var colon := SkipWhite(afterName);
        if |colon| == 0 || colon[0] != ':' then None
        else (match ReadValue(colon[1..])
              case None => None
              case Some((v, rest)) => Some(((name, v), rest)))
  }

  function ReadFields(t: string): (r: Option<(seq<(string, Json)>, string)>)
    ensures r.Some? ==> |r.value.1| < |t|
    decreases |t|, 4
  {
    match ReadField(t)
    case None => None
    case Some((f, rest)) =>
      var next := SkipWhite(rest);
      if |next| == 0 then None
      else if next[0] == '}' then Some(([f], next[1..]))
      else if next[0] == ',' then
        (match ReadFields(next[1..])
         case None => None
         case Some((fs, rest')) => Some(([f] + fs, rest')))
      else None
  }

  /** A whole text: one value and nothing but white space around it. */
  function ReadText(t: string): Option<Json> {
    match ReadValue(t)
    case None => None
    case Some((v, rest)) => if SkipWhite(rest) == "" then Some(v) else None
  }
}
