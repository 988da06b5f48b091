/** Every character, and so every string, comes back from its escapes. */
module JsonStrings {
  import opened Wrappers
  import opened PyJson
  import opened JsonReader

  lemma {:induction false} HexRoundTrip(n: nat)
    requires n < 16
    ensures HexValue(HexDigit(n)) == Some(n)
  {
  }

  lemma {:induction false} HexArithmetic(u: nat)
    requires u < 0x10000
    ensures u / 4096 < 16
    ensures u / 4096 * 4096 + u / 256 % 16 * 256 + u / 16 % 16 * 16 + u % 16 == u
  {
    assert u / 256 == u / 16 / 16 && u / 4096 == u / 256 / 16;
  }

  lemma {:induction false} ReadHex(a: nat, b: nat, c: nat, d: nat, rest: string)
    requires a < 16 && b < 16 && c < 16 && d < 16
    ensures ReadUnit([HexDigit(a), HexDigit(b), HexDigit(c), HexDigit(d)] + rest)
         == Some((a * 4096 + b * 256 + c * 16 + d, rest))
  {
    hide HexDigit, HexValue;
    HexRoundTrip(a);
    HexRoundTrip(b);
    HexRoundTrip(c);
    HexRoundTrip(d);
    var t := [HexDigit(a), HexDigit(b), HexDigit(c), HexDigit(d)] + rest;
    assert t[4..] == rest;
  }

  lemma {:induction false} UnitRoundTrip(u: nat, rest: string)
    requires u < 0x10000
    ensures UnitEscape(u)[..2] == "\\u" && ReadUnit((UnitEscape(u) + rest)[2..]) == Some((u, rest))
  {
    hide HexDigit, ReadUnit;
    HexArithmetic(u);
    ReadHex(u / 4096, u / 256 % 16, u / 16 % 16, u % 16, rest);
    assert (UnitEscape(u) + rest)[2..]
        == [HexDigit(u / 4096), HexDigit(u / 256 % 16), HexDigit(u / 16 % 16), HexDigit(u % 16)] + rest;
  }

  lemma {:induction false} SurrogateArithmetic(n: nat)
    requires 0x10000 <= n < 0x110000
    ensures var high, low := 0xD800 + (n - 0x10000) / 0x400, 0xDC00 + (n - 0x10000) % 0x400;
            0xD800 <= high < 0xDC00 <= low < 0xE000 && 0x10000 + (high - 0xD800) * 0x400 + (low - 0xDC00) == n
  {
  }

  lemma {:induction false} UnicodeRoundTrip(c: char, rest: string)
    ensures var t := EscapeUnits(Utf16(c)) + rest;
            |t| >= 2 && t[..2] == "\\u" && ReadUnicode(t[2..]) == Some((c, rest))
  {
    hide UnitEscape, ReadUnit;
    var n := c as int;
    if n < 0x10000 {
      UnitRoundTrip(n, rest);
      assert Utf16(c)[1..] == [];
      assert UnitEscape(n) + "" == UnitEscape(n);
      assert EscapeUnits(Utf16(c)) == UnitEscape(n);
    } else {
      SurrogateArithmetic(n);
      var high, low := 0xD800 + (n - 0x10000) / 0x400, 0xDC00 + (n - 0x10000) % 0x400;
      assert Utf16(c)[1..] == [low] && [low][1..] == [];
      assert UnitEscape(low) + "" == UnitEscape(low);
      assert EscapeUnits(Utf16(c)[1..]) == UnitEscape(low);
      assert EscapeUnits(Utf16(c)) == UnitEscape(high) + UnitEscape(low);
      UnitRoundTrip(high, UnitEscape(low) + rest);
      UnitRoundTrip(low, rest);
      assert UnitEscape(high) + UnitEscape(low) + rest == UnitEscape(high) + (UnitEscape(low) + rest);
      assert (UnitEscape(low) + rest)[..2] == "\\u";
    }
  }

  lemma {:induction false} CharRoundTrip(c: char, rest: string)
    ensures var t := Escape(c) + rest;
            |t| > 0 && t[0] != '"' && ReadChar(t) == Some((c, rest))
  {
    hide EscapeUnits, Utf16, ReadUnicode;
    var t := Escape(c) + rest;
    var n := c as int;
    if c == '"' || c == '\\' || c == '\n' || c == '\r' || c == '\t' || n == 8 || n == 12 {
      assert t[2..] == rest;
    } else if n < 0x20 || n > 0x7e {
      UnicodeRoundTrip(c, rest);
      assert t[0] == t[..2][0] && t[1] == t[..2][1];
    } else {
      assert t == [c] + rest;
    }
  }

  lemma {:induction false} BodyRoundTrip(s: string, rest: string)
    ensures ReadBody(EscapeAll(s) + "\"" + rest) == Some((s, rest))
  {
    hide Escape, ReadChar;
    if |s| == 0 {
      assert EscapeAll(s) + "\"" + rest == "\"" + rest;
    } else {
      var tail := EscapeAll(s[1..]) + "\"" + rest;
      assert EscapeAll(s) + "\"" + rest == Escape(s[0]) + tail;
      CharRoundTrip(s[0], tail);
      BodyRoundTrip(s[1..], rest);
      assert [s[0]] + s[1..] == s;
    }
  }
}
