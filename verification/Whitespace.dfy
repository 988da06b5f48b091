/** `str::trim` of the Rust standard library. */
module Whitespace {

  /** Unicode White_Space, which `str::trim` removes. */
  predicate IsSpace(c: char) {
    var n := c as int;
    9 <= n <= 13 || n == 32 || n == 0x85 || n == 0xA0 || n == 0x1680 || 0x2000 <= n <= 0x200A
    || n == 0x2028 || n == 0x2029 || n == 0x202F || n == 0x205F || n == 0x3000
  }

  function TrimStart(s: string): string
  {
    if |s| > 0 && IsSpace(s[0]) then TrimStart(s[1..]) else s
  }

  function TrimEnd(s: string): string
  {
    if |s| > 0 && IsSpace(s[|s| - 1]) then TrimEnd(s[..|s| - 1]) else s
  }

  function Trim(s: string): string {
    TrimStart(TrimEnd(s))
  }

  lemma {:induction false} TrimStartNothing(s: string)
    requires |s| > 0 ==> !IsSpace(s[0])
    ensures TrimStart(s) == s
  {
  }

  /** A text without white space at its ends is not trimmed. */
  lemma {:induction false} TrimNothing(s: string)
    requires |s| > 0 ==> !IsSpace(s[0]) && !IsSpace(s[|s| - 1])
    ensures Trim(s) == s
  {
    assert TrimEnd(s) == s;
    TrimStartNothing(s);
  }

  /** Only white space at the two ends is trimmed. */
  lemma {:induction false} TrimExactly(s: string) returns (left: string, right: string)
    ensures s == left + Trim(s) + right
    ensures (forall i :: 0 <= i < |left| ==> IsSpace(left[i])) && forall i :: 0 <= i < |right| ==> IsSpace(right[i])
    ensures |Trim(s)| > 0 ==> !IsSpace(Trim(s)[0]) && !IsSpace(Trim(s)[|Trim(s)| - 1])
  {
    hide IsSpace;
    right := EndTrimmed(s);
    left := StartTrimmed(TrimEnd(s));
  }

  lemma {:induction false} EndTrimmed(s: string) returns (right: string)
    ensures s == TrimEnd(s) + right && forall i :: 0 <= i < |right| ==> IsSpace(right[i])
    ensures |TrimEnd(s)| > 0 ==> !IsSpace(TrimEnd(s)[|TrimEnd(s)| - 1])
  {
    hide IsSpace;
    right := "";
    if |s| > 0 && IsSpace(s[|s| - 1]) {
      right := EndTrimmed(s[..|s| - 1]);
      right := right + [s[|s| - 1]];
    }
  }

  lemma {:induction false} StartTrimmed(s: string) returns (left: string)
    ensures s == left + TrimStart(s) && forall i :: 0 <= i < |left| ==> IsSpace(left[i])
    ensures |TrimStart(s)| > 0 ==> !IsSpace(TrimStart(s)[0])
  {
    hide IsSpace;
    left := "";
    if |s| > 0 && IsSpace(s[0]) {
      left := StartTrimmed(s[1..]);
      left := [s[0]] + left;
    }
  }
}
