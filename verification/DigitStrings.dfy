/**
Decimal digit strings, most significant digit first, and the numbers they stand for.

`Num` reads a string and `Digits` writes the one string without leading zeros, so a fact
about digits becomes a fact about numbers and back:

- appending, padding and stripping zeros (backend-rs/src/fx.rs, `strip_leading_zeros`);
- the same number read from its least significant digit, as cells of a product are;
- the text of a number, and the digits in a text.
*/
module DigitStrings {

  import opened Algebra

  type Digit = d: nat | d < 10

  function Pow10(n: nat): (p: nat)
    ensures p > 0
  {
    if n == 0 then 1 else 10 * Pow10(n - 1)
  }

  function Num(ds: seq<Digit>): nat
  {
    if |ds| == 0 then 0 else 10 * Num(ds[..|ds| - 1]) + ds[|ds| - 1]
  }

  function NumLE(ds: seq<int>): int
  {
    if |ds| == 0 then 0 else ds[0] + 10 * NumLE(ds[1..])
  }

  function Digits(n: nat): (ds: seq<Digit>)
  {
    if n < 10 then [n] else Digits(n / 10) + [n % 10]
  }

  predicate IsCanonical(ds: seq<Digit>)
  {
    |ds| > 0 && (|ds| > 1 ==> ds[0] != 0)
  }

  function Zeros(n: nat): (z: seq<Digit>)
    ensures |z| == n
  {
    seq(n, _ => 0)
  }

  function StripLeadingZeros(ds: seq<Digit>): seq<Digit>
  {
    if |ds| == 0 then [0]
    else if ds[0] != 0 then ds
    else StripLeadingZeros(ds[1..])
  }

  // ----- powers of ten

  lemma {:induction false} NextPower(k: nat)
    ensures Pow10(k + 1) == 10 * Pow10(k)
  {
  }

  lemma {:induction false} PowerOfZero()
    ensures Pow10(0) == 1
  {
  }

  lemma {:induction false} Pow10Add(m: nat, n: nat)
    ensures Pow10(m + n) == Pow10(m) * Pow10(n)
  {
    if m > 0 {
      Pow10Add(m - 1, n);
      Associate(10, Pow10(m - 1), Pow10(n));
    }
  }

  lemma {:induction false} Pow10Monotone(m: nat, n: nat)
    requires m <= n
    ensures Pow10(m) <= Pow10(n)
    ensures m < n ==> 10 * Pow10(m) <= Pow10(n)
    decreases n
  {
    if m < n {
      Pow10Monotone(m, n - 1);
    }
  }

  // ----- reading digit strings

  lemma {:induction false} NumAppend(a: seq<Digit>, b: seq<Digit>)
    ensures Num(a + b) == Num(a) * Pow10(|b|) + Num(b)
  {
    hide Pow10;
    if |b| == 0 {
      assert a + b == a;
      PowerOfZero();
    } else {
      var b' := b[..|b| - 1];
      NextPower(|b'|);
      assert (a + b)[..|a + b| - 1] == a + b';
      NumAppend(a, b');
      Shift(Num(a), Pow10(|b'|));
    }
  }

  lemma {:induction false} NumBound(ds: seq<Digit>)
    ensures Num(ds) < Pow10(|ds|)
  {
    if |ds| > 0 {
      NumBound(ds[..|ds| - 1]);
    }
  }

  lemma {:induction false} NumZeros(n: nat)
    ensures Num(Zeros(n)) == 0
  {
    if n > 0 {
      assert Zeros(n)[..n - 1] == Zeros(n - 1);
      NumZeros(n - 1);
    }
  }

  lemma {:induction false} NumPadRight(ds: seq<Digit>, n: nat)
    ensures Num(ds + Zeros(n)) == Num(ds) * Pow10(n)
  {
    NumAppend(ds, Zeros(n));
    NumZeros(n);
  }

  lemma {:induction false} NumPadLeft(n: nat, ds: seq<Digit>)
    ensures Num(Zeros(n) + ds) == Num(ds)
  {
    NumAppend(Zeros(n), ds);
    NumZeros(n);
  }

  lemma {:induction false} NumOne(d: Digit)
    ensures Num([d]) == d
  {
    assert [d][..0] == [];
  }

  lemma {:induction false} NumPrepend(d: Digit, ds: seq<Digit>)
    ensures Num([d] + ds) == d * Pow10(|ds|) + Num(ds)
  {
    NumAppend([d], ds);
    NumOne(d);
  }

  /** A string without a leading zero has at least its leading power of ten. */
  lemma {:induction false} NumLower(ds: seq<Digit>)
    requires |ds| > 0 && ds[0] != 0
    ensures Num(ds) >= Pow10(|ds| - 1)
  {
    assert ds == [ds[0]] + ds[1..];
    NumPrepend(ds[0], ds[1..]);
    MulMonotone(1, ds[0], Pow10(|ds| - 1));
  }

  /** Splitting a string splits its number by the matching power of ten. */
  lemma {:induction false} NumSplit(ds: seq<Digit>, k: nat)
    requires k <= |ds|
    ensures Num(ds) == Num(ds[..|ds| - k]) * Pow10(k) + Num(ds[|ds| - k..])
    ensures Num(ds[|ds| - k..]) < Pow10(k)
  {
    hide Pow10, Num;
    assert ds == ds[..|ds| - k] + ds[|ds| - k..];
    NumAppend(ds[..|ds| - k], ds[|ds| - k..]);
    NumBound(ds[|ds| - k..]);
  }

  // ----- canonical strings

  lemma {:induction false} DigitsNum(n: nat)
    ensures Num(Digits(n)) == n && IsCanonical(Digits(n))
    ensures n > 0 ==> Digits(n)[0] != 0
  {
    if n < 10 {
      NumOne(n);
    } else {
      DigitsNum(n / 10);
      NumAppend(Digits(n / 10), [n % 10]);
      NumOne(n % 10);
    }
  }

  lemma {:induction false} CanonicalUnique(ds: seq<Digit>)
    requires IsCanonical(ds)
    ensures Digits(Num(ds)) == ds
  {
    if |ds| == 1 {
      NumOne(ds[0]);
    } else {
      var init := ds[..|ds| - 1];
      CanonicalUnique(init);
      NumLower(init);
      assert Num(ds) / 10 == Num(init) && Num(ds) % 10 == ds[|ds| - 1];
    }
  }

  lemma {:induction false} StripNum(ds: seq<Digit>)
    ensures IsCanonical(StripLeadingZeros(ds))
    ensures Num(StripLeadingZeros(ds)) == Num(ds)
  {
    if |ds| == 0 {
      NumOne(0);
    } else if ds[0] == 0 {
      assert ds == [0] + ds[1..];
      NumPrepend(0, ds[1..]);
      StripNum(ds[1..]);
    }
  }

  /** Stripping leading zeros yields the canonical string of the same number. */
  lemma {:induction false} StripIsDigits(ds: seq<Digit>)
    ensures StripLeadingZeros(ds) == Digits(Num(ds))
  {
    StripNum(ds);
    CanonicalUnique(StripLeadingZeros(ds));
  }

  /** The length of a canonical string is decided by comparing with powers of ten. */
  lemma {:induction false} LengthByPower(ds: seq<Digit>, k: nat)
    requires IsCanonical(ds) && Num(ds) > 0
    ensures |ds| <= k <==> Num(ds) < Pow10(k)
  {
    NumOne(ds[0]);
    assert ds[0] != 0 by {
      if |ds| == 1 {
        assert ds == [ds[0]];
      }
    }
    NumBound(ds);
    NumLower(ds);
    if |ds| <= k {
      Pow10Monotone(|ds|, k);
    } else {
      Pow10Monotone(k, |ds| - 1);
    }
  }

  lemma {:induction false} ZeroIsCanonicalZero(ds: seq<Digit>)
    requires IsCanonical(ds)
    ensures Num(ds) == 0 <==> ds == [0]
  {
    NumOne(ds[0]);
    if |ds| > 1 {
      NumLower(ds);
    } else {
      assert ds == [ds[0]];
    }
  }

  // ----- least significant digit first

  lemma {:induction false} NumLEUpdate(s: seq<int>, k: nat, x: int)
    requires k < |s|
    ensures NumLE(s[k := s[k] + x]) == NumLE(s) + x * Pow10(k)
  {
    var t := s[k := s[k] + x];
    if k == 0 {
      assert t[1..] == s[1..];
    } else {
      assert t[1..] == s[1..][k - 1 := s[1..][k - 1] + x];
      NumLEUpdate(s[1..], k - 1, x);
      Associate(x, 10, Pow10(k - 1));
    }
  }

  lemma {:induction false} NumLEAppend(a: seq<int>, b: seq<int>)
    ensures NumLE(a + b) == NumLE(a) + Pow10(|a|) * NumLE(b)
  {
    if |a| == 0 {
      assert a + b == b;
    } else {
      assert (a + b)[1..] == a[1..] + b;
      NumLEAppend(a[1..], b);
      Associate(10, Pow10(|a| - 1), NumLE(b));
    }
  }

  lemma {:induction false} NumLEZeros(s: seq<int>)
    requires forall k :: 0 <= k < |s| ==> s[k] == 0
    ensures NumLE(s) == 0
  {
    if |s| > 0 {
      NumLEZeros(s[1..]);
    }
  }

  function Reversed<T>(s: seq<T>): (r: seq<T>)
    ensures |r| == |s|
    ensures forall k :: 0 <= k < |s| ==> r[k] == s[|s| - 1 - k]
  {
    seq(|s|, k requires 0 <= k < |s| => s[|s| - 1 - k])
  }

  lemma {:induction false} NumReversed(ds: seq<Digit>)
    ensures NumLE(Reversed(ds)) == Num(ds)
  {
    if |ds| > 0 {
      var init := ds[..|ds| - 1];
      assert Reversed(ds)[1..] == Reversed(init);
      NumReversed(init);
    }
  }

  /** Reading a little-endian digit string back into canonical form. */
  lemma {:induction false} CanonicalOfLE(out: seq<Digit>)
    ensures NumLE(out) >= 0 && StripLeadingZeros(Reversed(out)) == Digits(NumLE(out))
  {
    NumReversed(Reversed(out));
    assert Reversed(Reversed(out)) == out;
    StripIsDigits(Reversed(out));
  }

  // ----- digit characters

  function DigitChar(d: Digit): char {
    ('0' as int + d) as char
  }

  function Text(ds: seq<Digit>): (s: string)
    ensures |s| == |ds|
  {
    seq(|ds|, k requires 0 <= k < |ds| => DigitChar(ds[k]))
  }

  predicate IsDigitChar(c: char) {
    '0' <= c <= '9'
  }

  predicate AllDigits(s: string) {
    forall k :: 0 <= k < |s| ==> IsDigitChar(s[k])
  }

  function DigitsIn(s: string): (ds: seq<Digit>)
    requires AllDigits(s)
    ensures |ds| == |s|
  {
    seq(|s|, k requires 0 <= k < |s| => s[k] as int - '0' as int)
  }

  lemma {:induction false} TextDigits(ds: seq<Digit>)
    ensures AllDigits(Text(ds)) && DigitsIn(Text(ds)) == ds
  {
  }
}
