/**
Schoolbook multiplication on 32-bit accumulators with one delayed carry pass
(backend-rs/src/fx.rs, `Dec::mul`).
*/
module DecimalMul {
  import opened Algebra
  import opened DigitStrings
  import opened Decimal

  type u32 = x: int | 0 <= x < 0x1_0000_0000

  /**
  The shorter factor length up to which no accumulator overflows: a column
  collects at most one product (<= 81) per digit of the shorter factor, and the carry
  adds at most 9 more per digit.
  */
  const MAX_SHORTER := 47_721_858

  predicate FitsU32(a: Dec, b: Dec) {
    (|a.digits| <= MAX_SHORTER || |b.digits| <= MAX_SHORTER)
    && a.scale + b.scale < 0x1_0000_0000
  }

  /** How many of the first `i` rows, each `n` wide, reach column `k`. */
  ghost function Hits(i: nat, n: nat, k: nat): nat
  {
    if i == 0 then 0 else Hits(i - 1, n, k) + Reach(i - 1, n, k)
  }

  ghost function Reach(i: nat, n: nat, k: nat): nat {
    if i <= k < i + n then 1 else 0
  }

  lemma {:induction false} HitsBound(i: nat, n: nat, k: nat)
    ensures Hits(i, n, k) <= i && Hits(i, n, k) <= n
    ensures var first, last := if k < n then 0 else k - n + 1, if i <= k then i else k + 1;
            Hits(i, n, k) == if first < last then last - first else 0
  {
    if i > 0 {
      HitsBound(i - 1, n, k);
    }
  }

  /**
  The sum of the first `i` whole rows and the first `j` cells of row `i`, each digit
  product weighted by its column.
  */
  ghost function Cells(a: seq<Digit>, b: seq<Digit>, i: nat, j: nat): nat
    requires i <= |a| && j <= |b| && (i == |a| ==> j == 0)
    decreases i, j
  {
    if j > 0 then Cells(a, b, i, j - 1) + Cell(a[|a| - 1 - i], b[|b| - j], i + j - 1)
    else if i > 0 then Cells(a, b, i - 1, |b|)
    else 0
  }

  ghost function Cell(da: Digit, db: Digit, column: nat): nat {
    da * db * Pow10(column)
  }

  lemma {:induction false} DigitProduct(da: Digit, db: Digit)
    ensures 0 <= da * db <= 81
  {
    MulMonotone(da, 9, db);
  }

  /** A row of cells is the row's digit times the other factor. */
  lemma {:induction false} RowSum(a: seq<Digit>, b: seq<Digit>, i: nat, j: nat)
    requires i < |a| && j <= |b|
    ensures Cells(a, b, i, j) == Cells(a, b, i, 0) + (a[|a| - 1 - i] * Pow10(i)) * Num(b[|b| - j..])
  {
    var da := a[|a| - 1 - i];
    if j == 0 {
      MulZero(da * Pow10(i));
    } else {
      RowSum(a, b, i, j - 1);
      var db, low := b[|b| - j], b[|b| - (j - 1)..];
      assert b[|b| - j..] == [db] + low;
      NumPrepend(db, low);
      MulDistribute(da * Pow10(i), db * Pow10(j - 1), Num(low));
      Pow10Add(i, j - 1);
      Interchange(da, Pow10(i), db, Pow10(j - 1));
    }
  }

  /** All the cells together are the product. */
  lemma {:induction false} CellsAreProduct(a: seq<Digit>, b: seq<Digit>, i: nat)
    requires i <= |a|
    ensures Cells(a, b, i, 0) == Num(a[|a| - i..]) * Num(b)
  {
    if i == 0 {
      MulZero(Num(b));
    } else {
      CellsAreProduct(a, b, i - 1);
      RowSum(a, b, i - 1, |b|);
      assert b[|b| - |b|..] == b;
      LowStep(a, b, i);
    }
  }

  lemma {:induction false} LowStep(a: seq<Digit>, b: seq<Digit>, i: nat)
    requires 0 < i <= |a|
    ensures Num(a[|a| - i..]) * Num(b)
         == Num(a[|a| - (i - 1)..]) * Num(b) + (a[|a| - i] * Pow10(i - 1)) * Num(b)
  {
    var da, low := a[|a| - i], a[|a| - (i - 1)..];
    assert a[|a| - i..] == [da] + low;
    NumPrepend(da, low);
    MulSum(Num(a[|a| - i..]), da * Pow10(i - 1), Num(low), Num(b));
  }

  /** Every column holds at most 81 per cell added to it so far. */
  ghost predicate Bounded(acc: seq<int>, n: nat, i: nat, j: nat) {
    forall k :: 0 <= k < |acc| ==> 0 <= acc[k] <= 81 * (Hits(i, n, k) + Reach(i, j, k))
  }

  lemma {:induction false} BoundedStep(acc: seq<int>, n: nat, i: nat, j: nat, product: int)
    requires j < n && i + j < |acc| && 0 <= product <= 81
    requires Bounded(acc, n, i, j)
    ensures acc[i + j] <= 81 * i && acc[i + j] <= 81 * n - 81
    ensures Bounded(acc[i + j := acc[i + j] + product], n, i, j + 1)
  {
    HitsBound(i, n, i + j);
  }

  lemma {:induction false} CellStep(acc: seq<int>, a: seq<Digit>, b: seq<Digit>, i: nat, j: nat, product: int)
    requires i < |a| && j < |b| && |acc| == |a| + |b|
    requires |a| <= MAX_SHORTER || |b| <= MAX_SHORTER
    requires NumLE(acc) == Cells(a, b, i, j) && Bounded(acc, |b|, i, j)
    requires product == a[|a| - 1 - i] as int * b[|b| - 1 - j]
    ensures 0 <= product && acc[i + j] + product < 0x1_0000_0000
    ensures var after := acc[i + j := acc[i + j] + product];
            NumLE(after) == Cells(a, b, i, j + 1) && Bounded(after, |b|, i, j + 1)
  {
    DigitProduct(a[|a| - 1 - i], b[|b| - 1 - j]);
    BoundedStep(acc, |b|, i, j, product);
    hide Bounded, NumLE, Pow10;
    NumLEUpdate(acc, i + j, product);
  }

  /** Adds row `i`: one digit of `a` times every digit of `b`. */
  method AddRow(acc: array<u32>, a: seq<Digit>, b: seq<Digit>, i: nat)
    requires i < |a| && acc.Length == |a| + |b|
    requires |a| <= MAX_SHORTER || |b| <= MAX_SHORTER
    requires NumLE(acc[..]) == Cells(a, b, i, 0) && Bounded(acc[..], |b|, i, 0)
    modifies acc
    ensures NumLE(acc[..]) == Cells(a, b, i + 1, 0) && Bounded(acc[..], |b|, i + 1, 0)
  {
    var j := 0;
    while j < |b|
      invariant 0 <= j <= |b|
      invariant NumLE(acc[..]) == Cells(a, b, i, j) && Bounded(acc[..], |b|, i, j)
    {
      var product := a[|a| - 1 - i] as int * b[|b| - 1 - j];
      CellStep(acc[..], a, b, i, j, product);
      ghost var after := acc[..][i + j := acc[i + j] + product];
      acc[i + j] := acc[i + j] + product;
      assert acc[..] == after;
      j := j + 1;
    }
  }

  method AddRows(a: seq<Digit>, b: seq<Digit>) returns (acc: array<u32>)
    requires |a| > 0 && |b| > 0
    requires |a| <= MAX_SHORTER || |b| <= MAX_SHORTER
    ensures fresh(acc) && acc.Length == |a| + |b|
    ensures NumLE(acc[..]) == Num(a) * Num(b)
    ensures forall k :: 0 <= k < acc.Length ==> acc[k] <= 81 * Min(|a|, |b|)
  {
    acc := new u32[|a| + |b|](_ => 0);
    NumLEZeros(acc[..]);
    var i := 0;
    while i < |a|
      invariant 0 <= i <= |a|
      invariant NumLE(acc[..]) == Cells(a, b, i, 0) && Bounded(acc[..], |b|, i, 0)
    {
      AddRow(acc, a, b, i);
      i := i + 1;
    }
    forall k | 0 <= k < acc.Length ensures acc[k] <= 81 * Min(|a|, |b|) {
      HitsBound(|a|, |b|, k);
      assert acc[..][k] <= 81 * Hits(|a|, |b|, k);
    }
    CellsAreProduct(a, b, |a|);
    assert a[|a| - |a|..] == a;
  }

  /** The total after `k` columns: finished digits, then the carry joined to what is left. */
  ghost function CarryTotal(done: seq<int>, carry: int, rest: seq<int>): int {
    NumLE(done) + Pow10(|done|) * (carry + NumLE(rest))
  }

  /** The delayed carry: the total is unchanged, every column becomes a digit, and nothing is carried out. */
  method PropagateCarry(acc: array<u32>, ghost bound: nat)
    requires forall k :: 0 <= k < acc.Length ==> acc[k] <= 81 * bound
    requires 90 * bound < 0x1_0000_0000
    requires NumLE(acc[..]) < Pow10(acc.Length)
    modifies acc
    ensures NumLE(acc[..]) == old(NumLE(acc[..]))
    ensures forall k :: 0 <= k < acc.Length ==> acc[k] < 10
  {
    ghost var start := acc[..];
    var carry: u32 := 0;
    var k := 0;
    assert CarryTotal([], 0, start) == NumLE(start);
    assert start[0..] == start && start[..0] == [];
    while k < acc.Length
      invariant 0 <= k <= acc.Length
      invariant carry <= 9 * bound
      invariant forall m :: 0 <= m < k ==> acc[m] < 10
      invariant acc[k..] == start[k..]
      invariant CarryTotal(acc[..k], carry, start[k..]) == NumLE(start)
    {
      assert acc[k] == start[k];
      CarryStep(acc[..k], carry, start, k);
      ghost var done := acc[..k] + [(acc[k] + carry) % 10];
      var t := acc[k] + carry;
      acc[k] := t % 10;
      carry := t / 10;
      assert acc[..k + 1] == done;
      k := k + 1;
    }
    assert acc[..k] == acc[..] && start[k..] == [];
    NoCarryOut(acc[..], carry);
    assert carry == 0;
  }

  lemma {:induction false} NoCarryOut(done: seq<int>, carry: nat)
    requires forall k :: 0 <= k < |done| ==> done[k] >= 0
    requires CarryTotal(done, carry, []) < Pow10(|done|)
    ensures carry == 0 && CarryTotal(done, carry, []) == NumLE(done)
  {
    NumLENonNegative(done);
    if carry > 0 {
      MulMonotone(1, carry, Pow10(|done|));
    }
  }

  lemma {:induction false} NumLENonNegative(s: seq<int>)
    requires forall k :: 0 <= k < |s| ==> s[k] >= 0
    ensures NumLE(s) >= 0
  {
    if |s| > 0 {
      NumLENonNegative(s[1..]);
    }
  }

  lemma {:induction false} CarryStep(done: seq<int>, carry: nat, start: seq<int>, k: nat)
    requires |done| == k < |start| && start[k] >= 0
    ensures var t := start[k] + carry;
            CarryTotal(done, carry, start[k..]) == CarryTotal(done + [t % 10], t / 10, start[k + 1..])
  {
    var t := start[k] + carry;
    NumLEAppend(done, [t % 10]);
    assert NumLE([t % 10]) == t % 10 + 10 * NumLE([t % 10][1..]);
    assert start[k..][1..] == start[k + 1..];
    CarryArithmetic(NumLE(done), Pow10(k), t, NumLE(start[k + 1..]));
    assert Pow10(k + 1) == 10 * Pow10(k);
  }

  lemma {:induction false} CarryArithmetic(done: int, p: nat, t: nat, rest: int)
    ensures done + p * (t + 10 * rest) == done + p * (t % 10) + (10 * p) * (t / 10 + rest)
  {
    var q, r := t / 10, t % 10;
    assert t == 10 * q + r;
    MulDistribute(p, r, 10 * (q + rest));
    Associate(p, 10, q + rest);
  }

  method Mul(a: Dec, b: Dec) returns (r: Dec)
    requires a.Canonical() && b.Canonical() && FitsU32(a, b)
    ensures r == Product(a, b)
    ensures r.Canonical() && r.Value() == a.Value() * b.Value()
  {
    ProductIsExact(a, b);
    if a.IsZero() || b.IsZero() {
      return ZERO;
    }
    var acc := AddRows(a.digits, b.digits);
    ProductBound(a.digits, b.digits);
    PropagateCarry(acc, Min(|a.digits|, |b.digits|));
    var ds: seq<Digit> := seq(acc.Length, k requires 0 <= k < acc.Length && acc[acc.Length - 1 - k] < 10 reads acc
                              => acc[acc.Length - 1 - k]);
    assert acc[..] == Reversed(ds);
    NumReversed(ds);
    StripIsDigits(ds);
    r := Dec(StripLeadingZeros(ds), a.scale + b.scale);
  }

  lemma {:induction false} ProductBound(a: seq<Digit>, b: seq<Digit>)
    ensures Num(a) * Num(b) < Pow10(|a| + |b|)
  {
    NumBound(a);
    NumBound(b);
    Pow10Add(|a|, |b|);
    MulStrict(Num(a), Pow10(|a|), Num(b), Pow10(|b|));
  }
}
