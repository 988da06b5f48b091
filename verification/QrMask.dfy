/**
The function modules of a QR symbol (Frontend/scripts/check_qr.py:16-49) and how many
modules they leave for data. Versions run from 1 to 40 (section 5.3.1 of ISO/IEC 18004:2015).
*/
module QrMask {
  import opened Algebra

  type Cell = (int, int)

  /** The side of a symbol of version `v`. */
  function Side(v: nat): nat {
    4 * v + 17
  }

  function RawModules(v: nat): int {
    var r := (16 * v + 128) * v + 64;
    if v >= 2 then
      var n := v / 7 + 2;
      r - ((25 * n - 10) * n - 55) - (if v >= 7 then 36 else 0)
    else r
  }

  // ----- alignment patterns

  function AlignCount(v: nat): nat {
    if v <= 1 then 0 else v / 7 + 2
  }

  /** Twice the rounded-up quotient: the divisor is positive, so `/` floors as Python's `//` does. */
  function AlignStep(v: nat): int
    requires v >= 2
  {
    -(-(v * 4 + 4) / (AlignCount(v) * 2 - 2)) * 2
  }

  function AlignAt(v: nat, i: nat): int
    requires v >= 2 && i < AlignCount(v)
  {
    if i == 0 then 6 else v * 4 + 10 - (AlignCount(v) - 1 - i) * AlignStep(v)
  }

  method Align(v: nat) returns (pos: seq<int>)
    ensures |pos| == AlignCount(v)
    ensures forall i :: 0 <= i < |pos| ==> pos[i] == AlignAt(v, i)
  {
    if v <= 1 {
      return [];
    }
    hide AlignStep;
    var n := v / 7 + 2;
    var step := AlignStep(v);
    pos := [6] + seq(n - 1, _ => 0);
    var p := v * 4 + 10;
    var i := n - 1;
    while i > 0
      invariant 0 <= i < n == |pos|
      invariant pos[0] == 6 && p == v * 4 + 10 - (n - 1 - i) * step
      invariant forall k :: i < k < n ==> pos[k] == AlignAt(v, k)
    {
      pos := pos[i := p];
      p := p - step;
      i := i - 1;
      assert (n - 1 - i) * step == (n - 2 - i) * step + step;
    }
  }

  /** The version is one the standard defines. */
  predicate Version(v: nat) {
    1 <= v <= 40
  }

  lemma {:induction false} StepRange(v: nat)
    requires Version(v) && v >= 7
    ensures 16 <= AlignStep(v) && (AlignCount(v) - 2) * AlignStep(v) <= v * 4 - 1
  {
    assert v / 7 == 1 || v / 7 == 2 || v / 7 == 3 || v / 7 == 4 || v / 7 == 5;
  }

  /** Neighbouring centres are at least five apart, none but the first near the left edge. */
  lemma {:induction false} AlignSpaced(v: nat, i: nat, j: nat)
    requires Version(v) && i < j < AlignCount(v)
    ensures AlignAt(v, i) + 5 <= AlignAt(v, j) <= 4 * v + 10 && 11 <= AlignAt(v, j)
    ensures j + 1 < AlignCount(v) ==> AlignAt(v, j) + 16 <= 4 * v + 10
  {
    hide AlignStep;
    var n := AlignCount(v);
    if v < 7 {
      assert n == 2;
    } else {
      StepRange(v);
      var step := AlignStep(v);
      Between(n - 1 - j, n - 2, step);
      if i > 0 {
        assert n - 1 - i == (n - 1 - j) + (j - i);
        MulSum(n - 1 - i, n - 1 - j, j - i, step);
        Between(1, j - i, step);
      }
      if j + 1 < n {
        Between(1, n - 1 - j, step);
      }
    }
  }

  lemma {:induction false} Between(a: int, b: int, step: int)
    requires 0 <= a <= b && 0 <= step
    ensures a * step <= b * step
  {
  }

  /** The distance between neighbouring centres right of the first, versions 7 to 40 (Annex E of ISO/IEC 18004:2015). */
  const SPACING: seq<nat> := [16, 18, 20, 22, 24, 26, 28, 20, 22, 24, 24, 26, 28, 28, 22, 24, 24,
                              26, 26, 28, 28, 24, 24, 26, 26, 26, 28, 28, 24, 26, 26, 26, 28, 28]

  /** The step is the standard's in every version but 32, where it is 28 and not 26. */
  lemma {:induction false} StepIsStandard(v: nat)
    requires 7 <= v <= 40
    ensures AlignStep(v) == SPACING[v - 7] <==> v != 32
    ensures v == 32 ==> AlignStep(v) == 28 && SPACING[v - 7] == 26
  {
    if v < 21 {
      NarrowStep(v);
    } else if v < 28 {
      MiddleStep(v);
    } else {
      WideStep(v);
    }
  }

  lemma {:induction false} NarrowStep(v: nat)
    requires 7 <= v < 21
    ensures AlignStep(v) == SPACING[v - 7]
  {
    if v < 14 {
      assert AlignStep(v) == 2 * v + 2;
    } else {
      assert AlignStep(v) == -(-(v * 4 + 4) / 6) * 2;
    }
  }

  lemma {:induction false} MiddleStep(v: nat)
    requires 21 <= v < 28
    ensures AlignStep(v) == SPACING[v - 7]
  {
    assert AlignStep(v) == -(-(v * 4 + 4) / 8) * 2;
  }

  lemma {:induction false} WideStep(v: nat)
    requires 28 <= v <= 40
    ensures AlignStep(v) == if v == 32 then 28 else SPACING[v - 7]
  {
    if v < 35 {
      assert AlignStep(v) == -(-(v * 4 + 4) / 10) * 2;
    } else {
      assert AlignStep(v) == -(-(v * 4 + 4) / 12) * 2;
    }
  }

  /** The centres run from the right edge inwards at that step, and the first is at 6. */
  lemma {:induction false} CentresAre(v: nat, i: nat)
    requires v >= 2 && i < AlignCount(v)
    ensures i == 0 ==> AlignAt(v, i) == 6
    ensures i == AlignCount(v) - 1 ==> AlignAt(v, i) == Side(v) - 7
    ensures 0 < i < AlignCount(v) - 1 ==> AlignAt(v, i + 1) - AlignAt(v, i) == AlignStep(v)
  {
    hide AlignStep;
    var n, step := AlignCount(v), AlignStep(v);
    if 0 < i < n - 1 {
      assert (n - 1 - i) * step == (n - 2 - i) * step + step;
    }
  }

  // ----- what is marked

  predicate Near(x: int, p: int, r: int) {
    p - r <= x <= p + r
  }

  predicate Inside(s: nat, c: Cell) {
    0 <= c.0 < s && 0 <= c.1 < s
  }

  predicate Square(cx: int, cy: int, r: int, c: Cell) {
    Near(c.0, cx, r) && Near(c.1, cy, r)
  }

  predicate Timing(c: Cell) {
    c.0 == 6 || c.1 == 6
  }

  predicate Finder(s: nat, c: Cell) {
    Square(3, 3, 4, c) || Square(s - 4, 3, 4, c) || Square(3, s - 4, 4, c)
  }

  /** The pairs of centres that would fall on a finder pattern. */
  predicate Corner(n: nat, i: nat, j: nat) {
    (i == 0 && j == 0) || (i == 0 && j == n - 1) || (i == n - 1 && j == 0)
  }

  predicate AlignSquare(v: nat, i: nat, j: nat, c: Cell) {
    i < AlignCount(v) && j < AlignCount(v) && !Corner(AlignCount(v), i, j) && Square(AlignAt(v, i), AlignAt(v, j), 2, c)
  }

  ghost predicate Aligned(v: nat, c: Cell) {
    exists i: nat, j: nat :: AlignSquare(v, i, j, c)
  }

  predicate Format(s: nat, c: Cell) {
    (c.1 == 8 && (c.0 < 9 || c.0 >= s - 8)) || (c.0 == 8 && (c.1 < 9 || c.1 >= s - 8))
  }

  predicate VersionInfo(v: nat, c: Cell) {
    var s := Side(v);
    v >= 7 && ((c.1 < 6 && s - 11 <= c.0 < s - 8) || (c.0 < 6 && s - 11 <= c.1 < s - 8))
  }

  ghost predicate IsFunction(v: nat, c: Cell) {
    Timing(c) || Finder(Side(v), c) || Aligned(v, c) || Format(Side(v), c) || VersionInfo(v, c)
  }

  // ----- the marking loops

  /** `f[row][column]` holds `region` on top of what it held. */
  twostate predicate Added(f: array2<bool>, region: Cell -> bool)
    reads f
  {
    forall y, x :: 0 <= y < f.Length0 && 0 <= x < f.Length1 ==> f[y, x] == (old(f[y, x]) || region((x, y)))
  }

  method MarkTiming(f: array2<bool>)
    requires f.Length0 == f.Length1 >= 7
    modifies f
    ensures Added(f, (c: Cell) => Timing(c))
  {
    var i := 0;
    while i < f.Length0
      invariant 0 <= i <= f.Length0
      invariant forall y, x :: 0 <= y < f.Length0 && 0 <= x < f.Length1 ==>
        f[y, x] == (old(f[y, x]) || (x == 6 && y < i) || (y == 6 && x < i))
    {
      f[6, i] := true;
      f[i, 6] := true;
      i := i + 1;
    }
  }

  /** The square around a centre, as far as it lies on the symbol. */
  method MarkSquare(f: array2<bool>, cx: int, cy: int, r: nat)
    modifies f
    ensures Added(f, (c: Cell) => Square(cx, cy, r, c))
  {
    var dy: int := -(r as int);
    while dy <= r
      invariant -(r as int) <= dy <= r + 1
      invariant forall y, x :: 0 <= y < f.Length0 && 0 <= x < f.Length1 ==>
        f[y, x] == (old(f[y, x]) || (Square(cx, cy, r, (x, y)) && y - cy < dy))
    {
      var dx: int := -(r as int);
      while dx <= r
        invariant -(r as int) <= dx <= r + 1
        invariant forall y, x :: 0 <= y < f.Length0 && 0 <= x < f.Length1 ==>
          f[y, x] == (old(f[y, x]) || (Square(cx, cy, r, (x, y)) && (y - cy < dy || (y - cy == dy && x - cx < dx))))
      {
        if 0 <= cx + dx < f.Length1 && 0 <= cy + dy < f.Length0 {
          f[cy + dy, cx + dx] := true;
        }
        dx := dx + 1;
      }
      dy := dy + 1;
    }
  }

  method MarkFinders(f: array2<bool>, s: nat)
    requires f.Length0 == f.Length1 == s
    modifies f
    ensures Added(f, (c: Cell) => Finder(s, c))
  {
    MarkSquare(f, 3, 3, 4);
    MarkSquare(f, s - 4, 3, 4);
    MarkSquare(f, 3, s - 4, 4);
  }

  ghost predicate AlignedBefore(v: nat, i: nat, j: nat, c: Cell) {
    exists a: nat, b: nat :: AlignSquare(v, a, b, c) && (a < i || (a == i && b < j))
  }

  lemma {:induction false} AlignedNext(v: nat, i: nat, j: nat, c: Cell)
    ensures AlignedBefore(v, i, j + 1, c) <==> AlignedBefore(v, i, j, c) || AlignSquare(v, i, j, c)
    ensures j >= AlignCount(v) ==> (AlignedBefore(v, i, j, c) <==> AlignedBefore(v, i + 1, 0, c))
    ensures i >= AlignCount(v) ==> (AlignedBefore(v, i, 0, c) <==> Aligned(v, c))
    ensures !AlignedBefore(v, 0, 0, c)
  {
    hide AlignAt, Corner;
  }

  /** Alignment squares lie wholly on the symbol, so marking one never leaves the table. */
  lemma {:induction false} AlignInside(v: nat, i: nat)
    requires Version(v) && i < AlignCount(v)
    ensures 4 <= AlignAt(v, i) - 2 && AlignAt(v, i) + 2 < Side(v) - 4
  {
    if i > 0 {
      AlignSpaced(v, 0, i);
    }
  }

  method MarkAlignment(f: array2<bool>, v: nat)
    requires Version(v) && f.Length0 == f.Length1 == Side(v)
    modifies f
    ensures Added(f, (c: Cell) => Aligned(v, c))
  {
    hide AlignAt, AlignSquare, Aligned;
    var pos := Align(v);
    var n := |pos|;
    var i := 0;
    forall c: Cell ensures !AlignedBefore(v, 0, 0, c) {
      AlignedNext(v, 0, 0, c);
    }
    while i < n
      invariant 0 <= i <= n
      invariant forall y, x :: 0 <= y < f.Length0 && 0 <= x < f.Length1 ==>
        f[y, x] == (old(f[y, x]) || AlignedBefore(v, i, 0, (x, y)))
    {
      var j := 0;
      while j < n
        invariant 0 <= j <= n
        invariant forall y, x :: 0 <= y < f.Length0 && 0 <= x < f.Length1 ==>
          f[y, x] == (old(f[y, x]) || AlignedBefore(v, i, j, (x, y)))
      {
        MarkPair(f, v, pos, i, j);
        j := j + 1;
      }
      forall c: Cell ensures AlignedBefore(v, i, n, c) <==> AlignedBefore(v, i + 1, 0, c) {
        AlignedNext(v, i, n, c);
      }
      i := i + 1;
    }
    forall c: Cell ensures AlignedBefore(v, n, 0, c) <==> Aligned(v, c) {
      AlignedNext(v, n, 0, c);
    }
  }

  method MarkPair(f: array2<bool>, v: nat, pos: seq<int>, i: nat, j: nat)
    requires Version(v) && f.Length0 == f.Length1 == Side(v)
    requires |pos| == AlignCount(v) && i < |pos| && j < |pos|
    requires forall k :: 0 <= k < |pos| ==> pos[k] == AlignAt(v, k)
    modifies f
    ensures forall y, x :: 0 <= y < f.Length0 && 0 <= x < f.Length1 ==>
      (f[y, x] <==> old(f[y, x]) || AlignSquare(v, i, j, (x, y)))
    ensures forall c: Cell :: AlignedBefore(v, i, j + 1, c) <==> AlignedBefore(v, i, j, c) || AlignSquare(v, i, j, c)
  {
    hide AlignAt, AlignedBefore;
    forall c: Cell ensures AlignedBefore(v, i, j + 1, c) <==> AlignedBefore(v, i, j, c) || AlignSquare(v, i, j, c) {
      AlignedNext(v, i, j, c);
    }
    if !Corner(|pos|, i, j) {
      AlignInside(v, i);
      AlignInside(v, j);
      assert 0 <= pos[i] - 2 && pos[i] + 2 < Side(v) && 0 <= pos[j] - 2 && pos[j] + 2 < Side(v);
      MarkSquare(f, pos[i], pos[j], 2);
    }
  }

  method MarkFormat(f: array2<bool>, s: nat)
    requires f.Length0 == f.Length1 == s >= 17
    modifies f
    ensures Added(f, (c: Cell) => Format(s, c))
  {
    var i := 0;
    while i < 9
      invariant 0 <= i <= 9
      invariant forall y, x :: 0 <= y < s && 0 <= x < s ==>
        f[y, x] == (old(f[y, x]) || (x == 8 && y < i) || (y == 8 && x < i))
    {
      f[8, i] := true;
      f[i, 8] := true;
      i := i + 1;
    }
    i := 0;
    while i < 8
      invariant 0 <= i <= 8
      invariant forall y, x :: 0 <= y < s && 0 <= x < s ==>
        f[y, x] == (old(f[y, x]) || (x == 8 && (y < 9 || y >= s - i)) || (y == 8 && (x < 9 || x >= s - i)))
    {
      f[8, s - 1 - i] := true;
      f[s - 1 - i, 8] := true;
      i := i + 1;
    }
    f[s - 8, 8] := true;
  }

  method MarkVersion(f: array2<bool>, v: nat)
    requires f.Length0 == f.Length1 == Side(v)
    modifies f
    ensures Added(f, (c: Cell) => VersionInfo(v, c))
  {
    var s := Side(v);
    if v >= 7 {
      var i := 0;
      while i < 6
        invariant 0 <= i <= 6
        invariant forall y, x :: 0 <= y < s && 0 <= x < s ==>
          f[y, x] == (old(f[y, x]) || (y < i && s - 11 <= x < s - 8) || (x < i && s - 11 <= y < s - 8))
      {
        var j := 0;
        while j < 3
          invariant 0 <= j <= 3
          invariant forall y, x :: 0 <= y < s && 0 <= x < s ==>
            f[y, x] == (old(f[y, x]) || (y < i && s - 11 <= x < s - 8) || (x < i && s - 11 <= y < s - 8)
                        || (y == i && s - 11 <= x < s - 11 + j) || (x == i && s - 11 <= y < s - 11 + j))
        {
          f[i, s - 11 + j] := true;
          f[s - 11 + j, i] := true;
          j := j + 1;
        }
        i := i + 1;
      }
    }
  }

  method FuncMask(v: nat) returns (f: array2<bool>)
    requires Version(v)
    ensures fresh(f) && f.Length0 == f.Length1 == Side(v)
    ensures forall y, x :: 0 <= y < Side(v) && 0 <= x < Side(v) ==> (f[y, x] <==> IsFunction(v, (x, y)))
  {
    hide Finder, Format, VersionInfo, Aligned, Timing;
    var s := Side(v);
    f := new bool[s, s]((_, _) => false);
    MarkTiming(f);
    MarkFinders(f, s);
    MarkAlignment(f, v);
    MarkFormat(f, s);
    MarkVersion(f, v);
  }
}
