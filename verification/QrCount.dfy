/**
How many modules a symbol leaves for data.

The count the decoder takes from a formula (Frontend/scripts/check_qr.py:16-21) is the number
of modules that no function pattern marks. The marked modules are split into disjoint parts:

- three corners, the rest of the two timing patterns, and the version information;
- the alignment modules off the timing patterns: a square grid of bands, less its three
  corner squares.
*/
module QrCount {
  import opened Algebra
  import opened QrMask

  // ----- rectangles

  ghost function Span(a: int, b: int): (r: set<int>)
    ensures forall x :: x in r <==> a <= x < b
    ensures |r| == if a < b then b - a else 0
    decreases b - a
  {
    if a < b then Span(a, b - 1) + {b - 1} else {}
  }

  ghost function Rect<A(!new), B(!new)>(xs: set<A>, ys: set<B>): set<(A, B)> {
    set x, y | x in xs && y in ys :: (x, y)
  }

  lemma {:induction false} ColumnSize<A(!new), B(!new)>(x: A, ys: set<B>)
    ensures |Rect({x}, ys)| == |ys|
    decreases |ys|
  {
    if |ys| > 0 {
      var y :| y in ys;
      ColumnSize(x, ys - {y});
      assert Rect({x}, ys) == Rect({x}, ys - {y}) + {(x, y)};
    } else {
      assert Rect({x}, ys) == {};
    }
  }

  lemma {:induction false} RectSize<A(!new), B(!new)>(xs: set<A>, ys: set<B>)
    ensures |Rect(xs, ys)| == |xs| * |ys|
    decreases |xs|
  {
    if |xs| > 0 {
      var x :| x in xs;
      var rest := xs - {x};
      RectSize(rest, ys);
      ColumnSize(x, ys);
      assert Rect(xs, ys) == Rect(rest, ys) + Rect({x}, ys);
      MulSum(|xs|, |rest|, 1, |ys|);
    } else {
      assert Rect(xs, ys) == {};
    }
  }

  /** The cells of columns `a..b` and rows `c..d`. */
  ghost function Box(a: int, b: int, c: int, d: int): (r: set<Cell>)
    requires a <= b && c <= d
    ensures forall p :: p in r <==> a <= p.0 < b && c <= p.1 < d
    ensures |r| == (b - a) * (d - c)
  {
    RectSize(Span(a, b), Span(c, d));
    Rect(Span(a, b), Span(c, d))
  }

  // ----- the columns that alignment patterns touch

  /** Columns within two of one of the first `k` centres. */
  ghost function Bands(v: nat, k: nat): set<int>
    requires k <= AlignCount(v)
  {
    if k == 0 then {} else Bands(v, k - 1) + Span(AlignAt(v, k - 1) - 2, AlignAt(v, k - 1) + 3)
  }

  ghost predicate NearSome(v: nat, k: nat, x: int)
    requires k <= AlignCount(v)
  {
    exists i: nat :: i < k && Near(x, AlignAt(v, i), 2)
  }

  lemma {:induction false} NearOneMore(v: nat, k: nat, x: int)
    requires k < AlignCount(v)
    ensures NearSome(v, k + 1, x) <==> NearSome(v, k, x) || Near(x, AlignAt(v, k), 2)
  {
    hide AlignAt, Near;
    if i: nat :| i < k + 1 && Near(x, AlignAt(v, i), 2) {
      assert i == k || i < k;
    }
    if NearSome(v, k, x) {
      var i: nat :| i < k && Near(x, AlignAt(v, i), 2);
      assert i < k + 1;
    }
  }

  lemma {:induction false} BandsAre(v: nat, k: nat)
    requires Version(v) && k <= AlignCount(v)
    ensures forall x :: x in Bands(v, k) <==> NearSome(v, k, x)
  {
    hide AlignAt;
    if k > 0 {
      hide NearSome, Span, AlignCount, Version;
      BandsAre(v, k - 1);
      forall x ensures x in Bands(v, k) <==> NearSome(v, k, x) {
        NearOneMore(v, k - 1, x);
      }
    }
  }

  lemma {:induction false} JoinSize<T>(a: set<T>, b: set<T>)
    requires a !! b
    ensures |a + b| == |a| + |b|
  {
  }

  lemma {:induction false} BandsSize(v: nat, k: nat)
    requires Version(v) && k <= AlignCount(v)
    ensures |Bands(v, k)| == 5 * k
  {
    hide Bands, AlignCount, Version;
    if k > 0 {
      BandsSize(v, k - 1);
      BandsStep(v, k - 1);
    } else {
      NoBands(v);
    }
  }

  lemma {:induction false} NoBands(v: nat)
    ensures Bands(v, 0) == {}
  {
  }

  lemma {:induction false} BandsStep(v: nat, k: nat)
    requires Version(v) && k < AlignCount(v)
    ensures |Bands(v, k + 1)| == |Bands(v, k)| + 5
  {
    var p := AlignAt(v, k);
    hide AlignAt, AlignCount, Span, Version;
    BandApart(v, k);
    BandsOne(v, k);
    JoinSize(Bands(v, k), Span(p - 2, p + 3));
  }

  lemma {:induction false} BandsOne(v: nat, k: nat)
    requires Version(v) && k < AlignCount(v)
    ensures Bands(v, k + 1) == Bands(v, k) + Span(AlignAt(v, k) - 2, AlignAt(v, k) + 3)
  {
    hide AlignAt, AlignCount, Span;
  }

  lemma {:induction false} BandApart(v: nat, k: nat)
    requires Version(v) && k < AlignCount(v)
    ensures Bands(v, k) !! Span(AlignAt(v, k) - 2, AlignAt(v, k) + 3)
  {
    hide AlignAt, AlignStep, Bands, Span;
    var before, here := Bands(v, k), Span(AlignAt(v, k) - 2, AlignAt(v, k) + 3);
    BandsAre(v, k);
    forall x | x in before ensures x !in here {
      var i: nat :| i < k && Near(x, AlignAt(v, i), 2);
      AlignSpaced(v, i, k);
    }
  }

  // ----- the parts of the function patterns, pairwise disjoint

  /** Alignment modules outside the timing patterns. */
  ghost function AlignPart(v: nat): set<Cell>
    requires Version(v)
  {
    var p := Bands(v, AlignCount(v)) - {6};
    var first, last := Span(4, 9) - {6}, Span(4 * v + 8, 4 * v + 13);
    if v == 1 then {} else Rect(p, p) - Rect(first, first) - Rect(first, last) - Rect(last, first)
  }

  lemma {:induction false} AlignPartSize(v: nat)
    requires Version(v) && v >= 2
    ensures |AlignPart(v)| == (5 * AlignCount(v) - 1) * (5 * AlignCount(v) - 1) - 56
  {
    hide AlignAt, Bands, Rect, Span;
    var n := AlignCount(v);
    BandsSize(v, n);
    Ends(v);
    var p := Bands(v, n) - {6};
    var first, last := Span(4, 9) - {6}, Span(4 * v + 8, 4 * v + 13);
    assert |p| == 5 * n - 1 && |first| == 4 && |last| == 5;
    RectSize(p, p);
    RectSize(first, first);
    RectSize(first, last);
    RectSize(last, first);
    Apart(first, last, p);
    var a, b, c := Rect(first, first), Rect(first, last), Rect(last, first);
    assert AlignPart(v) == Rect(p, p) - (a + b + c);
  }

  /** The outermost bands. */
  lemma {:induction false} Ends(v: nat)
    requires Version(v) && v >= 2
    ensures 6 in Bands(v, AlignCount(v)) && 6 in Span(4, 9) && Span(4, 9) !! Span(4 * v + 8, 4 * v + 13)
    ensures Span(4, 9) <= Bands(v, AlignCount(v)) && Span(4 * v + 8, 4 * v + 13) <= Bands(v, AlignCount(v))
    ensures AlignAt(v, 0) == 6 && AlignAt(v, AlignCount(v) - 1) == 4 * v + 10
  {
    hide Bands;
    var n := AlignCount(v);
    BandsAre(v, n);
    assert AlignAt(v, 0) == 6 && AlignAt(v, n - 1) == 4 * v + 10;
    forall x | x in Span(4, 9) ensures x in Bands(v, n) {
      assert Near(x, AlignAt(v, 0), 2);
    }
    forall x | x in Span(4 * v + 8, 4 * v + 13) ensures x in Bands(v, n) {
      assert Near(x, AlignAt(v, n - 1), 2);
    }
  }

  lemma {:induction false} Apart(first: set<int>, last: set<int>, p: set<int>)
    requires first !! last && first <= p && last <= p
    ensures Rect(first, first) !! Rect(first, last) && Rect(first, first) !! Rect(last, first)
    ensures Rect(first, last) !! Rect(last, first)
    ensures Rect(first, first) + Rect(first, last) + Rect(last, first) <= Rect(p, p)
  {
  }

  lemma {:induction false} NearEnds(v: nat, i: nat, x: int)
    requires Version(v) && i < AlignCount(v) && Near(x, AlignAt(v, i), 2)
    ensures (x < 9 <==> i == 0) && (i == 0 ==> 4 <= x)
    ensures (4 * v + 6 <= x <==> i == AlignCount(v) - 1) && (i == AlignCount(v) - 1 ==> 4 * v + 8 <= x < 4 * v + 13)
  {
    hide AlignStep;
    if i > 0 {
      AlignSpaced(v, 0, i);
    }
  }

  /** The part is what alignment patterns mark off the timing patterns. */
  lemma {:induction false} AlignPartMeans(v: nat, c: Cell)
    requires Version(v)
    ensures c in AlignPart(v) <==> Aligned(v, c) && !Timing(c)
  {
    hide AlignAt, Bands, AlignSquare, Near;
    if v >= 2 {
      if c in AlignPart(v) {
        AlignPartIsMarked(v, c);
      }
      if Aligned(v, c) && !Timing(c) {
        var i: nat, j: nat :| AlignSquare(v, i, j, c);
        MarkedIsAlignPart(v, i, j, c);
      }
    } else {
      NoAlignment(v, c);
    }
  }

  lemma {:induction false} NoAlignment(v: nat, c: Cell)
    requires v <= 1
    ensures !Aligned(v, c)
  {
  }

  lemma {:induction false} AlignPartIsMarked(v: nat, c: Cell)
    requires Version(v) && v >= 2 && c in AlignPart(v)
    ensures Aligned(v, c) && !Timing(c)
  {
    hide AlignAt, Bands, Near;
    var n := AlignCount(v);
    BandsAre(v, n);
    var i: nat :| i < n && Near(c.0, AlignAt(v, i), 2);
    var j: nat :| j < n && Near(c.1, AlignAt(v, j), 2);
    NearEnds(v, i, c.0);
    NearEnds(v, j, c.1);
    assert AlignSquare(v, i, j, c);
  }

  lemma {:induction false} MarkedIsAlignPart(v: nat, i: nat, j: nat, c: Cell)
    requires Version(v) && v >= 2 && AlignSquare(v, i, j, c) && !Timing(c)
    ensures c in AlignPart(v)
  {
    hide AlignAt, AlignCount, Bands, Near, Span;
    BandsAre(v, AlignCount(v));
    NearEnds(v, i, c.0);
    NearEnds(v, j, c.1);
  }

  /** The other parts: three corners, the rest of the timing patterns, the version information. */
  ghost function TopLeft(): set<Cell> { Box(0, 9, 0, 9) }
  ghost function TopRight(v: nat): set<Cell> { Box(4 * v + 9, 4 * v + 17, 0, 9) }
  ghost function BottomLeft(v: nat): set<Cell> { Box(0, 9, 4 * v + 9, 4 * v + 17) }
  ghost function TimingRow(v: nat): set<Cell> { Box(9, 4 * v + 9, 6, 7) }
  ghost function TimingColumn(v: nat): set<Cell> { Box(6, 7, 9, 4 * v + 9) }
  ghost function VersionRight(v: nat): set<Cell> { if v >= 7 then Box(4 * v + 6, 4 * v + 9, 0, 6) else {} }
  ghost function VersionBelow(v: nat): set<Cell> { if v >= 7 then Box(0, 6, 4 * v + 6, 4 * v + 9) else {} }

  ghost function Board(v: nat): set<Cell> {
    Box(0, Side(v), 0, Side(v))
  }

  ghost function FixedPart(v: nat): set<Cell> {
    TopLeft() + TopRight(v) + BottomLeft(v) + TimingRow(v) + TimingColumn(v) + VersionRight(v) + VersionBelow(v)
  }

  lemma {:induction false} FixedSize(v: nat)
    requires v >= 1
    ensures |FixedPart(v)| == 225 + 8 * v + if v >= 7 then 36 else 0
  {
    hide TopLeft, TopRight, BottomLeft, TimingRow, TimingColumn, VersionRight, VersionBelow;
    FixedApart(v);
    FixedSizes(v);
    var corners := TopLeft() + TopRight(v) + BottomLeft(v);
    var timing := TimingRow(v) + TimingColumn(v);
    var version := VersionRight(v) + VersionBelow(v);
    assert FixedPart(v) == corners + timing + version;
  }

  lemma {:induction false} FixedApart(v: nat)
    requires v >= 1
    ensures TopLeft() !! TopRight(v) && TopLeft() !! BottomLeft(v) && TopRight(v) !! BottomLeft(v)
    ensures TimingRow(v) !! TimingColumn(v) && VersionRight(v) !! VersionBelow(v)
    ensures TopLeft() + TopRight(v) + BottomLeft(v) !! TimingRow(v) + TimingColumn(v)
    ensures TopLeft() + TopRight(v) + BottomLeft(v) + (TimingRow(v) + TimingColumn(v))
         !! VersionRight(v) + VersionBelow(v)
  {
    hide Box;
  }

  lemma {:induction false} FixedSizes(v: nat)
    requires v >= 1
    ensures |TopLeft()| == 81 && |TopRight(v)| == 72 && |BottomLeft(v)| == 72
    ensures |TimingRow(v)| == 4 * v && |TimingColumn(v)| == 4 * v
    ensures |VersionRight(v)| == |VersionBelow(v)| == if v >= 7 then 18 else 0
  {
    hide Box;
  }

  lemma {:induction false} FixedMeans(v: nat, c: Cell)
    requires Version(v) && Inside(Side(v), c)
    ensures c in FixedPart(v) <==> Timing(c) || Finder(Side(v), c) || Format(Side(v), c) || VersionInfo(v, c)
  {
    hide Timing, Finder, Format, VersionInfo, FixedPart;
    FixedCells(v, c);
    CellsMarked(v, c);
  }

  /** The same parts, column and row. */
  predicate FixedCell(v: nat, x: int, y: int) {
    (x < 9 && (y < 9 || y >= 4 * v + 9)) || (x >= 4 * v + 9 && y < 9) || y == 6 || x == 6
    || (v >= 7 && ((4 * v + 6 <= x && y < 6) || (4 * v + 6 <= y && x < 6)))
  }

  lemma {:induction false} FixedCells(v: nat, c: Cell)
    requires Version(v) && Inside(Side(v), c)
    ensures c in FixedPart(v) <==> FixedCell(v, c.0, c.1)
  {
    hide Box;
  }

  lemma {:induction false} CellsMarked(v: nat, c: Cell)
    requires Version(v) && Inside(Side(v), c)
    ensures FixedCell(v, c.0, c.1) <==> Timing(c) || Finder(Side(v), c) || Format(Side(v), c) || VersionInfo(v, c)
  {
  }

  lemma {:induction false} AlignApart(v: nat)
    requires Version(v)
    ensures AlignPart(v) !! FixedPart(v) && AlignPart(v) <= Board(v) && FixedPart(v) <= Board(v)
  {
    hide AlignPart, FixedPart, Box, Timing;
    forall c | c in AlignPart(v) ensures c !in FixedPart(v) && c in Board(v) {
      AlignPartMeans(v, c);
      AlignedApart(v, c);
    }
    FixedInside(v);
  }

  lemma {:induction false} FixedInside(v: nat)
    requires Version(v)
    ensures FixedPart(v) <= Board(v)
  {
    hide Box;
  }

  lemma {:induction false} AlignedApart(v: nat, c: Cell)
    requires Version(v) && Aligned(v, c) && !Timing(c)
    ensures c !in FixedPart(v) && c in Board(v)
  {
    hide AlignAt, Near, FixedPart, Box;
    var i: nat, j: nat :| AlignSquare(v, i, j, c);
    NearEnds(v, i, c.0);
    NearEnds(v, j, c.1);
    AlignedInside(v, i, j, c);
    FixedMeans(v, c);
    NotFixed(v, i, j, c);
  }

  lemma {:induction false} AlignedInside(v: nat, i: nat, j: nat, c: Cell)
    requires Version(v) && AlignSquare(v, i, j, c)
    ensures Inside(Side(v), c) && c in Board(v)
  {
    hide AlignAt;
    AlignInside(v, i);
    AlignInside(v, j);
  }

  lemma {:induction false} NotFixed(v: nat, i: nat, j: nat, c: Cell)
    requires Version(v) && AlignSquare(v, i, j, c)
    requires (c.0 < 9 <==> i == 0) && (c.1 < 9 <==> j == 0)
    requires 4 * v + 6 <= c.0 <==> i == AlignCount(v) - 1
    requires 4 * v + 6 <= c.1 <==> j == AlignCount(v) - 1
    requires Inside(Side(v), c) && !Timing(c)
    ensures !Finder(Side(v), c) && !Format(Side(v), c) && !VersionInfo(v, c)
  {
    hide AlignAt;
  }

  // ----- the count

  /** Modules left for data. */
  ghost function Free(v: nat): set<Cell> {
    set c | c in Board(v) && !IsFunction(v, c)
  }

  lemma {:induction false} FreeIs(v: nat)
    requires Version(v)
    ensures Free(v) == Board(v) - (FixedPart(v) + AlignPart(v))
  {
    hide FixedPart, AlignPart, Box, Aligned, Finder, Format, VersionInfo, Timing;
    forall c | c in Board(v) ensures IsFunction(v, c) <==> c in FixedPart(v) || c in AlignPart(v) {
      OnBoard(v, c);
      FixedMeans(v, c);
      AlignPartMeans(v, c);
    }
  }

  lemma {:induction false} OnBoard(v: nat, c: Cell)
    ensures c in Board(v) <==> Inside(Side(v), c)
  {
    hide Box;
  }

  /** The formula counts the modules that no function pattern marks, for every version. */
  lemma {:induction false} FreeCount(v: nat)
    requires Version(v)
    ensures |Free(v)| == RawModules(v)
  {
    hide FixedPart, AlignPart, Box, Free, AlignStep, IsFunction;
    FreeIs(v);
    AlignApart(v);
    FixedSize(v);
    assert |Free(v)| == |Board(v)| - |FixedPart(v)| - |AlignPart(v)|;
    if v >= 2 {
      AlignPartSize(v);
      Formula(v, AlignCount(v));
    } else {
      NoPart(v);
    }
  }

  lemma {:induction false} Formula(v: int, n: int)
    ensures (4 * v + 17) * (4 * v + 17) - 225 - 8 * v - ((5 * n - 1) * (5 * n - 1) - 56)
         == (16 * v + 128) * v + 64 - ((25 * n - 10) * n - 55)
  {
  }

  lemma {:induction false} NoPart(v: nat)
    requires v == 1
    ensures AlignPart(v) == {}
  {
  }
}
