/**
Reading a QR symbol in the two-column zigzag (Frontend/scripts/check_qr.py, `decode`).

The order is that of section 7.7.3 of ISO/IEC 18004:2015:

- two columns at a time from the right, alternately upwards and downwards;
- column 6 is stepped over: it is the vertical timing pattern, so it holds only function
  modules (check_qr.py:31).
*/
module QrScan {
  import opened Algebra
  import opened Sorting
  import opened QrMask

  /** One strip of two columns, right column first, from the bottom up or from the top down. */
  function Strip(s: nat, x: int, up: bool): (cells: seq<Cell>)
    ensures |cells| == 2 * s
    ensures forall k :: 0 <= k < 2 * s ==> cells[k] == (x - k % 2, if up then s - 1 - k / 2 else k / 2)
  {
    seq(2 * s, k requires 0 <= k < 2 * s => (x - k % 2, if up then s - 1 - k / 2 else k / 2))
  }

  /** Column 6 is stepped over. */
  function StripColumn(x: int): int {
    if x == 6 then 5 else x
  }

  function PathFrom(s: nat, x: int, up: bool): seq<Cell>
    decreases if x > 0 then x else 0
  {
    if x <= 0 then [] else Strip(s, StripColumn(x), up) + PathFrom(s, StripColumn(x) - 2, !up)
  }

  function Path(s: nat): seq<Cell>
    requires s > 0
  {
    PathFrom(s, s - 1, true)
  }

  /** Module bits read along a path, function modules left out. */
  ghost function Bits(path: seq<Cell>, isFunction: Cell -> bool, bit: Cell -> bool): seq<bool>
  {
    if |path| == 0 then []
    else
      var c := path[|path| - 1];
      Bits(path[..|path| - 1], isFunction, bit) + (if isFunction(c) then [] else [bit(c)])
  }

  /** The columns the scan can stand on: even from the right edge down to 6, then odd. */
  predicate OnTrack(x: int) {
    x >= -1 && (if x >= 6 then x % 2 == 0 else x % 2 == 1)
  }

  /** Everything left of and including column `x`, except column 6. */
  predicate Ahead(s: nat, x: int, c: Cell) {
    0 <= c.0 <= x && c.0 != 6 && 0 <= c.1 < s
  }

  lemma {:induction false} StripCells(s: nat, x: int, up: bool, c: Cell)
    ensures c in Strip(s, x, up) <==> (c.0 == x || c.0 == x - 1) && 0 <= c.1 < s
  {
    var cells := Strip(s, x, up);
    if (c.0 == x || c.0 == x - 1) && 0 <= c.1 < s {
      var row := if up then s - 1 - c.1 else c.1;
      var k := 2 * row + (x - c.0);
      assert cells[k] == c;
    }
  }

  lemma {:induction false} StripDistinct(s: nat, x: int, up: bool)
    ensures NoDuplicates(Strip(s, x, up))
  {
  }

  lemma {:induction false} PathCells(s: nat, x: int, up: bool, c: Cell)
    requires OnTrack(x)
    ensures c in PathFrom(s, x, up) <==> Ahead(s, x, c)
    decreases if x > 0 then x else 0
  {
    hide Strip;
    if x > 0 {
      var col := StripColumn(x);
      StripCells(s, col, up, c);
      PathCells(s, col - 2, !up, c);
    }
  }

  lemma {:induction false} PathDistinct(s: nat, x: int, up: bool)
    requires OnTrack(x)
    ensures NoDuplicates(PathFrom(s, x, up))
    decreases if x > 0 then x else 0
  {
    hide Strip;
    if x > 0 {
      var col := StripColumn(x);
      var strip, rest := Strip(s, col, up), PathFrom(s, col - 2, !up);
      StripDistinct(s, col, up);
      PathDistinct(s, col - 2, !up);
      forall i, j | 0 <= i < |strip| && 0 <= j < |rest| ensures strip[i] != rest[j] {
        StripCells(s, col, up, strip[i]);
        PathCells(s, col - 2, !up, rest[j]);
      }
    }
  }

  lemma {:induction false} SideOnTrack(v: nat)
    ensures OnTrack(Side(v) - 1)
  {
    EvenTwice(2 * v + 8);
  }

  lemma {:induction false} EvenTwice(k: nat)
    ensures 2 * k % 2 == 0
  {
  }

  /** The scan passes over every module outside column 6 exactly once, for every symbol size. */
  lemma {:induction false} ScanVisitsOnce(v: nat)
    ensures var s := Side(v);
            NoDuplicates(Path(s))
            && forall c: Cell :: c in Path(s) <==> 0 <= c.0 < s && c.0 != 6 && 0 <= c.1 < s
  {
    hide Strip, PathFrom, OnTrack, NoDuplicates;
    var s := Side(v);
    SideOnTrack(v);
    PathDistinct(s, s - 1, true);
    forall c: Cell ensures c in Path(s) <==> 0 <= c.0 < s && c.0 != 6 && 0 <= c.1 < s {
      PathCells(s, s - 1, true, c);
    }
  }

  /** With the timing column marked as function modules, each data module is read exactly once. */
  lemma {:induction false} EveryDataModuleOnce(v: nat, isFunction: Cell -> bool, c: Cell)
    requires forall y :: isFunction((6, y))
    requires 0 <= c.0 < Side(v) && 0 <= c.1 < Side(v) && !isFunction(c)
    ensures exists k :: 0 <= k < |Path(Side(v))| && Path(Side(v))[k] == c
                        && forall j :: 0 <= j < |Path(Side(v))| && j != k ==> Path(Side(v))[j] != c
  {
    hide Path;
    ScanVisitsOnce(v);
    assert isFunction((6, c.1));
    assert c.0 != 6;
    var k :| 0 <= k < |Path(Side(v))| && Path(Side(v))[k] == c;
    forall j | 0 <= j < |Path(Side(v))| && j != k ensures Path(Side(v))[j] != c {
    }
  }

  // ----- the nested loops

  lemma {:induction false} BitsOne(path: seq<Cell>, c: Cell, isFunction: Cell -> bool, bit: Cell -> bool)
    ensures Bits(path + [c], isFunction, bit) == if isFunction(c) then Bits(path, isFunction, bit)
      else Bits(path, isFunction, bit) + [bit(c)]
  {
    assert (path + [c])[..|path|] == path;
  }

  /** The table holds `isFunction` for every module of the symbol. */
  ghost predicate Tabulates(f: array2<bool>, s: nat, isFunction: Cell -> bool)
    reads f
  {
    f.Length0 == f.Length1 == s && forall y, x :: 0 <= y < s && 0 <= x < s ==> (f[y, x] <==> isFunction((x, y)))
  }

  lemma {:induction false} StripPlace(row: nat, dx: nat)
    requires dx < 2
    ensures (2 * row + dx) / 2 == row && (2 * row + dx) % 2 == dx
  {
  }

  lemma {:induction false} NextPlace(path: seq<Cell>, strip: seq<Cell>, n: nat)
    requires n < |strip|
    ensures path + strip[..n + 1] == path + strip[..n] + [strip[n]]
  {
  }

  method ScanStrip(s: nat, x: int, up: bool, f: array2<bool>, bit: Cell -> bool, before: seq<bool>,
                   ghost isFunction: Cell -> bool, ghost path: seq<Cell>)
    returns (out: seq<bool>)
    requires Tabulates(f, s, isFunction) && 1 <= x < s
    requires before == Bits(path, isFunction, bit)
    ensures out == Bits(path + Strip(s, x, up), isFunction, bit)
  {
    hide Bits, Strip;
    out := before;
    ghost var strip := Strip(s, x, up);
    var row := 0;
    assert path + strip[..0] == path;
    while row < s
      invariant 0 <= row <= s
      invariant out == Bits(path + strip[..2 * row], isFunction, bit)
    {
      var y := if up then s - 1 - row else row;
      var dx := 0;
      while dx < 2
        invariant 0 <= dx <= 2
        invariant out == Bits(path + strip[..2 * row + dx], isFunction, bit)
      {
        var xx := x - dx;
        BitsOne(path + strip[..2 * row + dx], (xx, y), isFunction, bit);
        StripPlace(row, dx);
        NextPlace(path, strip, 2 * row + dx);
        if !f[y, xx] {
          out := out + [bit((xx, y))];
        }
        dx := dx + 1;
      }
      row := row + 1;
    }
    assert strip[..2 * row] == strip;
  }

  method Scan(s: nat, f: array2<bool>, bit: Cell -> bool, ghost isFunction: Cell -> bool) returns (out: seq<bool>)
    requires s > 0 && Tabulates(f, s, isFunction)
    ensures out == Bits(Path(s), isFunction, bit)
  {
    hide Bits, Strip, PathFrom, Tabulates;
    out := [];
    ghost var path: seq<Cell> := [];
    NoBits(isFunction, bit);
    var up := true;
    var x := s - 1;
    assert [] + PathFrom(s, x, up) == PathFrom(s, x, up);
    while x > 0
      invariant x < s
      invariant out == Bits(path, isFunction, bit)
      invariant path + PathFrom(s, x, up) == Path(s)
      decreases if x > 0 then x else 0
    {
      PathStep(path, s, x, up);
      if x == 6 {
        x := x - 1;
      }
      out := ScanStrip(s, x, up, f, bit, out, isFunction, path);
      path := path + Strip(s, x, up);
      up := !up;
      x := x - 2;
    }
    PathEnd(path, s, x, up);
  }

  lemma {:induction false} PathStep(path: seq<Cell>, s: nat, x: int, up: bool)
    requires x > 0
    ensures path + PathFrom(s, x, up)
         == path + Strip(s, StripColumn(x), up) + PathFrom(s, StripColumn(x) - 2, !up)
  {
    hide Strip;
    var strip, rest := Strip(s, StripColumn(x), up), PathFrom(s, StripColumn(x) - 2, !up);
    assert path + (strip + rest) == path + strip + rest;
  }

  lemma {:induction false} PathEnd(path: seq<Cell>, s: nat, x: int, up: bool)
    requires x <= 0
    ensures path + PathFrom(s, x, up) == path
  {
  }

  lemma {:induction false} NoBits(isFunction: Cell -> bool, bit: Cell -> bool)
    ensures Bits([], isFunction, bit) == []
  {
  }

  // ----- how many bits are read

  lemma {:induction false} BitsCount(path: seq<Cell>, isFunction: Cell -> bool, bit: Cell -> bool, read: set<Cell>)
    requires NoDuplicates(path) && forall c :: c in read <==> c in path && !isFunction(c)
    ensures |Bits(path, isFunction, bit)| == |read|
  {
    if |path| == 0 {
      assert read == {};
    } else {
      var init, c := path[..|path| - 1], path[|path| - 1];
      assert path == init + [c];
      BitsCount(init, isFunction, bit, read - {c});
    }
  }

  /** Only the data modules of the path are looked at. */
  lemma {:induction false} BitsAgree(path: seq<Cell>, isFunction: Cell -> bool, bit: Cell -> bool, other: Cell -> bool)
    requires forall c :: !isFunction(c) ==> bit(c) == other(c)
    ensures Bits(path, isFunction, bit) == Bits(path, isFunction, other)
  {
    if |path| > 0 {
      BitsAgree(path[..|path| - 1], isFunction, bit, other);
    }
  }

  // ----- the order in closed form

  /** Strips on a track from column `x` to the left. */
  function Strips(x: int): int {
    if x >= 6 then x / 2 else (x + 1) / 2
  }

  /** The right column of strip `t`, counted from the right: odd once the timing column is passed. */
  function Column(x: int, t: nat): int {
    if x >= 6 && x - 2 * t <= 6 then x - 2 * t - 1 else x - 2 * t
  }

  /** Module `k` of the strip whose right column is `x`. */
  function StripAt(s: nat, x: int, up: bool, k: nat): Cell {
    (x - k % 2, if up then s - 1 - k / 2 else k / 2)
  }

  lemma {:induction false} StripHas(s: nat, x: int, up: bool, k: nat)
    requires k < 2 * s
    ensures |Strip(s, x, up)| == 2 * s && Strip(s, x, up)[k] == StripAt(s, x, up, k)
  {
  }

  lemma {:induction false} OnePath(s: nat, x: int, up: bool)
    requires OnTrack(x) && Strips(x) > 0
    ensures x > 0 && OnTrack(StripColumn(x) - 2)
    ensures PathFrom(s, x, up) == Strip(s, StripColumn(x), up) + PathFrom(s, StripColumn(x) - 2, !up)
    ensures Strips(StripColumn(x) - 2) == Strips(x) - 1
  {
    hide Strip;
  }

  lemma {:induction false} OneColumn(x: int, t: nat)
    requires OnTrack(x) && Strips(x) > 0
    ensures Column(x, 0) == StripColumn(x)
    ensures t > 0 ==> Column(x, t) == Column(StripColumn(x) - 2, t - 1)
  {
  }

  lemma {:induction false} OneStripLess(s: nat, t: nat)
    requires t > 0
    ensures 2 * s * t == 2 * s * (t - 1) + 2 * s
  {
  }

  lemma {:induction false} Turned(t: nat, up: bool)
    requires t > 0
    ensures ((t % 2 == 0) == up) == (((t - 1) % 2 == 0) == !up)
  {
  }

  /** Strip `t` of the path, which starts after `before` modules. */
  lemma {:induction false} PathAt(s: nat, x: int, up: bool, t: nat, k: nat, before: nat)
    requires OnTrack(x) && t < Strips(x) && k < 2 * s && before == 2 * s * t
    ensures before + k < |PathFrom(s, x, up)|
    ensures PathFrom(s, x, up)[before + k] == StripAt(s, Column(x, t), (t % 2 == 0) == up, k)
    decreases if x > 0 then x else 0
  {
    hide Strip, StripAt, OnTrack, StripColumn, Column, Strips, PathFrom;
    OnePath(s, x, up);
    OneColumn(x, t);
    StripHas(s, StripColumn(x), up, k);
    var strip, rest := Strip(s, StripColumn(x), up), PathFrom(s, StripColumn(x) - 2, !up);
    if t > 0 {
      OneStripLess(s, t);
      Turned(t, up);
      TrackEnds(x);
      PathAt(s, StripColumn(x) - 2, !up, t - 1, k, before - 2 * s);
      assert (strip + rest)[before + k] == rest[before - 2 * s + k];
    } else {
      assert before == 0;
      assert (strip + rest)[k] == strip[k];
    }
  }

  lemma {:induction false} TrackEnds(x: int)
    requires Strips(x) > 0
    ensures x > 0 && StripColumn(x) - 2 < x
  {
  }

  lemma {:induction false} PathLength(s: nat, x: int, up: bool)
    requires OnTrack(x)
    ensures |PathFrom(s, x, up)| == 2 * s * Strips(x)
    decreases if x > 0 then x else 0
  {
    hide Strip;
    if x > 0 {
      OnePath(s, x, up);
      PathLength(s, StripColumn(x) - 2, !up);
      OneStripLess(s, Strips(x));
    } else {
      assert 2 * s * 0 == 0;
    }
  }

  /** Module `i` of the reading order: strip by strip from the right, the first one upwards, right column first. */
  function ZigZagAt(v: nat, i: nat): Cell {
    var s := Side(v);
    var t, k := i / (2 * s), i % (2 * s);
    var column := if s - 1 - 2 * t > 6 then s - 1 - 2 * t else s - 2 - 2 * t;
    (column - k % 2, if t % 2 == 0 then s - 1 - k / 2 else k / 2)
  }

  /** The reading order of a symbol: strips of two columns as high as the symbol, for all but the timing column. */
  function ZigZag(v: nat): (cells: seq<Cell>)
    ensures |cells| == Side(v) * (Side(v) - 1)
    ensures forall i :: 0 <= i < |cells| ==> cells[i] == ZigZagAt(v, i)
  {
    seq(Side(v) * (Side(v) - 1), i requires i >= 0 => ZigZagAt(v, i))
  }

  lemma {:induction false} StripsOfSide(v: nat)
    ensures Strips(Side(v) - 1) == 2 * v + 8
    ensures 2 * Side(v) * (2 * v + 8) == Side(v) * (Side(v) - 1)
  {
  }

  lemma {:induction false} StripOf(i: nat, t: nat, k: nat, height: nat, strips: nat)
    requires i < height * strips && i == height * t + k
    ensures t < strips
  {
    if t >= strips {
      MulMonotone(strips, t, height);
    }
  }

  lemma {:induction false} Divided(i: nat, height: nat)
    requires height > 0
    ensures i / height >= 0 && 0 <= i % height < height && i == height * (i / height) + i % height
  {
  }

  lemma {:induction false} ColumnIs(v: nat, t: nat)
    ensures var s := Side(v);
            Column(s - 1, t) == if s - 1 - 2 * t > 6 then s - 1 - 2 * t else s - 2 - 2 * t
  {
  }

  lemma {:induction false} ZigZagIs(v: nat, i: nat, t: nat, k: nat)
    requires t == i / (2 * Side(v)) && k == i % (2 * Side(v))
    ensures ZigZagAt(v, i) == StripAt(Side(v), Column(Side(v) - 1, t), t % 2 == 0, k)
  {
    hide Column;
    ColumnIs(v, t);
  }

  lemma {:induction false} PathPlace(v: nat, i: nat)
    requires i < Side(v) * (Side(v) - 1)
    ensures i < |Path(Side(v))| && Path(Side(v))[i] == ZigZagAt(v, i)
  {
    hide PathFrom, ZigZagAt, OnTrack, Strips, Column, StripAt;
    var s := Side(v);
    SideOnTrack(v);
    StripsOfSide(v);
    Divided(i, 2 * s);
    var t, k := i / (2 * s), i % (2 * s);
    StripOf(i, t, k, 2 * s, 2 * v + 8);
    ZigZagIs(v, i, t, k);
    PathAt(s, s - 1, true, t, k, 2 * s * t);
  }

  /** The scan follows that order. */
  lemma {:induction false} PathIsZigZag(v: nat)
    ensures Path(Side(v)) == ZigZag(v)
  {
    hide Path, ZigZagAt;
    PathAll(v);
    forall i: nat | i < |ZigZag(v)| ensures Path(Side(v))[i] == ZigZagAt(v, i) {
      PathPlace(v, i);
    }
  }

  lemma {:induction false} PathAll(v: nat)
    ensures |Path(Side(v))| == Side(v) * (Side(v) - 1)
  {
    hide PathFrom, OnTrack, Strips;
    SideOnTrack(v);
    StripsOfSide(v);
    PathLength(Side(v), Side(v) - 1, true);
  }

  /** The bits are those of the unmarked modules, in their order. */
  lemma {:induction false} BitAt(path: seq<Cell>, isFunction: Cell -> bool, bit: Cell -> bool, n: nat, free: set<nat>)
    requires n < |path| && !isFunction(path[n])
    requires forall j: nat :: j in free <==> j < n && !isFunction(path[j])
    ensures |free| < |Bits(path, isFunction, bit)| && Bits(path, isFunction, bit)[|free|] == bit(path[n])
    decreases |path|
  {
    var init := path[..|path| - 1];
    if n < |init| {
      BitAt(init, isFunction, bit, n, free);
    } else {
      FreeBits(init, isFunction, bit, free);
    }
  }

  lemma {:induction false} FreeBits(path: seq<Cell>, isFunction: Cell -> bool, bit: Cell -> bool, free: set<nat>)
    requires forall j: nat :: j in free <==> j < |path| && !isFunction(path[j])
    ensures |Bits(path, isFunction, bit)| == |free|
  {
    if |path| == 0 {
      assert free == {};
    } else {
      var n := |path| - 1;
      FreeBits(path[..n], isFunction, bit, free - {n});
    }
  }
}
