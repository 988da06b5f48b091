/** The release schedule of a supply contract (backend-rs/src/contract_renewal.rs:94-152). */
module Schedule {
  import opened Algebra
  import opened Wrappers
  import opened Sorting
  import opened Sums
  import opened Calendar

  // Quantities are reals; a split is made in units of the fourth decimal.

  const MAX_RELEASES := 2000
  const EPS := 0.000001

  datatype Kind = Explicit | Monthly | Weekly

  datatype Release = Release(sku: string, date: Day, quantity: real)

  datatype Line = Line(sku: string, totalQuantity: real)

  // ----- release dates

  /** The `k`-th call-off date, before looking at the period's end. */
  function DateAt(kind: Kind, start: Day, k: nat): Option<Day> {
    if kind == Monthly then AddMonths(start, k) else Some(PlusDays(start, 7 * k))
  }

  predicate Due(kind: Kind, start: Day, end: Day, k: nat) {
    DateAt(kind, start, k).Some? && Ordinal(DateAt(kind, start, k).value) <= Ordinal(end)
  }

  /** Every call-off date of the period up to the cap, in order. */
  ghost predicate AreDates(kind: Kind, start: Day, end: Day, dates: seq<Day>) {
    |dates| <= MAX_RELEASES + 1
    && (forall k: nat :: k < |dates| ==> Due(kind, start, end, k) && DateAt(kind, start, k) == Some(dates[k]))
    && (|dates| <= MAX_RELEASES ==> !Due(kind, start, end, |dates|))
  }

  lemma {:induction false} DatesIncrease(kind: Kind, start: Day, j: nat, k: nat)
    requires Stored(start) && j < k && DateAt(kind, start, k).Some?
    ensures DateAt(kind, start, j).Some?
    ensures Ordinal(DateAt(kind, start, j).value) < Ordinal(DateAt(kind, start, k).value)
  {
    if kind == Monthly {
      AddMonthsMeans(start, j);
      AddMonthsMeans(start, k);
      AddMonthsIncreases(start, j, k);
    } else {
      PlusDaysOrdinal(start, 7 * j);
      PlusDaysOrdinal(start, 7 * k);
    }
  }

  lemma {:induction false} NothingLater(kind: Kind, start: Day, end: Day, n: nat, k: nat)
    requires Stored(start) && n <= k && !Due(kind, start, end, n)
    ensures !Due(kind, start, end, k)
  {
    if n < k && Due(kind, start, end, k) {
      DatesIncrease(kind, start, n, k);
    }
  }

  lemma {:induction false} StartFirst(kind: Kind, start: Day)
    requires Stored(start)
    ensures DateAt(kind, start, 0) == Some(start)
  {
    if kind == Monthly {
      AddMonthsMeans(start, 0);
      LengthOf(start);
      SameMonthDay(AddMonths(start, 0).value, start);
    }
  }

  /**
  Strictly increasing, inside the period, starting on the start date, and holding every
  call-off date of the period up to the cap.
  */
  lemma {:induction false} DatesComplete(kind: Kind, start: Day, end: Day, out: seq<Day>)
    requires Stored(start)
    requires AreDates(kind, start, end, out)
    ensures forall i, j :: 0 <= i < j < |out| ==> Ordinal(out[i]) < Ordinal(out[j])
    ensures forall i :: 0 <= i < |out| ==> Ordinal(start) <= Ordinal(out[i]) <= Ordinal(end)
    ensures forall k: nat :: k <= MAX_RELEASES && Due(kind, start, end, k) ==>
      k < |out| && out[k] == DateAt(kind, start, k).value
    ensures |out| > 0 <==> Ordinal(start) <= Ordinal(end)
  {
    hide DateAt;
    StartFirst(kind, start);
    forall i: nat, j: nat | i < j < |out| ensures Ordinal(out[i]) < Ordinal(out[j]) {
      DatesIncrease(kind, start, i, j);
    }
    forall k: nat | k <= MAX_RELEASES && Due(kind, start, end, k) ensures k < |out| {
      if k >= |out| {
        NothingLater(kind, start, end, |out|, k);
      }
    }
    if |out| > 0 {
      assert Due(kind, start, end, 0);
    }
  }

  /** Monthly dates: the `k`-th is `k` months on, on the start day or the last day of a shorter month. */
  lemma {:induction false} MonthlyDates(start: Day, end: Day, out: seq<Day>)
    requires Stored(start) && AreDates(Monthly, start, end, out)
    ensures forall k: nat :: k < |out| ==>
      out[k].MonthIndex() == start.MonthIndex() + k && out[k].day == Min(start.day, Length(start.MonthIndex() + k))
  {
    hide AddMonths;
    forall k: nat | k < |out|
      ensures out[k].MonthIndex() == start.MonthIndex() + k
           && out[k].day == Min(start.day, Length(start.MonthIndex() + k))
    {
      assert DateAt(Monthly, start, k) == Some(out[k]);
      AddMonthsMeans(start, k);
    }
  }

  /** And every such day of the period, up to the cap, is among them. */
  lemma {:induction false} MonthlyComplete(start: Day, end: Day, out: seq<Day>, k: nat, d: Day)
    requires Stored(start) && Stored(end) && AreDates(Monthly, start, end, out) && k <= 2000
    requires d.MonthIndex() == start.MonthIndex() + k && d.day == Min(start.day, Length(start.MonthIndex() + k))
    requires Ordinal(d) <= Ordinal(end)
    ensures k < |out| && out[k] == d
  {
    hide AddMonths, Length, Ordinal;
    OrdinalOrder(end, d);
    AddMonthsMeans(start, k);
    SameMonthDay(AddMonths(start, k).value, d);
    assert Due(Monthly, start, end, k);
    DatesComplete(Monthly, start, end, out);
  }

  /** Weekly dates: seven days apart. */
  lemma {:induction false} WeeklyDates(start: Day, end: Day, out: seq<Day>)
    requires Stored(start) && AreDates(Weekly, start, end, out)
    ensures forall k: nat :: k < |out| ==> Ordinal(out[k]) == Ordinal(start) + 7 * k
  {
    hide PlusDays, Ordinal;
    forall k: nat | k < |out| ensures Ordinal(out[k]) == Ordinal(start) + 7 * k {
      assert DateAt(Weekly, start, k) == Some(out[k]);
      PlusDaysOrdinal(start, 7 * k);
    }
  }

  lemma {:induction false} WeeklyComplete(start: Day, end: Day, out: seq<Day>, k: nat, d: Day)
    requires Stored(start) && AreDates(Weekly, start, end, out) && k <= 2000
    requires Ordinal(d) == Ordinal(start) + 7 * k && Ordinal(d) <= Ordinal(end)
    ensures k < |out| && out[k] == d
  {
    hide PlusDays, Ordinal;
    PlusDaysOrdinal(start, 7 * k);
    OrdinalOrder(PlusDays(start, 7 * k), d);
    assert Due(Weekly, start, end, k);
    DatesComplete(Weekly, start, end, out);
  }

  method ReleaseDates(kind: Kind, start: Day, end: Day) returns (out: seq<Day>)
    ensures AreDates(kind, start, end, out)
  {
    hide DateAt, Ordinal;
    out := [];
    var k := 0;
    while true
      invariant |out| == k <= MAX_RELEASES
      invariant forall j: nat :: j < k ==> Due(kind, start, end, j) && DateAt(kind, start, j) == Some(out[j])
      decreases MAX_RELEASES - k
    {
      var d := DateAt(kind, start, k);
      if d.None? || Ordinal(d.value) > Ordinal(end) {
        return;
      }
      out := out + [d.value];
      k := k + 1;
      if |out| > MAX_RELEASES {
        return;
      }
    }
  }

  // ----- splitting a total

  /** Nearest integer, halves away from zero (`f64::round`). */
  function Nearest(x: real): int {
    if x >= 0.0 then (x + 0.5).Floor else -((-x + 0.5).Floor)
  }

  /** Nearest integer, halves to even. */
  function HalfEven(x: real): int {
    var f := x.Floor;
    var rest := x - f as real;
    if rest < 0.5 || (rest == 0.5 && f % 2 == 0) then f else f + 1
  }

  /** `round_nd(x, 4)` on the exact value. */
  function Round4(x: real): real {
    HalfEven(x * 10000.0) as real / 10000.0
  }

  predicate IsWhole(total: real) {
    var gap := total - Nearest(total) as real;
    -EPS < gap < EPS
  }

  /** The share of every release but the last when the total is not whole. */
  function Share(total: real, n: nat): real
    requires n > 0
  {
    (total / n as real * 10000.0).Floor as real / 10000.0
  }

  /** The last release absorbs the rounding. */
  function LastShare(total: real, n: nat): real
    requires n > 0
  {
    Round4(total - Share(total, n) * (n as real - 1.0))
  }

  function SplitEvenly(total: real, n: nat): (parts: seq<real>)
    ensures |parts| == n
  {
    if n == 0 then []
    else if IsWhole(total) then
      var t := Nearest(total);
      seq(n, i requires 0 <= i < n => (t / n + (if i < t % n then 1 else 0)) as real)
    else
      seq(n, i requires 0 <= i < n => if i < n - 1 then Share(total, n) else LastShare(total, n))
  }

  ghost function Total(parts: seq<real>): real {
    SumBy(parts, (x: real) => x)
  }

  /** Whether a quantity has at most four decimals. */
  ghost predicate FourDecimals(x: real) {
    (x * 10000.0).Floor as real == x * 10000.0
  }

  lemma {:induction false} WholeSum(base: int, rem: nat, n: nat)
    ensures Total(seq(n, i requires 0 <= i < n => (base + (if i < rem then 1 else 0)) as real))
         == (base * n + (if rem < n then rem else n)) as real
  {
    var parts := seq(n, i requires 0 <= i < n => (base + (if i < rem then 1 else 0)) as real);
    if n > 0 {
      WholeSum(base, rem, n - 1);
      assert parts[..n - 1] == seq(n - 1, i requires 0 <= i < n - 1 => (base + (if i < rem then 1 else 0)) as real);
      assert base * n == base * (n - 1) + base;
    } else {
      assert base * n == 0;
    }
  }

  lemma {:induction false} ConstantSum(x: real, n: nat)
    ensures Total(seq(n, i requires 0 <= i < n => x)) == x * n as real
  {
    if n > 0 {
      var parts := seq(n, i requires 0 <= i < n => x);
      ConstantSum(x, n - 1);
      assert parts[..n - 1] == seq(n - 1, i requires 0 <= i < n - 1 => x);
      assert x * (n - 1) as real + x == x * n as real;
    } else {
      assert x * n as real == 0.0;
    }
  }

  lemma {:induction false} HalfEvenNear(z: real)
    ensures -0.5 <= HalfEven(z) as real - z <= 0.5
    ensures z.Floor as real == z ==> HalfEven(z) as real == z
    ensures z >= 0.0 ==> HalfEven(z) >= 0
  {
  }

  lemma {:induction false} WholeTotal(total: real, n: nat)
    requires n > 0 && IsWhole(total)
    ensures Total(SplitEvenly(total, n)) == Nearest(total) as real
  {
    var t := Nearest(total);
    WholeSum(t / n, t % n, n);
    assert t == (t / n) * n + t % n;
    assert SplitEvenly(total, n)
        == seq(n, i requires 0 <= i < n => (t / n + (if i < t % n then 1 else 0)) as real);
  }

  lemma {:induction false} WholeExact(total: real)
    requires IsWhole(total) && FourDecimals(total)
    ensures Nearest(total) as real == total
  {
    var t := Nearest(total);
    assert (total * 10000.0).Floor == 10000 * t;
  }

  /** The share in units of the fourth decimal, and what is left for the last release. */
  lemma {:induction false} ShareUnits(total: real, n: nat)
    requires n > 0
    ensures var units := (total / n as real * 10000.0).Floor * (n - 1);
            Share(total, n) * (n as real - 1.0) == units as real / 10000.0
  {
    var u, k := (total / n as real * 10000.0).Floor, n - 1;
    assert k as real == n as real - 1.0;
    assert (u as real / 10000.0) * k as real == (u as real * k as real) / 10000.0;
    assert u as real * k as real == (u * k) as real;
  }

  lemma {:induction false} FractionTotal(total: real, n: nat)
    requires n > 0 && !IsWhole(total)
    ensures Total(SplitEvenly(total, n)) == Share(total, n) * (n as real - 1.0) + LastShare(total, n)
  {
    hide Share, LastShare, IsWhole;
    var share := Share(total, n);
    var parts := SplitEvenly(total, n);
    ConstantSum(share, n - 1);
    assert parts[..n - 1] == seq(n - 1, i requires 0 <= i < n - 1 => share);
    SumOne(parts[..n - 1], LastShare(total, n), (x: real) => x);
    assert parts == parts[..n - 1] + [LastShare(total, n)];
    assert (n - 1) as real == n as real - 1.0;
  }

  lemma {:induction false} ShiftedHalfEven(y: real, units: int, z: real)
    requires z == y - units as real
    ensures -0.5 <= units as real + HalfEven(z) as real - y <= 0.5
    ensures y.Floor as real == y ==> units as real + HalfEven(z) as real == y
  {
    HalfEvenNear(z);
    if y.Floor as real == y {
      assert z == (y.Floor - units) as real;
    }
  }

  lemma {:induction false} RoundedRest(total: real, units: int)
    ensures var sum := units as real / 10000.0 + Round4(total - units as real / 10000.0);
            -0.00005 <= sum - total <= 0.00005 && (FourDecimals(total) ==> sum == total)
  {
    hide HalfEven;
    ShiftedHalfEven(total * 10000.0, units, (total - units as real / 10000.0) * 10000.0);
  }

  /** The parts add up to the total: exactly at four decimals, otherwise to within half a unit of the fourth. */
  lemma {:induction false} SplitConserves(total: real, n: nat)
    requires n > 0
    ensures -0.00005 <= Total(SplitEvenly(total, n)) - total <= 0.00005
    ensures FourDecimals(total) ==> Total(SplitEvenly(total, n)) == total
  {
    hide SplitEvenly, Total, Nearest, Share, Round4, FourDecimals;
    if IsWhole(total) {
      WholeTotal(total, n);
      if FourDecimals(total) {
        WholeExact(total);
      }
    } else {
      FractionTotal(total, n);
      ShareUnits(total, n);
      RoundedRest(total, (total / n as real * 10000.0).Floor * (n - 1));
    }
  }

  lemma {:induction false} UnitsAreFour(units: int)
    ensures FourDecimals(units as real / 10000.0)
  {
  }

  /** Whatever the total, the parts add up to a number of four decimals. */
  lemma {:induction false} SplitHasFourDecimals(total: real, n: nat)
    requires n > 0
    ensures FourDecimals(Total(SplitEvenly(total, n)))
  {
    hide SplitEvenly, Total, Nearest, Share, HalfEven, FourDecimals;
    if IsWhole(total) {
      WholeTotal(total, n);
      UnitsAreFour(Nearest(total) * 10000);
    } else {
      FractionTotal(total, n);
      ShareUnits(total, n);
      var units := (total / n as real * 10000.0).Floor * (n - 1);
      UnitsAreFour(units + HalfEven((total - units as real / 10000.0) * 10000.0));
    }
  }

  /** A whole total stays in whole parts that differ by at most one, larger ones first. */
  lemma {:induction false} WholePartsAreEven(total: real, n: nat, i: nat, j: nat)
    requires IsWhole(total) && i <= j < n
    ensures var parts := SplitEvenly(total, n);
            parts[i].Floor as real == parts[i] && parts[j] <= parts[i] <= parts[j] + 1.0
  {
  }

  /** A total counts as whole near a whole number, and is then split as that number. */
  lemma {:induction false} WholeNear(total: real, k: int)
    ensures -EPS < total - k as real < EPS ==> IsWhole(total) && Nearest(total) == k
    ensures IsWhole(total) && Nearest(total) == k ==> -EPS < total - k as real < EPS
  {
  }

  /** Otherwise all parts but the last are the share of a release, cut off after four decimals. */
  lemma {:induction false} FractionPartsAreEven(total: real, n: nat, i: nat)
    requires !IsWhole(total) && i + 1 < n
    ensures var part := SplitEvenly(total, n)[i];
            FourDecimals(part) && part <= total / n as real < part + 0.0001
  {
    hide IsWhole, FourDecimals;
    assert SplitEvenly(total, n)[i] == Share(total, n);
    UnitsAreFour((total / n as real * 10000.0).Floor);
    CutOff(total / n as real);
  }

  lemma {:induction false} CutOff(q: real)
    ensures var part := (q * 10000.0).Floor as real / 10000.0; part <= q < part + 0.0001
  {
  }

  lemma {:induction false} QuotientBound(total: real, n: nat)
    requires n > 0 && total >= 0.0
    ensures 0.0 <= Share(total, n) && Share(total, n) * (n as real - 1.0) <= total
  {
    var q, share := total / n as real, Share(total, n);
    QuotientTimes(total, n as real);
    ShareBelow(q);
    RealMulMonotone(share, q, n as real - 1.0);
    RealMulMonotone(n as real - 1.0, n as real, q);
  }

  lemma {:induction false} ShareBelow(q: real)
    requires q >= 0.0
    ensures 0.0 <= (q * 10000.0).Floor as real / 10000.0 <= q
  {
  }

  lemma {:induction false} Round4NonNegative(x: real)
    requires x >= 0.0
    ensures Round4(x) >= 0.0
  {
    HalfEvenNear(x * 10000.0);
  }

  lemma {:induction false} LastShareNonNegative(total: real, n: nat)
    requires n > 0 && total >= 0.0
    ensures LastShare(total, n) >= 0.0
  {
    hide Share, Round4;
    QuotientBound(total, n);
    var rest := total - Share(total, n) * (n as real - 1.0);
    Round4NonNegative(rest);
    assert LastShare(total, n) == Round4(rest);
  }

  lemma {:induction false} PartsNonNegative(total: real, n: nat)
    requires n > 0 && total >= 0.0
    ensures forall i :: 0 <= i < n ==> SplitEvenly(total, n)[i] >= 0.0
  {
    if IsWhole(total) {
      QuotientNonNegative(Nearest(total), n);
    } else {
      hide Share, LastShare, IsWhole;
      QuotientBound(total, n);
      LastShareNonNegative(total, n);
    }
  }

  // ----- expanding a schedule

  /** One line's releases: a release of nothing is left out. */
  function Emitted(sku: string, dates: seq<Day>, parts: seq<real>): seq<Release>
    requires |parts| == |dates|
  {
    if |dates| == 0 then []
    else
      var n := |dates| - 1;
      Emitted(sku, dates[..n], parts[..n]) + (if parts[n] > 0.0 then [Release(sku, dates[n], parts[n])] else [])
  }

  function EvenReleases(lines: seq<Line>, dates: seq<Day>): seq<Release>
  {
    if |lines| == 0 then []
    else
      var l := lines[|lines| - 1];
      EvenReleases(lines[..|lines| - 1], dates) + Emitted(l.sku, dates, SplitEvenly(l.totalQuantity, |dates|))
  }

  predicate ReleaseLeq(a: Release, b: Release) {
    Before(a.date, b.date) || (a.date == b.date && StringLeq(a.sku, b.sku))
  }

  lemma {:induction false} ReleaseOrder()
    ensures TotalPreorder(ReleaseLeq)
  {
    StringOrder();
    forall a, b ensures ReleaseLeq(a, b) || ReleaseLeq(b, a) {
      OrdinalOrder(a.date, b.date);
      OrdinalOrder(b.date, a.date);
    }
  }

  method EmitLine(line: Line, dates: seq<Day>) returns (emitted: seq<Release>)
    ensures emitted == Emitted(line.sku, dates, SplitEvenly(line.totalQuantity, |dates|))
  {
    hide SplitEvenly;
    var parts := SplitEvenly(line.totalQuantity, |dates|);
    emitted := [];
    var k := 0;
    while k < |dates|
      invariant 0 <= k <= |dates|
      invariant emitted == Emitted(line.sku, dates[..k], parts[..k])
    {
      assert dates[..k + 1][..k] == dates[..k] && parts[..k + 1][..k] == parts[..k];
      if parts[k] > 0.0 {
        emitted := emitted + [Release(line.sku, dates[k], parts[k])];
      }
      k := k + 1;
    }
    assert dates[..k] == dates && parts[..k] == parts;
  }

  method ExpandReleases(kind: Kind, start: Day, end: Day, lines: seq<Line>, explicit: seq<Release>)
    returns (out: seq<Release>, ghost dates: seq<Day>)
    ensures SortedBy(out, ReleaseLeq)
    ensures kind == Explicit ==> multiset(out) == multiset(explicit)
    ensures kind != Explicit ==>
      AreDates(kind, start, end, dates) && multiset(out) == multiset(EvenReleases(lines, dates))
  {
    hide Emitted, SplitEvenly, Due, DateAt, Sort, ReleaseLeq;
    out := [];
    dates := [];
    if kind == Explicit {
      out := explicit;
    } else {
      var ds := ReleaseDates(kind, start, end);
      dates := ds;
      var i := 0;
      while i < |lines|
        invariant 0 <= i <= |lines|
        invariant out == EvenReleases(lines[..i], ds)
      {
        var emitted := EmitLine(lines[i], ds);
        assert lines[..i + 1][..i] == lines[..i];
        out := out + emitted;
        i := i + 1;
      }
      assert lines[..i] == lines;
    }
    ReleaseOrder();
    SortSorted(out, ReleaseLeq);
    out := Sort(out, ReleaseLeq);
  }

  // ----- conservation

  ghost function Quantity(sku: string): Release -> real {
    (r: Release) => if r.sku == sku then r.quantity else 0.0
  }

  ghost function Ordered(sku: string): Line -> real {
    (l: Line) => if l.sku == sku then l.totalQuantity else 0.0
  }

  ghost function QuantityOf(releases: seq<Release>, sku: string): real {
    SumBy(releases, Quantity(sku))
  }

  ghost function OrderedOf(lines: seq<Line>, sku: string): real {
    SumBy(lines, Ordered(sku))
  }

  lemma {:induction false} QuantityMeans(sku: string)
    ensures forall r: Release :: Quantity(sku)(r) == if r.sku == sku then r.quantity else 0.0
  {
  }

  lemma {:induction false} TotalStep(parts: seq<real>)
    ensures |parts| == 0 ==> Total(parts) == 0.0
    ensures |parts| > 0 ==> Total(parts) == Total(parts[..|parts| - 1]) + parts[|parts| - 1]
  {
  }

  lemma {:induction false} EmittedStep(sku: string, dates: seq<Day>, parts: seq<real>)
    requires |parts| == |dates| > 0
    ensures var n := |dates| - 1; var init := Emitted(sku, dates[..n], parts[..n]);
            Emitted(sku, dates, parts) == if parts[n] > 0.0 then init + [Release(sku, dates[n], parts[n])] else init
  {
    var n := |dates| - 1;
    assert Emitted(sku, dates[..n], parts[..n]) + [] == Emitted(sku, dates[..n], parts[..n]);
  }

  lemma {:induction false} EmittedSum(sku: string, dates: seq<Day>, parts: seq<real>, key: string)
    requires |parts| == |dates| && forall i :: 0 <= i < |parts| ==> parts[i] >= 0.0
    ensures QuantityOf(Emitted(sku, dates, parts), key) == if sku == key then Total(parts) else 0.0
  {
    hide Quantity, Total;
    QuantityMeans(key);
    TotalStep(parts);
    if |dates| > 0 {
      var n := |dates| - 1;
      EmittedSum(sku, dates[..n], parts[..n], key);
      EmittedStep(sku, dates, parts);
      SumOne(Emitted(sku, dates[..n], parts[..n]), Release(sku, dates[n], parts[n]), Quantity(key));
    }
  }

  /** A line's releases are its positive parts, each on its own date. */
  lemma {:induction false} EmittedExactly(sku: string, dates: seq<Day>, parts: seq<real>, r: Release)
    requires |parts| == |dates|
    ensures r in Emitted(sku, dates, parts)
       <==> r.sku == sku && r.quantity > 0.0
            && exists i :: 0 <= i < |dates| && dates[i] == r.date && parts[i] == r.quantity
  {
    if |dates| > 0 {
      hide Emitted;
      var n := |dates| - 1;
      EmittedExactly(sku, dates[..n], parts[..n], r);
      EmittedStep(sku, dates, parts);
      assert r in Emitted(sku, dates[..n], parts[..n]) ==> dates[..n] + [dates[n]] == dates;
    }
  }

  lemma {:induction false} EvenReleasesExactly(lines: seq<Line>, dates: seq<Day>, r: Release)
    ensures r in EvenReleases(lines, dates)
       <==> exists i :: 0 <= i < |lines|
                        && r in Emitted(lines[i].sku, dates, SplitEvenly(lines[i].totalQuantity, |dates|))
  {
    hide Emitted, SplitEvenly;
    if |lines| > 0 {
      EvenReleasesExactly(lines[..|lines| - 1], dates, r);
    }
  }

  /** The schedule runs by date, and on one date by product. */
  lemma {:induction false} ScheduleOrder(out: seq<Release>, i: nat, j: nat)
    requires SortedBy(out, ReleaseLeq) && i < j < |out|
    ensures Ordinal(out[i].date) <= Ordinal(out[j].date)
    ensures Ordinal(out[i].date) == Ordinal(out[j].date) ==>
      out[i].date == out[j].date && StringLeq(out[i].sku, out[j].sku)
  {
    hide Ordinal, StringLeq;
    assert ReleaseLeq(out[i], out[j]);
    OrdinalOrder(out[i].date, out[j].date);
    OrdinalOrder(out[j].date, out[i].date);
  }

  lemma {:induction false} EmittedPositive(sku: string, dates: seq<Day>, parts: seq<real>)
    requires |parts| == |dates|
    ensures forall i :: 0 <= i < |Emitted(sku, dates, parts)| ==> Emitted(sku, dates, parts)[i].quantity > 0.0
  {
    if |dates| > 0 {
      hide Emitted;
      var n := |dates| - 1;
      EmittedPositive(sku, dates[..n], parts[..n]);
      EmittedStep(sku, dates, parts);
    }
  }

  lemma {:induction false} EmittedNotNegative(sku: string, dates: seq<Day>, parts: seq<real>)
    requires |parts| == |dates|
    ensures QuantityOf(Emitted(sku, dates, parts), sku) >= 0.0
  {
    hide Emitted, Quantity;
    EmittedPositive(sku, dates, parts);
    QuantityMeans(sku);
    PositiveSum(Emitted(sku, dates, parts), sku);
  }

  lemma {:induction false} PositiveSum(rs: seq<Release>, sku: string)
    requires forall i :: 0 <= i < |rs| ==> rs[i].quantity > 0.0
    ensures QuantityOf(rs, sku) >= 0.0
  {
    QuantityMeans(sku);
    if |rs| > 0 {
      hide Quantity;
      var n := |rs| - 1;
      PositiveSum(rs[..n], sku);
      assert rs[..n] + [rs[n]] == rs;
      SumOne(rs[..n], rs[n], Quantity(sku));
    }
  }

  /**
  With at least one date a line's releases add up to its total exactly when that is not
  negative and has at most four decimals.
  */
  lemma {:induction false} LineConserves(line: Line, dates: seq<Day>)
    requires |dates| > 0
    ensures QuantityOf(Emitted(line.sku, dates, SplitEvenly(line.totalQuantity, |dates|)), line.sku)
            == line.totalQuantity
       <==> line.totalQuantity >= 0.0 && FourDecimals(line.totalQuantity)
  {
    hide SplitEvenly, FourDecimals, Emitted, QuantityOf;
    var parts := SplitEvenly(line.totalQuantity, |dates|);
    if line.totalQuantity >= 0.0 {
      PartsNonNegative(line.totalQuantity, |dates|);
      SplitConserves(line.totalQuantity, |dates|);
      SplitHasFourDecimals(line.totalQuantity, |dates|);
      EmittedSum(line.sku, dates, parts, line.sku);
    } else {
      EmittedNotNegative(line.sku, dates, parts);
    }
  }

  lemma {:induction false} FineShare()
    ensures !IsWhole(0.00001) && LastShare(0.00001, 1) == 0.0
  {
    var share := Share(0.00001, 1);
    assert share * (1.0 - 1.0) == 0.0;
    assert HalfEven(0.1) == 0;
  }

  /** A total below half a unit of the fourth decimal is not kept at all: its one part rounds to nothing. */
  lemma {:induction false} FineTotalWitness(date: Day)
    ensures SplitEvenly(0.00001, 1) == [0.0]
    ensures Emitted("A", [date], SplitEvenly(0.00001, 1)) == []
    ensures QuantityOf(Emitted("A", [date], SplitEvenly(0.00001, 1)), "A") == 0.0
  {
    hide Emitted, Quantity;
    var parts := SplitEvenly(0.00001, 1);
    FineShare();
    assert parts == [0.0];
    EmittedStep("A", [date], parts);
    NothingEmitted("A");
    assert [date][..0] == [] && parts[..0] == [];
  }

  lemma {:induction false} NothingEmitted(sku: string)
    ensures Emitted(sku, [], []) == [] && QuantityOf([], sku) == 0.0
  {
  }

  /** Lines of a product whose total has more than four decimals. */
  ghost function FineLinesOf(lines: seq<Line>, sku: string): nat
  {
    if |lines| == 0 then 0
    else
      var l := lines[|lines| - 1];
      FineLinesOf(lines[..|lines| - 1], sku) + (if l.sku == sku && !FourDecimals(l.totalQuantity) then 1 else 0)
  }

  /** `x` and `y` differ by at most half a unit of the fourth decimal for each of `n` lines. */
  ghost predicate HalfUnits(x: real, y: real, n: nat) {
    -0.00005 * n as real <= x - y <= 0.00005 * n as real
  }

  lemma {:induction false} OneMoreUnit(x: real, y: real, n: nat, part: real, total: real, fine: bool)
    requires HalfUnits(x, y, n) && -0.00005 <= part - total <= 0.00005 && (!fine ==> part == total)
    ensures HalfUnits(x + part, y + total, n + if fine then 1 else 0)
  {
  }

  lemma {:induction false} EvenReleasesConserve(lines: seq<Line>, dates: seq<Day>, sku: string)
    requires |dates| > 0
    requires forall i :: 0 <= i < |lines| ==> lines[i].totalQuantity >= 0.0
    ensures HalfUnits(QuantityOf(EvenReleases(lines, dates), sku), OrderedOf(lines, sku), FineLinesOf(lines, sku))
  {
    hide SplitEvenly, FourDecimals, Emitted, HalfUnits;
    if |lines| > 0 {
      var n := |lines| - 1;
      var l := lines[n];
      var parts := SplitEvenly(l.totalQuantity, |dates|);
      EvenReleasesConserve(lines[..n], dates, sku);
      PartsNonNegative(l.totalQuantity, |dates|);
      SplitConserves(l.totalQuantity, |dates|);
      EmittedSum(l.sku, dates, parts, sku);
      SumAppend(EvenReleases(lines[..n], dates), Emitted(l.sku, dates, parts), Quantity(sku));
      var part, total := if l.sku == sku then Total(parts) else 0.0, if l.sku == sku then l.totalQuantity else 0.0;
      OneMoreUnit(QuantityOf(EvenReleases(lines[..n], dates), sku), OrderedOf(lines[..n], sku),
                  FineLinesOf(lines[..n], sku), part, total, l.sku == sku && !FourDecimals(l.totalQuantity));
    } else {
      NoUnits();
    }
  }

  lemma {:induction false} NoUnits()
    ensures HalfUnits(0.0, 0.0, 0)
  {
  }

  lemma {:induction false} EvenReleasesPositive(lines: seq<Line>, dates: seq<Day>)
    ensures forall i :: 0 <= i < |EvenReleases(lines, dates)| ==> EvenReleases(lines, dates)[i].quantity > 0.0
  {
    if |lines| > 0 {
      var l := lines[|lines| - 1];
      EvenReleasesPositive(lines[..|lines| - 1], dates);
      EmittedPositive(l.sku, dates, SplitEvenly(l.totalQuantity, |dates|));
    }
  }

  /**
  Conservation: for every product the emitted releases add up to what was ordered, to within half
  a unit of the fourth decimal for each of its lines that has more than four, and none is empty.
  */
  lemma {:induction false} ScheduleConserves(lines: seq<Line>, dates: seq<Day>, out: seq<Release>, sku: string)
    requires |dates| > 0 && multiset(out) == multiset(EvenReleases(lines, dates))
    requires forall i :: 0 <= i < |lines| ==> lines[i].totalQuantity >= 0.0
    ensures HalfUnits(QuantityOf(out, sku), OrderedOf(lines, sku), FineLinesOf(lines, sku))
    ensures (forall i :: 0 <= i < |lines| && lines[i].sku == sku ==> FourDecimals(lines[i].totalQuantity)) ==>
      QuantityOf(out, sku) == OrderedOf(lines, sku)
    ensures forall i :: 0 <= i < |out| ==> out[i].quantity > 0.0
  {
    hide FourDecimals;
    EvenReleasesConserve(lines, dates, sku);
    SumIgnoresOrder(out, EvenReleases(lines, dates), Quantity(sku));
    if forall i :: 0 <= i < |lines| && lines[i].sku == sku ==> FourDecimals(lines[i].totalQuantity) {
      NoFineLines(lines, sku);
    }
    EvenReleasesPositive(lines, dates);
    SameElements(out, EvenReleases(lines, dates));
    forall i | 0 <= i < |out| ensures out[i].quantity > 0.0 {
      assert out[i] in EvenReleases(lines, dates);
    }
  }

  lemma {:induction false} NoFineLines(lines: seq<Line>, sku: string)
    requires forall i :: 0 <= i < |lines| && lines[i].sku == sku ==> FourDecimals(lines[i].totalQuantity)
    ensures FineLinesOf(lines, sku) == 0
  {
    hide FourDecimals;
    if |lines| > 0 {
      NoFineLines(lines[..|lines| - 1], sku);
    }
  }
}
