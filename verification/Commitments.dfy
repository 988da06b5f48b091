/**
Committed against delivered (backend-rs/src/contract_renewal.rs,
`commitment_comparison`): one pass over each list with running maps, equal to
declarative sums.
*/
module Commitments {
  import opened Wrappers
  import opened Algebra
  import opened Sorting
  import opened Sums
  import opened Calendar
  import opened Schedule

  datatype Commitment =
    Commitment(sku: string, releaseDate: Option<Day>, quantity: real, status: string, fulfilledOn: Option<Day>)

  datatype LineFigures =
    LineFigures(sku: string, committed: real, due: real, delivered: real, lateDeliveries: int, lateUnits: real)

  /** The figures before they are rounded for the report. */
  datatype Figures =
    Figures(committed: real, due: real, delivered: real, remaining: real, shortfall: real,
            lateDeliveries: int, lateUnits: real, maxDaysLate: int, undated: int,
            overdue: int, overdueUnits: real, lines: seq<LineFigures>)

  // ----- measures on releases

  ghost function SkuOf(): Release -> string {
    (r: Release) => r.sku
  }

  ghost function Amount(): Release -> real {
    (r: Release) => r.quantity
  }

  ghost function DueAmount(today: Day): Release -> real {
    (r: Release) => if Ordinal(r.date) <= Ordinal(today) then r.quantity else 0.0
  }

  /** The last commitment row for a product on a release date. */
  function LastRow(rows: seq<Commitment>, sku: string, date: Day): Option<Commitment>
  {
    if |rows| == 0 then None
    else
      var last := rows[|rows| - 1];
      if last.sku == sku && last.releaseDate == Some(date) then Some(last) else LastRow(rows[..|rows| - 1], sku, date)
  }

  /** A past release whose last row is open or missing. */
  predicate IsOverdue(rows: seq<Commitment>, today: Day, r: Release) {
    Ordinal(r.date) < Ordinal(today)
    && (LastRow(rows, r.sku, r.date).None? || LastRow(rows, r.sku, r.date).value.status in {"open", "missing"})
  }

  lemma {:induction false} LastRowIs(rows: seq<Commitment>, sku: string, date: Day, i: nat)
    requires i < |rows| && rows[i].sku == sku && rows[i].releaseDate == Some(date)
    requires forall j :: i < j < |rows| ==> rows[j].sku != sku || rows[j].releaseDate != Some(date)
    ensures LastRow(rows, sku, date) == Some(rows[i])
    decreases |rows|
  {
    if i < |rows| - 1 {
      LastRowIs(rows[..|rows| - 1], sku, date, i);
    }
  }

  lemma {:induction false} NoRow(rows: seq<Commitment>, sku: string, date: Day)
    requires forall j :: 0 <= j < |rows| ==> rows[j].sku != sku || rows[j].releaseDate != Some(date)
    ensures LastRow(rows, sku, date) == None
  {
    if |rows| > 0 {
      NoRow(rows[..|rows| - 1], sku, date);
    }
  }

  ghost function OverdueCount(rows: seq<Commitment>, today: Day): Release -> real {
    (r: Release) => if IsOverdue(rows, today, r) then 1.0 else 0.0
  }

  ghost function OverdueAmount(rows: seq<Commitment>, today: Day): Release -> real {
    (r: Release) => if IsOverdue(rows, today, r) then r.quantity else 0.0
  }

  // ----- measures on commitments

  ghost function RowSku(): Commitment -> string {
    (c: Commitment) => c.sku
  }

  /** A fulfilled row of a product that has releases. */
  predicate Counts(scheduled: set<string>, c: Commitment) {
    c.status == "fulfilled" && c.sku in scheduled
  }

  /** Days between the release date and the day it was marked fulfilled, when both are known and it was late. */
  function DaysLate(c: Commitment): int {
    if c.releaseDate.Some? && c.fulfilledOn.Some? && Ordinal(c.fulfilledOn.value) > Ordinal(c.releaseDate.value)
    then DaysBetween(c.fulfilledOn.value, c.releaseDate.value) else 0
  }

  predicate IsUndated(c: Commitment) {
    c.releaseDate.Some? && c.fulfilledOn.None?
  }

  ghost function DeliveredAmount(scheduled: set<string>): Commitment -> real {
    (c: Commitment) => if Counts(scheduled, c) then c.quantity else 0.0
  }

  ghost function LateCount(scheduled: set<string>): Commitment -> real {
    (c: Commitment) => if Counts(scheduled, c) && DaysLate(c) > 0 then 1.0 else 0.0
  }

  ghost function LateAmount(scheduled: set<string>): Commitment -> real {
    (c: Commitment) => if Counts(scheduled, c) && DaysLate(c) > 0 then c.quantity else 0.0
  }

  ghost function UndatedCount(scheduled: set<string>): Commitment -> real {
    (c: Commitment) => if Counts(scheduled, c) && IsUndated(c) then 1.0 else 0.0
  }

  // ----- running maps

  function Get(m: map<string, real>, k: string): real {
    if k in m then m[k] else 0.0
  }

  function Add(m: map<string, real>, k: string, x: real): map<string, real> {
    m[k := Get(m, k) + x]
  }

  ghost predicate Tracks<T>(m: map<string, real>, s: seq<T>, f: T -> real, key: T -> string) {
    forall k :: Get(m, k) == SumFor(s, f, key, k)
  }

  lemma {:induction false} TrackStep<T>(m: map<string, real>, s: seq<T>, x: T, f: T -> real, key: T -> string)
    requires Tracks(m, s, f, key)
    ensures Tracks(Add(m, key(x), f(x)), s + [x], f, key)
    ensures f(x) == 0.0 ==> Tracks(m, s + [x], f, key)
  {
    forall k ensures Get(Add(m, key(x), f(x)), k) == SumFor(s + [x], f, key, k) {
      SumForOne(s, x, f, key, k);
    }
    if f(x) == 0.0 {
      forall k ensures Get(m, k) == SumFor(s + [x], f, key, k) {
        SumForOne(s, x, f, key, k);
      }
    }
  }

  // ----- counters

  function CountOf(m: map<string, int>, k: string): int {
    if k in m then m[k] else 0
  }

  function AddOne(m: map<string, int>, k: string): map<string, int> {
    m[k := CountOf(m, k) + 1]
  }

  ghost function AsReals(m: map<string, int>): map<string, real> {
    map k | k in m :: m[k] as real
  }

  lemma {:induction false} CounterStep(m: map<string, int>, k: string)
    ensures AsReals(AddOne(m, k)) == Add(AsReals(m), k, 1.0)
  {
  }

  lemma {:induction false} CounterValue(m: map<string, int>, k: string)
    ensures CountOf(m, k) as real == Get(AsReals(m), k)
  {
  }

  type Rows = map<(string, Day), Commitment>

  ghost predicate IndexesRows(m: Rows, rows: seq<Commitment>) {
    forall sku, date :: (if (sku, date) in m then Some(m[(sku, date)]) else None) == LastRow(rows, sku, date)
  }

  method IndexRows(rows: seq<Commitment>) returns (m: Rows)
    ensures IndexesRows(m, rows)
  {
    m := map[];
    var i := 0;
    while i < |rows|
      invariant 0 <= i <= |rows| && IndexesRows(m, rows[..i])
    {
      assert rows[..i + 1][..i] == rows[..i];
      var c := rows[i];
      if c.releaseDate.Some? {
        m := m[(c.sku, c.releaseDate.value) := c];
      }
      i := i + 1;
    }
    assert rows[..i] == rows;
  }

  /** The products of the releases in order of first appearance. */
  ghost function FirstSeen(releases: seq<Release>): seq<string>
  {
    if |releases| == 0 then []
    else
      var before, sku := FirstSeen(releases[..|releases| - 1]), releases[|releases| - 1].sku;
      if sku in before then before else before + [sku]
  }

  ghost predicate IsOrder(order: seq<string>, releases: seq<Release>) {
    order == FirstSeen(releases) && NoDuplicates(order)
    && forall k :: k in order <==> exists i :: 0 <= i < |releases| && releases[i].sku == k
  }

  datatype ReleaseTotals =
    ReleaseTotals(order: seq<string>, committed: map<string, real>, due: map<string, real>, overdue: int,
                  overdueUnits: real)

  ghost predicate ReleasesTotalled(t: ReleaseTotals, releases: seq<Release>, rows: seq<Commitment>, today: Day) {
    IsOrder(t.order, releases) && (forall k :: k in t.committed <==> k in t.order)
    && Tracks(t.committed, releases, Amount(), SkuOf()) && Tracks(t.due, releases, DueAmount(today), SkuOf())
    && t.overdue as real == SumBy(releases, OverdueCount(rows, today))
    && t.overdueUnits == SumBy(releases, OverdueAmount(rows, today))
  }

  /** One release added to the running totals. */
  function AddRelease(t: ReleaseTotals, r: Release, state: string, today: Day): ReleaseTotals {
    var isNew := r.sku !in t.committed;
    var late := Ordinal(r.date) < Ordinal(today) && state in {"open", "missing"};
    ReleaseTotals(
      if isNew then t.order + [r.sku] else t.order,
      Add(t.committed, r.sku, r.quantity),
      if Ordinal(r.date) <= Ordinal(today) then Add(t.due, r.sku, r.quantity) else t.due,
      if late then t.overdue + 1 else t.overdue,
      if late then t.overdueUnits + r.quantity else t.overdueUnits)
  }

  lemma {:induction false} OrderStep(order: seq<string>, releases: seq<Release>, r: Release)
    requires IsOrder(order, releases)
    ensures IsOrder(if r.sku in order then order else order + [r.sku], releases + [r])
  {
    var after := if r.sku in order then order else order + [r.sku];
    assert (releases + [r])[..|releases|] == releases;
    hide FirstSeen;
    forall k ensures k in after <==> exists i :: 0 <= i < |releases + [r]| && (releases + [r])[i].sku == k {
      if k in order {
        var i :| 0 <= i < |releases| && releases[i].sku == k;
        assert (releases + [r])[i].sku == k;
      }
      if i :| 0 <= i < |releases + [r]| && (releases + [r])[i].sku == k {
        if i < |releases| {
          assert releases[i].sku == k;
        }
      }
      if k == r.sku {
        assert (releases + [r])[|releases|].sku == k;
      }
    }
  }

  lemma {:induction false} OrderOf(releases: seq<Release>)
    ensures IsOrder(FirstSeen(releases), releases)
  {
    if |releases| > 0 {
      var init, last := releases[..|releases| - 1], releases[|releases| - 1];
      var before := FirstSeen(init);
      assert FirstSeen(releases) == if last.sku in before then before else before + [last.sku];
      assert releases == init + [last];
      hide IsOrder, FirstSeen;
      OrderOf(init);
      OrderStep(before, init, last);
    } else {
      NothingSeen();
      assert releases == [];
    }
  }

  lemma {:induction false} NothingSeen()
    ensures IsOrder(FirstSeen([]), [])
  {
  }

  function StateOf(m: Rows, r: Release): string {
    if (r.sku, r.date) in m then m[(r.sku, r.date)].status else "missing"
  }

  lemma {:induction false} ReleaseStep(t: ReleaseTotals, releases: seq<Release>, r: Release, m: Rows,
                                       rows: seq<Commitment>, today: Day)
    requires ReleasesTotalled(t, releases, rows, today) && IndexesRows(m, rows)
    ensures ReleasesTotalled(AddRelease(t, r, StateOf(m, r), today), releases + [r], rows, today)
  {
    hide LastRow, IsOrder, Tracks, Ordinal;
    OrderStep(t.order, releases, r);
    TrackStep(t.committed, releases, r, Amount(), SkuOf());
    TrackStep(t.due, releases, r, DueAmount(today), SkuOf());
    SumOne(releases, r, OverdueCount(rows, today));
    SumOne(releases, r, OverdueAmount(rows, today));
    assert (if (r.sku, r.date) in m then Some(m[(r.sku, r.date)]) else None) == LastRow(rows, r.sku, r.date);
  }

  lemma {:induction false} NoReleases(rows: seq<Commitment>, today: Day)
    ensures ReleasesTotalled(ReleaseTotals([], map[], map[], 0, 0.0), [], rows, today)
  {
  }

  method ScanReleases(releases: seq<Release>, rows: seq<Commitment>, today: Day) returns (t: ReleaseTotals)
    ensures ReleasesTotalled(t, releases, rows, today)
  {
    hide ReleasesTotalled, AddRelease, IndexesRows;
    var m := IndexRows(rows);
    t := ReleaseTotals([], map[], map[], 0, 0.0);
    NoReleases(rows, today);
    var i := 0;
    assert releases[..0] == [];
    while i < |releases|
      invariant 0 <= i <= |releases| && ReleasesTotalled(t, releases[..i], rows, today)
    {
      ReleaseStep(t, releases[..i], releases[i], m, rows, today);
      assert releases[..i + 1] == releases[..i] + [releases[i]];
      t := AddRelease(t, releases[i], StateOf(m, releases[i]), today);
      i := i + 1;
    }
    assert releases[..i] == releases;
  }

  datatype DeliveryTotals =
    DeliveryTotals(delivered: map<string, real>, lateN: map<string, int>, lateUnits: map<string, real>, maxLate: int,
                   undated: int)

  /** The longest delay of a counted row, zero when none was late. */
  ghost predicate IsMaxLate(n: int, rows: seq<Commitment>, scheduled: set<string>) {
    (forall i :: 0 <= i < |rows| && Counts(scheduled, rows[i]) ==> DaysLate(rows[i]) <= n)
    && (n == 0 || exists i :: 0 <= i < |rows| && Counts(scheduled, rows[i]) && DaysLate(rows[i]) == n)
  }

  ghost predicate DeliveriesTotalled(t: DeliveryTotals, rows: seq<Commitment>, scheduled: set<string>) {
    Tracks(t.delivered, rows, DeliveredAmount(scheduled), RowSku())
    && Tracks(AsReals(t.lateN), rows, LateCount(scheduled), RowSku())
    && Tracks(t.lateUnits, rows, LateAmount(scheduled), RowSku())
    && IsMaxLate(t.maxLate, rows, scheduled) && t.maxLate >= 0
    && t.undated as real == SumBy(rows, UndatedCount(scheduled))
  }

  function AddDelivery(t: DeliveryTotals, c: Commitment, scheduled: set<string>): DeliveryTotals {
    if c.status != "fulfilled" || c.sku !in scheduled then t
    else
      var t1 := t.(delivered := Add(t.delivered, c.sku, c.quantity));
      if c.releaseDate.None? then t1
      else if c.fulfilledOn.None? then t1.(undated := t.undated + 1)
      else
        var late := DaysBetween(c.fulfilledOn.value, c.releaseDate.value);
        if late <= 0 then t1
        else
          t1.(lateN := AddOne(t.lateN, c.sku), lateUnits := Add(t.lateUnits, c.sku, c.quantity),
              maxLate := if late > t.maxLate then late else t.maxLate)
  }

  lemma {:induction false} MaxLateStep(n: int, rows: seq<Commitment>, scheduled: set<string>, c: Commitment)
    requires IsMaxLate(n, rows, scheduled) && n >= 0
    ensures IsMaxLate(if Counts(scheduled, c) && DaysLate(c) > n then DaysLate(c) else n, rows + [c], scheduled)
  {
    hide Counts, DaysLate;
    var after := if Counts(scheduled, c) && DaysLate(c) > n then DaysLate(c) else n;
    assert (rows + [c])[|rows|] == c;
    if after == n && n != 0 {
      var i :| 0 <= i < |rows| && Counts(scheduled, rows[i]) && DaysLate(rows[i]) == n;
      assert (rows + [c])[i] == rows[i];
    }
  }

  lemma {:induction false} DeliveryStep(t: DeliveryTotals, rows: seq<Commitment>, scheduled: set<string>, c: Commitment)
    requires DeliveriesTotalled(t, rows, scheduled)
    ensures DeliveriesTotalled(AddDelivery(t, c, scheduled), rows + [c], scheduled)
  {
    hide Tracks, IsMaxLate, Ordinal, AsReals, Add, AddOne;
    CounterStep(t.lateN, c.sku);
    TrackStep(t.delivered, rows, c, DeliveredAmount(scheduled), RowSku());
    TrackStep(AsReals(t.lateN), rows, c, LateCount(scheduled), RowSku());
    TrackStep(t.lateUnits, rows, c, LateAmount(scheduled), RowSku());
    SumOne(rows, c, UndatedCount(scheduled));
    MaxLateStep(t.maxLate, rows, scheduled, c);
  }

  lemma {:induction false} NoDeliveries(scheduled: set<string>)
    ensures DeliveriesTotalled(DeliveryTotals(map[], map[], map[], 0, 0), [], scheduled)
  {
  }

  method ScanDeliveries(rows: seq<Commitment>, scheduled: set<string>) returns (t: DeliveryTotals)
    ensures DeliveriesTotalled(t, rows, scheduled)
  {
    hide DeliveriesTotalled, AddDelivery;
    t := DeliveryTotals(map[], map[], map[], 0, 0);
    NoDeliveries(scheduled);
    var i := 0;
    assert rows[..0] == [];
    while i < |rows|
      invariant 0 <= i <= |rows| && DeliveriesTotalled(t, rows[..i], scheduled)
    {
      DeliveryStep(t, rows[..i], scheduled, rows[i]);
      assert rows[..i + 1] == rows[..i] + [rows[i]];
      t := AddDelivery(t, rows[i], scheduled);
      i := i + 1;
    }
    assert rows[..i] == rows;
  }

  // ----- the report

  /** Adds up a map over the line order. */
  function TotalOver(order: seq<string>, m: map<string, real>): real
  {
    if |order| == 0 then 0.0 else TotalOver(order[..|order| - 1], m) + Get(m, order[|order| - 1])
  }

  lemma {:induction false} TotalIsGroups<T>(order: seq<string>, m: map<string, real>, s: seq<T>, f: T -> real,
                                            key: T -> string)
    requires Tracks(m, s, f, key)
    ensures TotalOver(order, m) == GroupSums(order, s, f, key)
  {
    if |order| > 0 {
      TotalIsGroups(order[..|order| - 1], m, s, f, key);
    }
  }

  function TotalCount(order: seq<string>, m: map<string, int>): int
  {
    if |order| == 0 then 0 else TotalCount(order[..|order| - 1], m) + CountOf(m, order[|order| - 1])
  }

  lemma {:induction false} TotalCountIs(order: seq<string>, m: map<string, int>)
    ensures TotalCount(order, m) as real == TotalOver(order, AsReals(m))
  {
    if |order| > 0 {
      TotalCountIs(order[..|order| - 1], m);
      CounterValue(m, order[|order| - 1]);
    }
  }

  /** A map that tracks a measure adds up, over the lines, to the measure of the whole list. */
  lemma {:induction false} TotalIsSum<T>(order: seq<string>, m: map<string, real>, s: seq<T>, f: T -> real,
                                         key: T -> string)
    requires Tracks(m, s, f, key) && NoDuplicates(order)
    requires forall i :: 0 <= i < |s| ==> key(s[i]) in order || f(s[i]) == 0.0
    ensures TotalOver(order, m) == SumBy(s, f)
  {
    TotalIsGroups(order, m, s, f, key);
    GroupsAddUp(order, s, f, key);
  }

  function LineOf(sku: string, r: ReleaseTotals, d: DeliveryTotals): LineFigures {
    LineFigures(sku, Get(r.committed, sku), Get(r.due, sku), Get(d.delivered, sku), CountOf(d.lateN, sku),
                Get(d.lateUnits, sku))
  }

  function PositivePart(x: real): real {
    if x > 0.0 then x else 0.0
  }

  /** What the figures of a whole comparison must be, as sums over the two lists. */
  ghost predicate FiguresAre(f: Figures, releases: seq<Release>, rows: seq<Commitment>, today: Day) {
    var scheduled := set i | 0 <= i < |releases| :: releases[i].sku;
    f.committed == SumBy(releases, Amount())
    && f.due == SumBy(releases, DueAmount(today))
    && f.delivered == SumBy(rows, DeliveredAmount(scheduled))
    && f.remaining == (if f.committed > f.delivered then f.committed - f.delivered else 0.0)
    && f.shortfall == (if f.due > f.delivered then f.due - f.delivered else 0.0)
    && f.lateDeliveries as real == SumBy(rows, LateCount(scheduled))
    && f.lateUnits == SumBy(rows, LateAmount(scheduled))
    && IsMaxLate(f.maxDaysLate, rows, scheduled)
    && f.undated as real == SumBy(rows, UndatedCount(scheduled))
    && f.overdue as real == SumBy(releases, OverdueCount(rows, today))
    && f.overdueUnits == SumBy(releases, OverdueAmount(rows, today))
  }

  /** Each line holds the sums of its own product. */
  ghost function Skus(lines: seq<LineFigures>): (keys: seq<string>)
    ensures |keys| == |lines| && forall i :: 0 <= i < |lines| ==> keys[i] == lines[i].sku
  {
    seq(|lines|, i requires 0 <= i < |lines| => lines[i].sku)
  }

  ghost predicate LineIs(l: LineFigures, releases: seq<Release>, rows: seq<Commitment>, today: Day,
                         scheduled: set<string>) {
    l.committed == SumFor(releases, Amount(), SkuOf(), l.sku)
    && l.due == SumFor(releases, DueAmount(today), SkuOf(), l.sku)
    && l.delivered == SumFor(rows, DeliveredAmount(scheduled), RowSku(), l.sku)
    && l.lateDeliveries as real == SumFor(rows, LateCount(scheduled), RowSku(), l.sku)
    && l.lateUnits == SumFor(rows, LateAmount(scheduled), RowSku(), l.sku)
  }

  /** One line per product, in order of first appearance, each with its own sums. */
  ghost predicate LinesAre(lines: seq<LineFigures>, releases: seq<Release>, rows: seq<Commitment>, today: Day) {
    var scheduled := set i | 0 <= i < |releases| :: releases[i].sku;
    Skus(lines) == FirstSeen(releases)
    && forall i :: 0 <= i < |lines| ==> LineIs(lines[i], releases, rows, today, scheduled)
  }

  lemma {:induction false} OrderIsScheduled(order: seq<string>, releases: seq<Release>)
    requires IsOrder(order, releases)
    ensures forall k :: k in order <==> k in (set i | 0 <= i < |releases| :: releases[i].sku)
    ensures forall i :: 0 <= i < |releases| ==> releases[i].sku in order
  {
  }

  lemma {:induction false} ReleaseSums(t: ReleaseTotals, releases: seq<Release>, rows: seq<Commitment>, today: Day)
    requires ReleasesTotalled(t, releases, rows, today)
    ensures TotalOver(t.order, t.committed) == SumBy(releases, Amount())
    ensures TotalOver(t.order, t.due) == SumBy(releases, DueAmount(today))
  {
    hide Tracks;
    OrderIsScheduled(t.order, releases);
    TotalIsSum(t.order, t.committed, releases, Amount(), SkuOf());
    TotalIsSum(t.order, t.due, releases, DueAmount(today), SkuOf());
  }

  lemma {:induction false} DeliverySums(order: seq<string>, t: DeliveryTotals, rows: seq<Commitment>,
                                        scheduled: set<string>)
    requires DeliveriesTotalled(t, rows, scheduled) && NoDuplicates(order) && forall k :: k in order <==> k in scheduled
    ensures TotalOver(order, t.delivered) == SumBy(rows, DeliveredAmount(scheduled))
    ensures TotalCount(order, t.lateN) as real == SumBy(rows, LateCount(scheduled))
    ensures TotalOver(order, t.lateUnits) == SumBy(rows, LateAmount(scheduled))
  {
    hide Tracks, IsMaxLate;
    TotalIsSum(order, t.delivered, rows, DeliveredAmount(scheduled), RowSku());
    TotalCountIs(order, t.lateN);
    TotalIsSum(order, AsReals(t.lateN), rows, LateCount(scheduled), RowSku());
    TotalIsSum(order, t.lateUnits, rows, LateAmount(scheduled), RowSku());
  }

  function LinesFor(order: seq<string>, r: ReleaseTotals, d: DeliveryTotals): (lines: seq<LineFigures>)
    ensures |lines| == |order| && forall i :: 0 <= i < |order| ==> lines[i] == LineOf(order[i], r, d)
  {
    seq(|order|, i requires 0 <= i < |order| => LineOf(order[i], r, d))
  }

  lemma {:induction false} LineCorrect(sku: string, r: ReleaseTotals, d: DeliveryTotals, releases: seq<Release>,
                                       rows: seq<Commitment>, today: Day, scheduled: set<string>)
    requires ReleasesTotalled(r, releases, rows, today) && DeliveriesTotalled(d, rows, scheduled)
    ensures LineIs(LineOf(sku, r, d), releases, rows, today, scheduled)
  {
    hide IsMaxLate, IsOrder, LateCount, LateAmount, DeliveredAmount, Amount, DueAmount;
    CounterValue(d.lateN, sku);
  }

  lemma {:induction false} LinesCorrect(r: ReleaseTotals, d: DeliveryTotals, releases: seq<Release>,
                                        rows: seq<Commitment>, today: Day)
    requires ReleasesTotalled(r, releases, rows, today)
    requires DeliveriesTotalled(d, rows, set i | 0 <= i < |releases| :: releases[i].sku)
    ensures LinesAre(LinesFor(r.order, r, d), releases, rows, today)
  {
    hide LineIs, LineOf, DeliveriesTotalled, FirstSeen;
    var scheduled := set i | 0 <= i < |releases| :: releases[i].sku;
    var lines := LinesFor(r.order, r, d);
    forall i | 0 <= i < |lines|
      ensures lines[i].sku == r.order[i] && LineIs(lines[i], releases, rows, today, scheduled)
    {
      LineCorrect(r.order[i], r, d, releases, rows, today, scheduled);
      LineSku(r.order[i], r, d);
    }
    assert Skus(lines) == r.order;
  }

  lemma {:induction false} LineSku(sku: string, r: ReleaseTotals, d: DeliveryTotals)
    ensures LineOf(sku, r, d).sku == sku
  {
  }

  /** The exact figures, and the report made from them. */
  method CommitmentComparison(releases: seq<Release>, rows: seq<Commitment>, today: Day)
    returns (f: Figures, report: Report)
    ensures report == ReportOf(f)
    ensures FiguresAre(f, releases, rows, today)
    ensures LinesAre(f.lines, releases, rows, today)
  {
    hide Tracks, LinesAre, LinesFor, IsMaxLate, TotalOver, ReportOf;
    var r := ScanReleases(releases, rows, today);
    var scheduled := set i | 0 <= i < |releases| :: releases[i].sku;
    var d := ScanDeliveries(rows, scheduled);
    OrderIsScheduled(r.order, releases);
    ReleaseSums(r, releases, rows, today);
    DeliverySums(r.order, d, rows, scheduled);
    LinesCorrect(r, d, releases, rows, today);
    var committed, due := TotalOver(r.order, r.committed), TotalOver(r.order, r.due);
    var delivered := TotalOver(r.order, d.delivered);
    f := Figures(committed, due, delivered, PositivePart(committed - delivered), PositivePart(due - delivered),
                 TotalCount(r.order, d.lateN), TotalOver(r.order, d.lateUnits), d.maxLate, d.undated,
                 r.overdue, r.overdueUnits, LinesFor(r.order, r, d));
    report := ReportOf(f);
  }

  /** With no negative quantity, what is due never exceeds what is committed. */
  lemma {:induction false} DueWithinCommitted(f: Figures, releases: seq<Release>, rows: seq<Commitment>, today: Day)
    requires FiguresAre(f, releases, rows, today)
    requires forall i :: 0 <= i < |releases| ==> releases[i].quantity >= 0.0
    ensures f.due <= f.committed && f.shortfall <= f.remaining
  {
    SumBelow(releases, DueAmount(today), Amount());
  }

  lemma {:induction false} LineGroup<T>(lines: seq<LineFigures>, figure: LineFigures -> real, s: seq<T>, f: T -> real,
                                        key: T -> string)
    requires forall i :: 0 <= i < |lines| ==> figure(lines[i]) == SumFor(s, f, key, lines[i].sku)
    ensures SumBy(lines, figure) == GroupSums(Skus(lines), s, f, key)
  {
    if |lines| > 0 {
      LineGroup(lines[..|lines| - 1], figure, s, f, key);
      assert Skus(lines)[..|lines| - 1] == Skus(lines[..|lines| - 1]);
    }
  }

  /** The per-product lines add up to the totals, nothing counted twice and nothing missed. */
  lemma {:induction false} LinesAddUp(f: Figures, releases: seq<Release>, rows: seq<Commitment>, today: Day)
    requires FiguresAre(f, releases, rows, today) && LinesAre(f.lines, releases, rows, today)
    ensures SumBy(f.lines, (l: LineFigures) => l.committed) == f.committed
    ensures SumBy(f.lines, (l: LineFigures) => l.due) == f.due
    ensures SumBy(f.lines, (l: LineFigures) => l.delivered) == f.delivered
    ensures SumBy(f.lines, (l: LineFigures) => l.lateDeliveries as real) == f.lateDeliveries as real
    ensures SumBy(f.lines, (l: LineFigures) => l.lateUnits) == f.lateUnits
  {
    hide IsMaxLate, SumBy, SumFor, FirstSeen;
    var scheduled := set i | 0 <= i < |releases| :: releases[i].sku;
    var keys := Skus(f.lines);
    OrderOf(releases);
    OrderIsScheduled(keys, releases);
    LineGroup(f.lines, (l: LineFigures) => l.committed, releases, Amount(), SkuOf());
    LineGroup(f.lines, (l: LineFigures) => l.due, releases, DueAmount(today), SkuOf());
    LineGroup(f.lines, (l: LineFigures) => l.delivered, rows, DeliveredAmount(scheduled), RowSku());
    LineGroup(f.lines, (l: LineFigures) => l.lateDeliveries as real, rows, LateCount(scheduled), RowSku());
    LineGroup(f.lines, (l: LineFigures) => l.lateUnits, rows, LateAmount(scheduled), RowSku());
    GroupsAddUp(keys, releases, Amount(), SkuOf());
    GroupsAddUp(keys, releases, DueAmount(today), SkuOf());
    GroupsAddUp(keys, rows, DeliveredAmount(scheduled), RowSku());
    GroupsAddUp(keys, rows, LateCount(scheduled), RowSku());
    GroupsAddUp(keys, rows, LateAmount(scheduled), RowSku());
  }

  // ----- the report

  /** `round_nd(x, 1)` on the exact value. */
  function Round1(x: real): real {
    HalfEven(x * 10.0) as real / 10.0
  }

  /** `pct`: a percentage with one decimal, none of nothing. */
  function Percent(part: real, whole: real): Option<real> {
    if whole > 0.0 then Some(Round1(part / whole * 100.0)) else None
  }

  datatype LineReport =
    LineReport(sku: string, committed: real, due: real, delivered: real, fillRate: Option<real>, lateDeliveries: int,
               lateUnits: real)

  datatype Report =
    Report(committed: real, due: real, delivered: real, remaining: real, shortfall: real,
           fillRate: Option<real>, termFill: Option<real>, lateDeliveries: int, lateUnits: real, maxDaysLate: int,
           undated: int, overdue: int, overdueUnits: real, lines: seq<LineReport>)

  function LineReportOf(l: LineFigures): LineReport {
    LineReport(l.sku, Round4(l.committed), Round4(l.due), Round4(l.delivered), Percent(l.delivered, l.due),
               l.lateDeliveries, Round4(l.lateUnits))
  }

  /** The figures as they are reported: quantities to four decimals, percentages to one. */
  function ReportOf(f: Figures): Report {
    Report(Round4(f.committed), Round4(f.due), Round4(f.delivered), Round4(f.remaining), Round4(f.shortfall),
           Percent(f.delivered, f.due), Percent(f.delivered, f.committed), f.lateDeliveries, Round4(f.lateUnits),
           f.maxDaysLate, f.undated, f.overdue, Round4(f.overdueUnits),
           seq(|f.lines|, i requires 0 <= i < |f.lines| => LineReportOf(f.lines[i])))
  }

  lemma {:induction false} HalfEvenOrder(x: real, y: real)
    requires x <= y
    ensures HalfEven(x) <= HalfEven(y)
  {
  }

  lemma {:induction false} HalfEvenWhole(n: int)
    ensures HalfEven(n as real) == n
  {
  }

  /** A reported quantity is within half a unit of its last decimal, and the rounding keeps the order. */
  lemma {:induction false} Round4Means(x: real, y: real)
    ensures -0.00005 <= Round4(x) - x <= 0.00005
    ensures x <= y ==> Round4(x) <= Round4(y)
    ensures FourDecimals(x) ==> Round4(x) == x
  {
    HalfEvenNear(x * 10000.0);
    if x <= y {
      HalfEvenOrder(x * 10000.0, y * 10000.0);
    }
    if FourDecimals(x) {
      HalfEvenWhole((x * 10000.0).Floor);
    }
  }

  lemma {:induction false} PercentMeans(part: real, whole: real)
    ensures Percent(part, whole).None? <==> whole <= 0.0
    ensures whole > 0.0 ==> -0.05 <= Percent(part, whole).value - part / whole * 100.0 <= 0.05
  {
    if whole > 0.0 {
      HalfEvenNear(part / whole * 100.0 * 10.0);
    }
  }

  /** `y` is `x` to the nearest multiple of `1 / scale`, the even one when `x` is halfway. */
  ghost predicate Rounded(x: real, scale: real, y: real) {
    (y * scale).Floor as real == y * scale && IsNearest(x * scale, (y * scale).Floor)
  }

  ghost predicate IsNearest(z: real, n: int) {
    -0.5 <= n as real - z <= 0.5 && ((n as real - z == 0.5 || n as real - z == -0.5) ==> n % 2 == 0)
  }

  lemma {:induction false} HalfEvenIsNearest(z: real, n: int)
    ensures IsNearest(z, n) <==> n == HalfEven(z)
  {
  }

  lemma {:induction false} RoundedExactly(x: real, y: real)
    ensures Rounded(x, 10000.0, y) <==> y == Round4(x)
    ensures Rounded(x, 10.0, y) <==> y == Round1(x)
  {
    hide HalfEven, IsNearest;
    HalfEvenIsNearest(x * 10000.0, (y * 10000.0).Floor);
    HalfEvenIsNearest(x * 10.0, (y * 10.0).Floor);
    HalfEvenWhole(HalfEven(x * 10000.0));
    HalfEvenWhole(HalfEven(x * 10.0));
  }

  /** A share of something, as a percentage with one decimal; a share of nothing is not given. */
  ghost predicate IsPercent(p: Option<real>, part: real, whole: real) {
    if whole <= 0.0 then p == None else p.Some? && Rounded(part / whole * 100.0, 10.0, p.value)
  }

  ghost predicate LineReported(r: LineReport, l: LineFigures) {
    r.sku == l.sku && Rounded(l.committed, 10000.0, r.committed) && Rounded(l.due, 10000.0, r.due)
    && Rounded(l.delivered, 10000.0, r.delivered) && IsPercent(r.fillRate, l.delivered, l.due)
    && r.lateDeliveries == l.lateDeliveries && Rounded(l.lateUnits, 10000.0, r.lateUnits)
  }

  lemma {:induction false} PercentExactly(part: real, whole: real)
    ensures IsPercent(Percent(part, whole), part, whole)
  {
    hide Rounded, Round1, Round4;
    if whole > 0.0 {
      RoundedExactly(part / whole * 100.0, Round1(part / whole * 100.0));
    }
  }

  lemma {:induction false} LineReportExactly(l: LineFigures)
    ensures LineReported(LineReportOf(l), l)
  {
    hide Rounded, Round4, Percent, IsPercent;
    RoundedExactly(l.committed, Round4(l.committed));
    RoundedExactly(l.due, Round4(l.due));
    RoundedExactly(l.delivered, Round4(l.delivered));
    RoundedExactly(l.lateUnits, Round4(l.lateUnits));
    PercentExactly(l.delivered, l.due);
  }

  /** Each column of the report is its own figure: quantities rounded to four decimals, counts as they are. */
  lemma {:induction false} ReportExactly(f: Figures)
    ensures var r := ReportOf(f);
            Rounded(f.committed, 10000.0, r.committed) && Rounded(f.due, 10000.0, r.due)
            && Rounded(f.delivered, 10000.0, r.delivered) && Rounded(f.remaining, 10000.0, r.remaining)
            && Rounded(f.shortfall, 10000.0, r.shortfall) && Rounded(f.lateUnits, 10000.0, r.lateUnits)
            && Rounded(f.overdueUnits, 10000.0, r.overdueUnits)
            && IsPercent(r.fillRate, f.delivered, f.due) && IsPercent(r.termFill, f.delivered, f.committed)
            && r.lateDeliveries == f.lateDeliveries && r.maxDaysLate == f.maxDaysLate && r.undated == f.undated
            && r.overdue == f.overdue && |r.lines| == |f.lines|
            && forall i :: 0 <= i < |r.lines| ==> LineReported(r.lines[i], f.lines[i])
  {
    hide Rounded, Round4, Percent, IsPercent, LineReportOf, LineReported;
    RoundedExactly(f.committed, Round4(f.committed));
    RoundedExactly(f.due, Round4(f.due));
    RoundedExactly(f.delivered, Round4(f.delivered));
    RoundedExactly(f.remaining, Round4(f.remaining));
    RoundedExactly(f.shortfall, Round4(f.shortfall));
    RoundedExactly(f.lateUnits, Round4(f.lateUnits));
    RoundedExactly(f.overdueUnits, Round4(f.overdueUnits));
    PercentExactly(f.delivered, f.due);
    PercentExactly(f.delivered, f.committed);
    forall i | 0 <= i < |f.lines| ensures LineReported(LineReportOf(f.lines[i]), f.lines[i]) {
      LineReportExactly(f.lines[i]);
    }
  }

  /** The same part of a larger whole is no larger a percentage. */
  lemma {:induction false} PercentOrder(part: real, whole: real, larger: real)
    requires part >= 0.0 && 0.0 < whole <= larger
    ensures Percent(part, larger).value <= Percent(part, whole).value
  {
    RatioOrder(part, whole, larger);
    HalfEvenOrder(part / larger * 100.0 * 10.0, part / whole * 100.0 * 10.0);
  }

  lemma {:induction false} RatioOrder(part: real, whole: real, larger: real)
    requires part >= 0.0 && 0.0 < whole <= larger
    ensures part / larger <= part / whole
  {
    var small, big := part / larger, part / whole;
    QuotientTimes(part, larger);
    QuotientTimes(part, whole);
    RealMulMonotone(whole, larger, small);
    CompareTimes(big, small, whole);
  }

  lemma {:induction false} PercentComplete(part: real, whole: real)
    requires 0.0 < whole <= part
    ensures Percent(part, whole).value >= 100.0
  {
    var q := part / whole;
    QuotientTimes(part, whole);
    CompareTimes(q, 1.0, whole);
    assert q >= 1.0;
    HalfEvenOrder(1000.0, q * 100.0 * 10.0);
    HalfEvenWhole(1000);
  }

  /**
  What a reader may conclude from the report of figures with no negative release or delivery:
  there is a fill rate exactly when something was due, and a term fill exactly when something
  was committed; the term fill never exceeds the fill rate; and when all that was due has been
  delivered the fill rate is at least 100 and no shortfall is shown.
  */
  lemma {:induction false} ReportConsistent(f: Figures, releases: seq<Release>, rows: seq<Commitment>, today: Day)
    requires FiguresAre(f, releases, rows, today) && f.delivered >= 0.0
    requires forall i :: 0 <= i < |releases| ==> releases[i].quantity >= 0.0
    ensures var r := ReportOf(f);
            (r.fillRate.Some? <==> f.due > 0.0) && (r.termFill.Some? <==> f.committed > 0.0)
            && r.due <= r.committed && r.shortfall <= r.remaining
            && (r.fillRate.Some? ==> r.termFill.Some? && r.termFill.value <= r.fillRate.value)
            && (r.fillRate.Some? && f.delivered >= f.due ==> r.fillRate.value >= 100.0 && r.shortfall == 0.0)
  {
    hide Round4, Round1, SumBy;
    DueWithinCommitted(f, releases, rows, today);
    Round4Means(f.due, f.committed);
    Round4Means(f.shortfall, f.remaining);
    if f.due > 0.0 {
      PercentOrder(f.delivered, f.due, f.committed);
      if f.delivered >= f.due {
        PercentComplete(f.delivered, f.due);
        Round4Means(0.0, 0.0);
      }
    }
  }
}
