/** The next term of a contract and the move of its releases (backend-rs/src/contract_renewal.rs:235-300). */
module Renewal {
  import opened Algebra
  import opened Wrappers
  import opened Sorting
  import Sums
  import opened Calendar
  import opened Schedule

  const MAX_YEARS := 10

  /** The term runs exactly `k` months: it ends the day before `start` plus `k` months. */
  predicate IsTerm(start: Day, end: Day, k: int) {
    k >= 1 && AddMonths(start, k).Some? && Pred(AddMonths(start, k).value) == end
  }

  function WholeMonths(start: Day, end: Day): Option<int> {
    var n := end.MonthIndex() - start.MonthIndex() + 1;
    if IsTerm(start, end, n) then Some(n)
    else if IsTerm(start, end, n - 1) then Some(n - 1)
    else if IsTerm(start, end, n + 1) then Some(n + 1)
    else None
  }

  datatype Term = Term(start: Day, end: Day)

  function NextTerm(start: Day, end: Day): Option<(Day, Day, Option<int>)> {
    var newStart := Succ(end);
    var months := WholeMonths(start, end);
    match months
    case Some(m) =>
      (match AddMonths(newStart, m)
       case None => None
       case Some(d) => Some((newStart, Pred(d), months)))
    case None => Some((newStart, PlusDays(newStart, DaysBetween(end, start)), None))
  }

  // ----- whole-month terms

  lemma {:induction false} PredIndex(d: Day)
    ensures Pred(d).MonthIndex() == if d.day > 1 then d.MonthIndex() else d.MonthIndex() - 1
  {
  }

  lemma {:induction false} SuccPred(d: Day)
    ensures Succ(Pred(d)) == d && Ordinal(Pred(d)) == Ordinal(d) - 1
  {
    PredOrdinal(d);
  }

  lemma {:induction false} TermUnique(start: Day, end: Day, j: int, k: int)
    requires IsTerm(start, end, j) && IsTerm(start, end, k)
    ensures j == k
  {
    SuccPred(AddMonths(start, j).value);
    SuccPred(AddMonths(start, k).value);
    if j < k {
      AddMonthsIncreases(start, j, k);
    } else if k < j {
      AddMonthsIncreases(start, k, j);
    }
  }

  /** The three candidates tried are enough: a length that `add_months` can reach is always found. */
  lemma {:induction false} WholeMonthsExact(start: Day, end: Day, k: int)
    ensures WholeMonths(start, end) == Some(k) <==> IsTerm(start, end, k)
  {
    hide AddMonths, Pred;
    var n := end.MonthIndex() - start.MonthIndex() + 1;
    if IsTerm(start, end, k) {
      AddMonthsMeans(start, k);
      PredIndex(AddMonths(start, k).value);
      assert k == n || k == n - 1;
    }
    if WholeMonths(start, end).Some? && IsTerm(start, end, k) {
      TermUnique(start, end, k, WholeMonths(start, end).value);
    }
  }

  // ----- the year limit

  const LAST_DAY := Date(9999, 12, 31)

  /** The term covers `k` whole months, whatever the year it reaches. */
  predicate Spans(start: Day, end: Day, k: int) {
    var next := Succ(end);
    k >= 1 && next.MonthIndex() == start.MonthIndex() + k && next.day == Min(start.day, Length(next.MonthIndex()))
  }

  lemma {:induction false} PredSucc(d: Day)
    ensures Pred(Succ(d)) == d
  {
    SuccOrdinal(d);
    PredOrdinal(Succ(d));
    OrdinalOrder(Pred(Succ(d)), d);
  }

  lemma {:induction false} SuccStored(d: Day)
    requires Stored(d)
    ensures Stored(Succ(d)) <==> d != LAST_DAY
  {
  }

  lemma {:induction false} RangeIsStored(d: Day)
    ensures InRange(d.MonthIndex()) <==> Stored(d)
  {
  }

  /** Whole months are recognised exactly when they do not end on the last day of year 9999. */
  lemma {:induction false} WholeMonthsRecognised(start: Day, end: Day, k: int)
    requires Stored(start) && Stored(end)
    ensures WholeMonths(start, end) == Some(k) <==> Spans(start, end, k) && end != LAST_DAY
  {
    hide AddMonths, Pred, Succ, WholeMonths, Length, Stored;
    WholeMonthsExact(start, end, k);
    AddMonthsMeans(start, k);
    SuccStored(end);
    RangeIsStored(Succ(end));
    PredSucc(end);
    if IsTerm(start, end, k) {
      SuccPred(AddMonths(start, k).value);
    } else if Spans(start, end, k) && end != LAST_DAY {
      SameMonthDay(AddMonths(start, k).value, Succ(end));
    }
  }

  lemma {:induction false} EarlierStored(a: Day, b: Day)
    requires Ordinal(a) <= Ordinal(b)
    ensures b.year <= MAX_YEAR ==> a.year <= MAX_YEAR
    ensures a.year >= 1 ==> b.year >= 1
  {
    OrdinalOrder(b, a);
  }

  lemma {:induction false} UpToLastDay(d: Day)
    ensures d.year <= MAX_YEAR <==> Ordinal(d) <= Ordinal(LAST_DAY)
  {
    OrdinalOrder(LAST_DAY, d);
  }

  /**
  The next term stays within year 9999 exactly when the old one is recognised as whole
  months, or there are days enough left for one as long.
  */
  lemma {:induction false} NextTermStored(start: Day, end: Day)
    requires Stored(start) && Stored(end) && Ordinal(start) <= Ordinal(end) && NextTerm(start, end).Some?
    ensures var (s, e, m) := NextTerm(start, end).value;
            Stored(s) && Stored(e) <==> m.Some? || Ordinal(end) + 1 + DaysBetween(end, start) <= Ordinal(LAST_DAY)
  {
    hide AddMonths, Ordinal, Succ, Pred, WholeMonths, PlusDays;
    var (s, e, m) := NextTerm(start, end).value;
    SuccOrdinal(end);
    EarlierStored(end, s);
    UpToLastDay(s);
    UpToLastDay(e);
    if m.Some? {
      WholeMonthsExact(start, end, m.value);
      SuccPred(AddMonths(start, m.value).value);
      AddMonthsMeans(start, m.value);
      AddMonthsMeans(s, m.value);
      var next := AddMonths(s, m.value).value;
      RangeIsStored(s);
      RangeIsStored(next);
      PredOrdinal(next);
      EarlierStored(e, next);
      OrderByMonth(s, next);
      EarlierStored(s, e);
    } else {
      PlusDaysOrdinal(s, DaysBetween(end, start));
      EarlierStored(s, e);
    }
  }

  /** The year 9999 itself is twelve whole months, is not recognised, and its next term starts in year 10000. */
  lemma {:induction false} LastYearWitness()
    ensures var start := Date(9999, 1, 1);
            Spans(start, LAST_DAY, 12) && WholeMonths(start, LAST_DAY) == None
            && NextTerm(start, LAST_DAY).Some? && NextTerm(start, LAST_DAY).value.0 == Date(10000, 1, 1)
  {
    hide PlusDays, DaysBetween;
  }

  // ----- iterated renewal

  /** The term after `n` renewals. */
  function Iterate(start: Day, end: Day, n: nat): Option<Term>
  {
    if n == 0 then Some(Term(start, end))
    else match Iterate(start, end, n - 1)
      case None => None
      case Some(t) =>
        (match NextTerm(t.start, t.end)
         case None => None
         case Some((s, e, _)) => Some(Term(s, e)))
  }

  /** Every term starts the day after the one before it, and a term in days keeps its length. */
  lemma {:induction false} TermsTile(start: Day, end: Day)
    requires NextTerm(start, end).Some?
    ensures Ordinal(NextTerm(start, end).value.0) == Ordinal(end) + 1
    ensures WholeMonths(start, end).None? ==>
      DaysBetween(NextTerm(start, end).value.1, NextTerm(start, end).value.0) == DaysBetween(end, start)
  {
    SuccOrdinal(end);
    PlusDaysOrdinal(Succ(end), DaysBetween(end, start));
  }

  lemma {:induction false} NextWholeTerm(start: Day, end: Day, m: int)
    requires IsTerm(start, end, m)
    ensures Some(Succ(end)) == AddMonths(start, m)
    ensures NextTerm(start, end).Some? ==>
      NextTerm(start, end).value.0 == Succ(end) && IsTerm(Succ(end), NextTerm(start, end).value.1, m)
      && NextTerm(start, end).value.2 == Some(m)
  {
    WholeMonthsExact(start, end, m);
    SuccPred(AddMonths(start, m).value);
  }

  /** Days in the month `n` renewals after the first. */
  ghost function LengthAt(start: Day, m: int, n: int): int {
    Length(start.MonthIndex() + n * m)
  }

  /** The shortest of the months the run has started in since, or the start day if shorter. */
  ghost function RunDay(start: Day, m: int, n: nat): int
  {
    if n == 0 then start.day else Min(RunDay(start, m, n - 1), LengthAt(start, m, n))
  }

  /**
  A term of `m` whole months renews as `m` whole months as long as the calendar lasts; its
  start only moves down through short months.
  */
  lemma {:induction false} NthTerm(start: Day, end: Day, m: int, n: nat)
    requires IsTerm(start, end, m)
    ensures Iterate(start, end, n).Some? <==> InRange(start.MonthIndex() + (n + 1) * m)
    ensures Iterate(start, end, n).Some? ==>
      var t := Iterate(start, end, n).value;
      IsTerm(t.start, t.end, m) && t.start.MonthIndex() == start.MonthIndex() + n * m
      && t.start.day == RunDay(start, m, n)
  {
    hide AddMonths, Length, IsTerm, NextTerm;
    TermInRange(start, end, m);
    NextMultiple(n + 1, m);
    if n > 0 {
      NthTerm(start, end, m, n - 1);
      NextMultiple(n, m);
      MultipleGrows(n, m);
      if Iterate(start, end, n - 1).Some? {
        var t := Iterate(start, end, n - 1).value;
        RenewedTerm(t.start, t.end, m);
      }
    } else {
      assert 0 * m == 0;
    }
  }

  lemma {:induction false} TermInRange(start: Day, end: Day, m: int)
    requires IsTerm(start, end, m)
    ensures m >= 1 && InRange(start.MonthIndex() + m)
  {
    AddMonthsMeans(start, m);
  }

  lemma {:induction false} MultipleGrows(n: nat, m: int)
    requires m >= 1
    ensures n * m >= 0
  {
  }

  /** One renewal of a whole-month term. */
  lemma {:induction false} RenewedTerm(start: Day, end: Day, m: int)
    requires IsTerm(start, end, m)
    ensures NextTerm(start, end).Some? <==> InRange(start.MonthIndex() + 2 * m)
    ensures NextTerm(start, end).Some? ==>
      var (s, e, _) := NextTerm(start, end).value;
      IsTerm(s, e, m) && s.MonthIndex() == start.MonthIndex() + m
      && s.day == Min(start.day, Length(start.MonthIndex() + m))
  {
    hide AddMonths, Succ, Pred, Length, WholeMonths;
    NextWholeTerm(start, end, m);
    WholeMonthsExact(start, end, m);
    AddMonthsMeans(start, m);
    AddMonthsMeans(Succ(end), m);
  }

  lemma {:induction false} RunDayBounds(start: Day, m: int, n: nat)
    ensures RunDay(start, m, n) <= start.day
    ensures forall j :: 1 <= j <= n ==> RunDay(start, m, n) <= LengthAt(start, m, j)
    ensures RunDay(start, m, n) == start.day
            || exists j :: 1 <= j <= n && RunDay(start, m, n) == LengthAt(start, m, j)
  {
    hide LengthAt;
    if n > 0 {
      RunDayBounds(start, m, n - 1);
    }
  }

  /** No month the run started in before is shorter than the day the `n`-th term would start on. */
  ghost predicate NoShorterMonth(start: Day, m: int, n: nat) {
    forall j :: 1 <= j < n ==> Min(start.day, LengthAt(start, m, n)) <= LengthAt(start, m, j)
  }

  lemma {:induction false} MovedTo(start: Day, t: Day, m: int, n: nat)
    requires t.MonthIndex() == start.MonthIndex() + n * m && InRange(t.MonthIndex())
    ensures AddMonths(start, n * m) == Some(t) <==> t.day == Min(start.day, LengthAt(start, m, n))
  {
    hide AddMonths, Length;
    AddMonthsMeans(start, n * m);
    var d := AddMonths(start, n * m).value;
    if d.day == t.day {
      SameMonthDay(d, t);
    }
  }

  lemma {:induction false} ZeroMonths(start: Day, m: int)
    ensures start.day <= LengthAt(start, m, 0)
  {
    LengthOf(start);
    assert 0 * m == 0;
  }

  /** The `n`-th term starts `n * m` months after the first exactly when no shorter month came in between. */
  lemma {:induction false} NthStartExact(start: Day, end: Day, m: int, n: nat)
    requires IsTerm(start, end, m) && Stored(start)
    ensures Iterate(start, end, n).Some? <==> InRange(start.MonthIndex() + (n + 1) * m)
    ensures Iterate(start, end, n).Some? ==>
      (AddMonths(start, n * m) == Some(Iterate(start, end, n).value.start) <==> NoShorterMonth(start, m, n))
  {
    hide AddMonths, LengthAt, IsTerm, Iterate;
    NthTerm(start, end, m, n);
    if Iterate(start, end, n).Some? {
      var t := Iterate(start, end, n).value.start;
      TermInRange(start, end, m);
      MultipleGrows(n, m);
      NextMultiple(n + 1, m);
      RangeIsStored(start);
      MovedTo(start, t, m, n);
      RunDayBounds(start, m, n);
      ZeroMonths(start, m);
    }
  }

  lemma {:induction false} NextMultiple(n: nat, m: int)
    requires n > 0
    ensures n * m == (n - 1) * m + m
  {
  }

  /** From a start day every month has, renewals never drift. */
  lemma {:induction false} NoDriftUpTo28(start: Day, end: Day, m: int, n: nat)
    requires IsTerm(start, end, m) && Stored(start) && start.day <= 28
    ensures Iterate(start, end, n).Some? <==> InRange(start.MonthIndex() + (n + 1) * m)
    ensures Iterate(start, end, n).Some? ==> AddMonths(start, n * m) == Some(Iterate(start, end, n).value.start)
  {
    hide AddMonths, IsTerm, Iterate, InRange;
    NthStartExact(start, end, m, n);
  }

  /** Past the 28th they can: monthly terms from 31 January start on 28 February, then on 28 March. */
  lemma {:induction false} DriftWitness()
    ensures var start, end := Date(2026, 1, 31), Date(2026, 2, 27);
            IsTerm(start, end, 1) && Iterate(start, end, 2).Some?
            && Iterate(start, end, 2).value.start == Date(2026, 3, 28) && AddMonths(start, 2) == Some(Date(2026, 3, 31))
  {
    var start, end := Date(2026, 1, 31), Date(2026, 2, 27);
    assert IsTerm(start, end, 1);
    WholeMonthsExact(start, end, 1);
    assert Iterate(start, end, 0) == Some(Term(start, end));
    assert Iterate(start, end, 1) == Some(Term(Date(2026, 2, 28), Date(2026, 3, 27)));
    assert IsTerm(Date(2026, 2, 28), Date(2026, 3, 27), 1);
    WholeMonthsExact(Date(2026, 2, 28), Date(2026, 3, 27), 1);
    assert Iterate(start, end, 2) == Some(Term(Date(2026, 3, 28), Date(2026, 4, 27)));
  }

  /** A two-day term at the end of year 9999 has a successor in year 10000. */
  lemma {:induction false} DaysPassYear9999()
    ensures NextTerm(Date(9999, 12, 30), Date(9999, 12, 31)).Some?
    ensures NextTerm(Date(9999, 12, 30), Date(9999, 12, 31)).value.0 == Date(10000, 1, 1)
  {
  }

  // ----- moving releases

  function ShiftReleaseDate(d: Day, start: Day, newStart: Day, months: Option<int>): Option<Day> {
    if months.Some? then AddMonths(d, newStart.MonthIndex() - start.MonthIndex())
    else Some(PlusDays(d, DaysBetween(newStart, start)))
  }

  datatype RenewalError = ReleaseOutOfPeriod(sku: string, date: Day, shifted: Day) | PeriodTooLong

  datatype Renewed = Renewed(start: Day, end: Day, releases: Option<seq<Release>>)

  predicate Inside(d: Day, start: Day, end: Day) {
    Ordinal(start) <= Ordinal(d) <= Ordinal(end)
  }

  function ShiftOne(r: Release, start: Day, newStart: Day, newEnd: Day,
                    months: Option<int>): Result<Release, RenewalError> {
    match ShiftReleaseDate(r.date, start, newStart, months)
    case None => Err(PeriodTooLong)
    case Some(d) =>
      if Inside(d, newStart, newEnd) then Ok(Release(r.sku, d, r.quantity))
      else Err(ReleaseOutOfPeriod(r.sku, r.date, d))
  }

  /** All releases moved in order, or the error of the first that cannot be. */
  function ShiftAll(rs: seq<Release>, start: Day, newStart: Day, newEnd: Day,
                    months: Option<int>): Result<seq<Release>, RenewalError>
  {
    if |rs| == 0 then Ok([])
    else match ShiftAll(rs[..|rs| - 1], start, newStart, newEnd, months)
      case Err(e) => Err(e)
      case Ok(out) =>
        (match ShiftOne(rs[|rs| - 1], start, newStart, newEnd, months)
         case Err(e) => Err(e)
         case Ok(r) => Ok(out + [r]))
  }

  /** `moved` is `d` in the next term: as many days into it, or `k` months on, on that day or the last of the month. */
  ghost predicate MovedInto(d: Day, moved: Day, start: Day, newStart: Day, months: Option<int>) {
    if months.Some? then
      moved.MonthIndex() == d.MonthIndex() + months.value && moved.day == Min(d.day, Length(moved.MonthIndex()))
    else Ordinal(moved) - Ordinal(newStart) == Ordinal(d) - Ordinal(start)
  }

  /** A release moves by as many months or days as its term does; only the calendar can end. */
  lemma {:induction false} ShiftMoves(d: Day, start: Day, end: Day, moved: Day)
    requires NextTerm(start, end).Some?
    ensures var (newStart, _, months) := NextTerm(start, end).value;
            ShiftReleaseDate(d, start, newStart, months) == Some(moved)
            <==> MovedInto(d, moved, start, newStart, months) && (months.Some? ==> InRange(moved.MonthIndex()))
  {
    hide AddMonths, PlusDays, Ordinal, Length, Succ, Pred, WholeMonths, IsTerm;
    var (newStart, _, months) := NextTerm(start, end).value;
    if months.Some? {
      var k := months.value;
      WholeMonthsExact(start, end, k);
      NextWholeTerm(start, end, k);
      AddMonthsMeans(start, k);
      AddMonthsMeans(d, k);
      if MovedInto(d, moved, start, newStart, months) && AddMonths(d, k).Some? {
        SameMonthDay(AddMonths(d, k).value, moved);
      }
    } else {
      PlusDaysOrdinal(d, DaysBetween(newStart, start));
      OrdinalOrder(PlusDays(d, DaysBetween(newStart, start)), moved);
      OrdinalOrder(moved, PlusDays(d, DaysBetween(newStart, start)));
    }
  }

  /** The renewed term exists and is at most ten years long. */
  predicate TermFits(start: Day, end: Day) {
    var next := NextTerm(start, end);
    next.Some? && AddMonths(next.value.0, 12 * MAX_YEARS).Some?
    && Ordinal(next.value.1) <= Ordinal(AddMonths(next.value.0, 12 * MAX_YEARS).value)
  }

  /** What `next_term` lets past year 9999, the renewal refuses: a term that fits lies in stored years. */
  lemma {:induction false} FittingTermStored(start: Day, end: Day)
    requires Stored(start) && Stored(end) && Ordinal(start) <= Ordinal(end) && TermFits(start, end)
    ensures var (s, e, _) := NextTerm(start, end).value; Stored(s) && Stored(e)
  {
    hide AddMonths, Ordinal, WholeMonths, PlusDays;
    var (s, e, m) := NextTerm(start, end).value;
    var limit := AddMonths(s, 12 * MAX_YEARS).value;
    AddMonthsMeans(s, 12 * MAX_YEARS);
    RangeIsStored(limit);
    EarlierStored(e, limit);
    SuccOrdinal(end);
    EarlierStored(end, s);
    if m.Some? {
      NextTermStored(start, end);
    } else {
      PlusDaysOrdinal(s, DaysBetween(end, start));
      EarlierStored(s, e);
    }
  }

  lemma {:induction false} FitsHasNext(start: Day, end: Day)
    requires TermFits(start, end)
    ensures NextTerm(start, end).Some?
  {
  }

  function RenewalOf(start: Day, end: Day, releases: Option<seq<Release>>): Result<Renewed, RenewalError> {
    if !TermFits(start, end) then Err(PeriodTooLong)
    else
      var (newStart, newEnd, months) := NextTerm(start, end).value;
      match releases
      case None => Ok(Renewed(newStart, newEnd, None))
      case Some(rs) =>
        (match ShiftAll(rs, start, newStart, newEnd, months)
         case Err(e) => Err(e)
         case Ok(out) => Ok(Renewed(newStart, newEnd, Some(Sort(out, ReleaseLeq)))))
  }

  lemma {:induction false} FirstErrorStays(rs: seq<Release>, i: nat, start: Day, newStart: Day, newEnd: Day,
                                           months: Option<int>)
    requires i <= |rs| && ShiftAll(rs[..i], start, newStart, newEnd, months).Err?
    ensures ShiftAll(rs, start, newStart, newEnd, months) == ShiftAll(rs[..i], start, newStart, newEnd, months)
  {
    if i == |rs| {
      assert rs[..i] == rs;
    } else {
      var n := |rs| - 1;
      assert rs[..n][..i] == rs[..i];
      FirstErrorStays(rs[..n], i, start, newStart, newEnd, months);
    }
  }

  method RenewalTerms(start: Day, end: Day, releases: Option<seq<Release>>) returns (r: Result<Renewed, RenewalError>)
    ensures r == RenewalOf(start, end, releases)
  {
    hide NextTerm, AddMonths, Ordinal, ShiftOne, Sort;
    var next := NextTerm(start, end);
    if next.None? {
      return Err(PeriodTooLong);
    }
    var (newStart, newEnd, months) := next.value;
    var limit := AddMonths(newStart, 12 * MAX_YEARS);
    if limit.None? || Ordinal(newEnd) > Ordinal(limit.value) {
      return Err(PeriodTooLong);
    }
    if releases.None? {
      return Ok(Renewed(newStart, newEnd, None));
    }
    var rs := releases.value;
    var out: seq<Release> := [];
    var i := 0;
    while i < |rs|
      invariant 0 <= i <= |rs|
      invariant ShiftAll(rs[..i], start, newStart, newEnd, months) == Ok(out)
    {
      assert rs[..i + 1][..i] == rs[..i];
      var one := ShiftOne(rs[i], start, newStart, newEnd, months);
      if one.Err? {
        FirstErrorStays(rs, i + 1, start, newStart, newEnd, months);
        return Err(one.error);
      }
      out := out + [one.value];
      i := i + 1;
    }
    assert rs[..i] == rs;
    r := Ok(Renewed(newStart, newEnd, Some(Sort(out, ReleaseLeq))));
  }

  // ----- what a successful renewal keeps

  function Goods(rs: seq<Release>): (g: seq<(string, real)>)
    ensures |g| == |rs|
  {
    seq(|rs|, i requires 0 <= i < |rs| => (rs[i].sku, rs[i].quantity))
  }

  lemma {:induction false} ShiftKeepsGoods(rs: seq<Release>, start: Day, newStart: Day, newEnd: Day,
                                           months: Option<int>)
    requires ShiftAll(rs, start, newStart, newEnd, months).Ok?
    ensures var out := ShiftAll(rs, start, newStart, newEnd, months).value;
            Goods(out) == Goods(rs) && forall i :: 0 <= i < |out| ==> Inside(out[i].date, newStart, newEnd)
  {
    hide Inside, ShiftReleaseDate;
    if |rs| > 0 {
      var n := |rs| - 1;
      ShiftKeepsGoods(rs[..n], start, newStart, newEnd, months);
      var init := ShiftAll(rs[..n], start, newStart, newEnd, months).value;
      var last := ShiftOne(rs[n], start, newStart, newEnd, months).value;
      assert Goods(init + [last]) == Goods(init) + [(rs[n].sku, rs[n].quantity)];
      assert Goods(rs) == Goods(rs[..n]) + [(rs[n].sku, rs[n].quantity)];
    }
  }

  lemma {:induction false} GoodsRearranged(s: seq<Release>, t: seq<Release>)
    requires multiset(s) == multiset(t)
    ensures multiset(Goods(s)) == multiset(Goods(t))
    decreases |s|
  {
    hide Goods;
    GoodsConcat([], []);
    if |s| == 0 {
      assert |multiset(t)| == 0;
    } else {
      var k := Sums.DropLast(s, t);
      var rest, last := t[..k] + t[k + 1..], t[k];
      GoodsRearranged(s[..|s| - 1], rest);
      assert s == s[..|s| - 1] + [last] && t == t[..k] + [last] + t[k + 1..];
      GoodsConcat(s[..|s| - 1], [last]);
      GoodsConcat(t[..k] + [last], t[k + 1..]);
      GoodsConcat(t[..k], [last]);
      GoodsConcat(t[..k], t[k + 1..]);
    }
  }

  lemma {:induction false} GoodsConcat(a: seq<Release>, b: seq<Release>)
    ensures Goods(a + b) == Goods(a) + Goods(b)
  {
  }

  /** A successful renewal keeps what is delivered, stays inside the new term and is sorted. */
  lemma {:induction false} RenewalKeepsGoods(start: Day, end: Day, rs: seq<Release>)
    requires RenewalOf(start, end, Some(rs)).Ok?
    ensures var r := RenewalOf(start, end, Some(rs)).value;
            r.releases.Some? && multiset(Goods(r.releases.value)) == multiset(Goods(rs))
            && SortedBy(r.releases.value, ReleaseLeq)
            && (forall i :: 0 <= i < |r.releases.value| ==> Inside(r.releases.value[i].date, r.start, r.end))
            && r.start == Succ(end) && Ordinal(r.end) <= Ordinal(AddMonths(r.start, 12 * MAX_YEARS).value)
  {
    hide Inside, ReleaseLeq, AddMonths, Sort, Goods;
    var (newStart, newEnd, months) := NextTerm(start, end).value;
    var out := ShiftAll(rs, start, newStart, newEnd, months).value;
    ShiftKeepsGoods(rs, start, newStart, newEnd, months);
    ReleaseOrder();
    SortSorted(out, ReleaseLeq);
    GoodsRearranged(Sort(out, ReleaseLeq), out);
    SameElements(Sort(out, ReleaseLeq), out);
    forall i | 0 <= i < |Sort(out, ReleaseLeq)| ensures Inside(Sort(out, ReleaseLeq)[i].date, newStart, newEnd) {
      assert Sort(out, ReleaseLeq)[i] in out;
    }
  }

  /** Release by release, what a successful renewal moves each of them to. */
  lemma {:induction false} ShiftedOneByOne(rs: seq<Release>, start: Day, newStart: Day, newEnd: Day,
                                           months: Option<int>)
    requires ShiftAll(rs, start, newStart, newEnd, months).Ok?
    ensures var out := ShiftAll(rs, start, newStart, newEnd, months).value;
            |out| == |rs|
            && forall i :: 0 <= i < |rs| ==>
                 out[i].sku == rs[i].sku && out[i].quantity == rs[i].quantity
                 && ShiftReleaseDate(rs[i].date, start, newStart, months) == Some(out[i].date)
  {
    hide Inside, ShiftReleaseDate;
    if |rs| > 0 {
      ShiftedOneByOne(rs[..|rs| - 1], start, newStart, newEnd, months);
    }
  }

  /** A renewed schedule is the old one with every release moved as its term is. */
  lemma {:induction false} RenewalMoves(start: Day, end: Day, rs: seq<Release>) returns (moved: seq<Release>)
    requires RenewalOf(start, end, Some(rs)).Ok?
    ensures var r := RenewalOf(start, end, Some(rs)).value;
            var (newStart, newEnd, months) := NextTerm(start, end).value;
            r.start == newStart && r.end == newEnd
            && r.releases.Some? && multiset(r.releases.value) == multiset(moved) && |moved| == |rs|
            && forall i :: 0 <= i < |rs| ==>
                 moved[i].sku == rs[i].sku && moved[i].quantity == rs[i].quantity
                 && MovedInto(rs[i].date, moved[i].date, start, newStart, months)
  {
    hide AddMonths, Sort, MovedInto, NextTerm, ShiftReleaseDate, ReleaseLeq;
    FitsHasNext(start, end);
    var (newStart, newEnd, months) := NextTerm(start, end).value;
    moved := ShiftAll(rs, start, newStart, newEnd, months).value;
    ShiftedOneByOne(rs, start, newStart, newEnd, months);
    ReleaseOrder();
    SortSorted(moved, ReleaseLeq);
    forall i | 0 <= i < |rs| ensures MovedInto(rs[i].date, moved[i].date, start, newStart, months) {
      ShiftMoves(rs[i].date, start, end, moved[i].date);
    }
  }

  /** A refusal names the first release that cannot move, with the date it would have had. */
  lemma {:induction false} RefusesFirst(start: Day, end: Day, rs: seq<Release>) returns (i: nat)
    requires TermFits(start, end) && RenewalOf(start, end, Some(rs)).Err?
    ensures var (newStart, newEnd, months) := NextTerm(start, end).value;
            i < |rs| && (forall j :: 0 <= j < i ==> ShiftOne(rs[j], start, newStart, newEnd, months).Ok?)
            && match RenewalOf(start, end, Some(rs)).error
               case ReleaseOutOfPeriod(sku, date, shifted) =>
                 sku == rs[i].sku && date == rs[i].date && !Inside(shifted, newStart, newEnd)
                 && MovedInto(date, shifted, start, newStart, months)
               case PeriodTooLong => ShiftReleaseDate(rs[i].date, start, newStart, months) == None
  {
    hide AddMonths, MovedInto, NextTerm, ShiftReleaseDate, Inside;
    FitsHasNext(start, end);
    var (newStart, newEnd, months) := NextTerm(start, end).value;
    i := FirstFailure(rs, start, newStart, newEnd, months);
    if ShiftReleaseDate(rs[i].date, start, newStart, months).Some? {
      ShiftMoves(rs[i].date, start, end, ShiftReleaseDate(rs[i].date, start, newStart, months).value);
    }
  }

  lemma {:induction false} FirstFailure(rs: seq<Release>, start: Day, newStart: Day, newEnd: Day,
                                        months: Option<int>) returns (i: nat)
    requires ShiftAll(rs, start, newStart, newEnd, months).Err?
    ensures i < |rs| && forall j :: 0 <= j < i ==> ShiftOne(rs[j], start, newStart, newEnd, months).Ok?
    ensures var one := ShiftOne(rs[i], start, newStart, newEnd, months);
            one.Err? && one.error == ShiftAll(rs, start, newStart, newEnd, months).error
  {
    hide ShiftOne;
    var n := |rs| - 1;
    if ShiftAll(rs[..n], start, newStart, newEnd, months).Err? {
      i := FirstFailure(rs[..n], start, newStart, newEnd, months);
    } else {
      i := n;
      AllMoved(rs[..n], start, newStart, newEnd, months);
    }
  }

  lemma {:induction false} AllMoved(rs: seq<Release>, start: Day, newStart: Day, newEnd: Day, months: Option<int>)
    requires ShiftAll(rs, start, newStart, newEnd, months).Ok?
    ensures forall j :: 0 <= j < |rs| ==> ShiftOne(rs[j], start, newStart, newEnd, months).Ok?
  {
    hide ShiftOne;
    if |rs| > 0 {
      AllMoved(rs[..|rs| - 1], start, newStart, newEnd, months);
    }
  }

  /** Ten years: the new term may end on the day 120 months after its start, and no later. */
  lemma {:induction false} FitsExactly(start: Day, end: Day, limit: Day)
    requires NextTerm(start, end).Some?
    requires var s := NextTerm(start, end).value.0;
             limit.MonthIndex() == s.MonthIndex() + 120 && limit.day == Min(s.day, Length(limit.MonthIndex()))
    ensures TermFits(start, end)
       <==> InRange(limit.MonthIndex()) && Ordinal(NextTerm(start, end).value.1) <= Ordinal(limit)
  {
    hide AddMonths, Ordinal, NextTerm, Length;
    var s := NextTerm(start, end).value.0;
    AddMonthsMeans(s, 120);
    if InRange(limit.MonthIndex()) {
      SameMonthDay(AddMonths(s, 120).value, limit);
    }
  }

  // ----- exactly when a release falls out of the renewed term

  ghost predicate AllInside(rs: seq<Release>, start: Day, end: Day) {
    forall i :: 0 <= i < |rs| ==> Inside(rs[i].date, start, end)
  }

  /**
  The release is in the month the new term starts in, on a day the matching month of the next
  term does not reach past.
  */
  predicate FallsOut(d: Day, newStart: Day, m: int) {
    d.MonthIndex() == newStart.MonthIndex() && d.day >= Length(newStart.MonthIndex() + m)
  }

  lemma {:induction false} ShiftInDays(d: Day, start: Day, end: Day)
    requires WholeMonths(start, end).None? && Inside(d, start, end)
    ensures var (newStart, newEnd, months) := NextTerm(start, end).value;
            ShiftReleaseDate(d, start, newStart, months).Some?
            && Inside(ShiftReleaseDate(d, start, newStart, months).value, newStart, newEnd)
  {
    SuccOrdinal(end);
    PlusDaysOrdinal(Succ(end), DaysBetween(end, start));
    PlusDaysOrdinal(d, DaysBetween(Succ(end), start));
  }

  /** A whole-month move stays inside the new term except in the one clamped case. */
  lemma {:induction false} ShiftInMonths(d: Day, start: Day, end: Day, m: int)
    requires Stored(start) && IsTerm(start, end, m) && NextTerm(start, end).Some? && Inside(d, start, end)
    ensures var (newStart, newEnd, months) := NextTerm(start, end).value;
            var shifted := ShiftReleaseDate(d, start, newStart, months);
            shifted.Some? && (Inside(shifted.value, newStart, newEnd) <==> !FallsOut(d, newStart, m))
  {
    hide AddMonths, Ordinal, Length, Pred, Succ;
    var (newStart, newEnd, months) := NextTerm(start, end).value;
    NextWholeTerm(start, end, m);
    AddMonthsMeans(start, m);
    AddMonthsMeans(newStart, m);
    AddMonthsMeans(d, m);
    SuccPred(AddMonths(newStart, m).value);
    SuccOrdinal(end);
    OrderByMonth(d, newStart);
    OrderByMonth(d, start);
    AddMonthsMonotone(start, d, m);
    OrderByMonth(AddMonths(d, m).value, AddMonths(newStart, m).value);
  }

  lemma {:induction false} ShiftAllOutcome(rs: seq<Release>, start: Day, newStart: Day, newEnd: Day,
                                           months: Option<int>)
    requires forall i :: 0 <= i < |rs| ==> ShiftReleaseDate(rs[i].date, start, newStart, months).Some?
    ensures var r := ShiftAll(rs, start, newStart, newEnd, months);
            (r.Err? ==> r.error.ReleaseOutOfPeriod?)
            && (r.Err? <==> exists i :: 0 <= i < |rs| && ShiftOne(rs[i], start, newStart, newEnd, months).Err?)
  {
    hide ShiftReleaseDate, Inside;
    if |rs| > 0 {
      ShiftAllOutcome(rs[..|rs| - 1], start, newStart, newEnd, months);
    }
  }

  /** A term counted in days never pushes its own releases out. */
  lemma {:induction false} DayTermsNeverRefuse(start: Day, end: Day, rs: seq<Release>)
    requires WholeMonths(start, end).None? && TermFits(start, end) && AllInside(rs, start, end)
    ensures RenewalOf(start, end, Some(rs)).Ok?
  {
    hide WholeMonths, TermFits, Inside, ShiftReleaseDate, NextTerm;
    FitsHasNext(start, end);
    var (newStart, newEnd, months) := NextTerm(start, end).value;
    forall i | 0 <= i < |rs|
      ensures ShiftReleaseDate(rs[i].date, start, newStart, months).Some?
      ensures ShiftOne(rs[i], start, newStart, newEnd, months).Ok?
    {
      ShiftInDays(rs[i].date, start, end);
    }
    ShiftAllOutcome(rs, start, newStart, newEnd, months);
  }

  /** A whole-month term refuses exactly for a release in the clamped tail of the starting month. */
  lemma {:induction false} MonthTermsRefuseExactly(start: Day, end: Day, m: int, rs: seq<Release>)
    requires Stored(start) && IsTerm(start, end, m) && TermFits(start, end) && AllInside(rs, start, end)
    ensures var r := RenewalOf(start, end, Some(rs));
            (r.Err? ==> r.error.ReleaseOutOfPeriod?)
            && (r.Err? <==> exists i :: 0 <= i < |rs| && FallsOut(rs[i].date, Succ(end), m))
  {
    hide IsTerm, TermFits, Inside, ShiftReleaseDate, NextTerm, FallsOut, Succ;
    FitsHasNext(start, end);
    var (newStart, newEnd, months) := NextTerm(start, end).value;
    NextWholeTerm(start, end, m);
    forall i | 0 <= i < |rs|
      ensures ShiftReleaseDate(rs[i].date, start, newStart, months).Some?
      ensures ShiftOne(rs[i], start, newStart, newEnd, months).Err? <==> FallsOut(rs[i].date, newStart, m)
    {
      ShiftInMonths(rs[i].date, start, end, m);
    }
    ShiftAllOutcome(rs, start, newStart, newEnd, months);
  }

  /** From a start day of at most 28 the clamped case cannot arise. */
  lemma {:induction false} NeverRefusedUpTo28(start: Day, end: Day, m: int, rs: seq<Release>)
    requires Stored(start) && IsTerm(start, end, m) && TermFits(start, end) && AllInside(rs, start, end)
    requires start.day <= 28
    ensures RenewalOf(start, end, Some(rs)).Ok?
  {
    hide IsTerm, TermFits, Length, AddMonths, Ordinal;
    MonthTermsRefuseExactly(start, end, m, rs);
    NextWholeTerm(start, end, m);
    TermLands(start, end, m);
    SuccOrdinal(end);
    forall i | 0 <= i < |rs| ensures !FallsOut(rs[i].date, Succ(end), m) {
      assert Inside(rs[i].date, start, end);
      OrderByMonth(rs[i].date, Succ(end));
    }
  }

  lemma {:induction false} TermLands(start: Day, end: Day, m: int)
    requires IsTerm(start, end, m)
    ensures Succ(end).day <= start.day
  {
    NextWholeTerm(start, end, m);
    AddMonthsMeans(start, m);
  }

  lemma {:induction false} JanuaryIsTerm()
    ensures IsTerm(Date(2025, 12, 31), Date(2026, 1, 30), 1)
  {
  }

  lemma {:induction false} FebruaryFollows()
    ensures Succ(Date(2026, 1, 30)) == Date(2026, 1, 31)
    ensures AddMonths(Date(2026, 1, 31), 1) == Some(Date(2026, 2, 28)) && Pred(Date(2026, 2, 28)) == Date(2026, 2, 27)
  {
  }

  lemma {:induction false} JanuaryTerm()
    ensures var start, end := Date(2025, 12, 31), Date(2026, 1, 30);
            IsTerm(start, end, 1) && NextTerm(start, end) == Some((Date(2026, 1, 31), Date(2026, 2, 27), Some(1)))
  {
    hide WholeMonths, PlusDays, DaysBetween, IsTerm, AddMonths, Succ, Pred;
    JanuaryIsTerm();
    FebruaryFollows();
    WholeMonthsExact(Date(2025, 12, 31), Date(2026, 1, 30), 1);
  }

  lemma {:induction false} JanuaryFits()
    ensures TermFits(Date(2025, 12, 31), Date(2026, 1, 30))
  {
    hide NextTerm, Ordinal, IsTerm;
    JanuaryTerm();
    OrdinalOrder(Date(2026, 2, 27), Date(2036, 1, 31));
  }

  lemma {:induction false} JanuaryShift()
    ensures ShiftOne(Release("A", Date(2026, 1, 30), 1.0), Date(2025, 12, 31), Date(2026, 1, 31),
        Date(2026, 2, 27), Some(1))
         == Err(ReleaseOutOfPeriod("A", Date(2026, 1, 30), Date(2026, 2, 28)))
  {
    hide Ordinal;
    OrdinalOrder(Date(2026, 2, 27), Date(2026, 2, 28));
  }

  /**
  31 December to 30 January with a release on 30 January is refused: it would move to 28
  February, after the new end.
  */
  lemma {:induction false} RefusalWitness()
    ensures var start, end := Date(2025, 12, 31), Date(2026, 1, 30);
            RenewalOf(start, end, Some([Release("A", end, 1.0)]))
                == Err(ReleaseOutOfPeriod("A", end, Date(2026, 2, 28)))
  {
    hide NextTerm, TermFits, ShiftOne, IsTerm;
    JanuaryTerm();
    JanuaryFits();
    JanuaryShift();
    var rs := [Release("A", Date(2026, 1, 30), 1.0)];
    assert rs[..0] == [];
    assert ShiftAll(rs[..0], Date(2025, 12, 31), Date(2026, 1, 31), Date(2026, 2, 27), Some(1)) == Ok([]);
  }
}
