/**
The proleptic Gregorian calendar as the contract code uses it
(backend-rs/src/contract_renewal.rs:50-76).

Days are year, month and day. Two numberings turn questions about dates into arithmetic:

- `Ordinal` numbers the days, so day arithmetic is integer arithmetic;
- `MonthIndex` numbers the months, so a move by months is an addition and a clamp.
*/
module Calendar {
  import opened Algebra
  import opened Wrappers

  datatype Date = Date(year: int, month: int, day: int) {
    predicate Valid() {
      1 <= month <= 12 && 1 <= day <= DaysInMonth(year, month)
    }

    /** Months counted from year zero. */
    function MonthIndex(): int {
      12 * year + month - 1
    }
  }

  type Day = d: Date | d.Valid() witness Date(1, 1, 1)

  predicate Leap(y: int) {
    y % 4 == 0 && (y % 100 != 0 || y % 400 == 0)
  }

  function DaysInMonth(y: int, m: int): (n: int)
    ensures 28 <= n <= 31
  {
    if m == 2 then (if Leap(y) then 29 else 28)
    else if m == 4 || m == 6 || m == 9 || m == 11 then 30
    else 31
  }

  /** Days in the month with the given index. */
  function Length(index: int): (n: int)
    ensures 28 <= n <= 31
  {
    DaysInMonth(index / 12, index % 12 + 1)
  }

  // ----- days as numbers

  function DaysBeforeYear(y: int): int {
    365 * (y - 1) + (y - 1) / 4 - (y - 1) / 100 + (y - 1) / 400
  }

  function DaysBeforeMonth(y: int, m: int): int
    requires 1 <= m <= 12
    decreases m
  {
    if m == 1 then 0 else DaysBeforeMonth(y, m - 1) + DaysInMonth(y, m - 1)
  }

  function Ordinal(d: Day): int {
    DaysBeforeYear(d.year) + DaysBeforeMonth(d.year, d.month) + d.day
  }

  predicate Before(a: Day, b: Day) {
    a.year < b.year || (a.year == b.year && (a.month < b.month || (a.month == b.month && a.day < b.day)))
  }

  function Succ(d: Day): Day {
    if d.day < DaysInMonth(d.year, d.month) then Date(d.year, d.month, d.day + 1)
    else if d.month < 12 then Date(d.year, d.month + 1, 1)
    else Date(d.year + 1, 1, 1)
  }

  function Pred(d: Day): Day {
    if d.day > 1 then Date(d.year, d.month, d.day - 1)
    else if d.month > 1 then Date(d.year, d.month - 1, DaysInMonth(d.year, d.month - 1))
    else Date(d.year - 1, 12, 31)
  }

  lemma {:induction false} LeapStep(y: int)
    ensures DaysBeforeYear(y + 1) == DaysBeforeYear(y) + (if Leap(y) then 366 else 365)
  {
    Quotient4(y);
    Quotient100(y);
    Quotient400(y);
  }

  lemma {:induction false} Quotient4(y: int)
    ensures y / 4 == (y - 1) / 4 + (if y % 4 == 0 then 1 else 0)
  {
  }

  lemma {:induction false} Quotient100(y: int)
    ensures y / 100 == (y - 1) / 100 + (if y % 100 == 0 then 1 else 0)
    ensures y % 100 == 0 ==> y % 4 == 0
  {
  }

  lemma {:induction false} Quotient400(y: int)
    ensures y / 400 == (y - 1) / 400 + (if y % 400 == 0 then 1 else 0)
    ensures y % 400 == 0 ==> y % 100 == 0
  {
  }

  lemma {:induction false} YearLength(y: int)
    ensures DaysBeforeMonth(y, 12) + 31 == if Leap(y) then 366 else 365
  {
    assert DaysBeforeMonth(y, 4) == DaysInMonth(y, 2) + 62;
    assert DaysBeforeMonth(y, 7) == DaysInMonth(y, 2) + 153;
    assert DaysBeforeMonth(y, 10) == DaysInMonth(y, 2) + 245;
  }

  /** The day after and the day before are one apart in the numbering. */
  lemma {:induction false} SuccOrdinal(d: Day)
    ensures Ordinal(Succ(d)) == Ordinal(d) + 1
  {
    hide DaysBeforeYear;
    LeapStep(d.year);
    YearLength(d.year);
  }

  lemma {:induction false} PredOrdinal(d: Day)
    ensures Ordinal(Pred(d)) == Ordinal(d) - 1 && Succ(Pred(d)) == d
  {
    SuccOrdinal(Pred(d));
  }

  lemma {:induction false} MonthsMonotone(y: int, m: int, n: int)
    requires 1 <= m <= n <= 12
    ensures DaysBeforeMonth(y, m) <= DaysBeforeMonth(y, n)
    ensures m < n ==> DaysBeforeMonth(y, m) + DaysInMonth(y, m) <= DaysBeforeMonth(y, n)
    decreases n
  {
    if m < n {
      MonthsMonotone(y, m, n - 1);
    }
  }

  lemma {:induction false} YearsMonotone(y: int, z: int)
    requires y <= z
    ensures DaysBeforeYear(y) <= DaysBeforeYear(z)
    ensures y < z ==> DaysBeforeYear(y) + (if Leap(y) then 366 else 365) <= DaysBeforeYear(z)
    decreases z - y
  {
    hide DaysBeforeYear;
    if y < z {
      YearsMonotone(y, z - 1);
      LeapStep(z - 1);
    }
  }

  lemma {:induction false} InYear(d: Day)
    ensures 1 <= DaysBeforeMonth(d.year, d.month) + d.day <= if Leap(d.year) then 366 else 365
  {
    YearLength(d.year);
    MonthsMonotone(d.year, d.month, 12);
    MonthsMonotone(d.year, 1, d.month);
  }

  /** The numbering is the calendar order, so it identifies the date. */
  lemma {:induction false} OrdinalOrder(a: Day, b: Day)
    ensures Before(a, b) <==> Ordinal(a) < Ordinal(b)
    ensures a == b <==> Ordinal(a) == Ordinal(b)
  {
    if Before(a, b) {
      EarlierOrdinal(a, b);
    } else if Before(b, a) {
      EarlierOrdinal(b, a);
    }
  }

  lemma {:induction false} EarlierOrdinal(a: Day, b: Day)
    requires Before(a, b)
    ensures Ordinal(a) < Ordinal(b)
  {
    hide DaysBeforeYear;
    InYear(a);
    InYear(b);
    if a.year < b.year {
      YearsMonotone(a.year, b.year);
    } else if a.month < b.month {
      MonthsMonotone(a.year, a.month, b.month);
    }
  }

  function PlusDays(d: Day, n: int): Day
    decreases if n < 0 then -n else n
  {
    if n == 0 then d
    else if n > 0 then PlusDays(Succ(d), n - 1)
    else PlusDays(Pred(d), n + 1)
  }

  lemma {:induction false} PlusDaysOrdinal(d: Day, n: int)
    ensures Ordinal(PlusDays(d, n)) == Ordinal(d) + n
    decreases if n < 0 then -n else n
  {
    if n > 0 {
      SuccOrdinal(d);
      PlusDaysOrdinal(Succ(d), n - 1);
    } else if n < 0 {
      PredOrdinal(d);
      PlusDaysOrdinal(Pred(d), n + 1);
    }
  }

  function DaysBetween(later: Day, earlier: Day): int {
    Ordinal(later) - Ordinal(earlier)
  }

  // ----- months

  const MAX_YEAR := 9999

  /** `start` moved `k` months, the day clamped to the month's last day; none outside years 1 to 9999. */
  function AddMonths(start: Day, k: int): Option<Day> {
    var index := start.MonthIndex() + k;
    var y := start.year + (start.month - 1 + k) / 12;
    var m := (start.month - 1 + k) % 12 + 1;
    if 1 <= y <= MAX_YEAR then Some(Date(y, m, Min(start.day, DaysInMonth(y, m)))) else None
  }

  /** The years a stored date can have. */
  predicate Stored(d: Day) {
    1 <= d.year <= MAX_YEAR
  }

  predicate InRange(index: int) {
    12 <= index < 12 * (MAX_YEAR + 1)
  }

  /** A move by `k` months lands in the month `k` further on, on the clamped day. */
  lemma {:induction false} AddMonthsMeans(start: Day, k: int)
    ensures AddMonths(start, k).Some? <==> InRange(start.MonthIndex() + k)
    ensures AddMonths(start, k).Some? ==>
      var d := AddMonths(start, k).value;
      d.MonthIndex() == start.MonthIndex() + k && d.day == Min(start.day, Length(start.MonthIndex() + k))
  {
    SplitIndex(start.year, start.month - 1 + k);
  }

  lemma {:induction false} SplitIndex(year: int, months: int)
    ensures (12 * year + months) / 12 == year + months / 12
    ensures (12 * year + months) % 12 == months % 12
  {
  }

  lemma {:induction false} IndexDetermines(a: Day, b: Day)
    requires a.MonthIndex() == b.MonthIndex()
    ensures a.year == b.year && a.month == b.month
  {
  }

  lemma {:induction false} LengthOf(d: Day)
    ensures Length(d.MonthIndex()) == DaysInMonth(d.year, d.month) && d.day <= Length(d.MonthIndex())
  {
    SplitIndex(d.year, d.month - 1);
  }

  /** Dates compare by month first, then by day of the month. */
  lemma {:induction false} OrderByMonth(a: Day, b: Day)
    ensures Ordinal(a) < Ordinal(b)
       <==> a.MonthIndex() < b.MonthIndex() || (a.MonthIndex() == b.MonthIndex() && a.day < b.day)
  {
    OrdinalOrder(a, b);
  }

  lemma {:induction false} SameMonthDay(a: Day, b: Day)
    requires a.MonthIndex() == b.MonthIndex() && a.day == b.day
    ensures a == b
  {
    IndexDetermines(a, b);
  }

  /** Moving both dates by the same number of months never reverses them. */
  lemma {:induction false} AddMonthsMonotone(a: Day, b: Day, k: int)
    requires Ordinal(a) <= Ordinal(b) && AddMonths(a, k).Some? && AddMonths(b, k).Some?
    ensures Ordinal(AddMonths(a, k).value) <= Ordinal(AddMonths(b, k).value)
  {
    AddMonthsMeans(a, k);
    AddMonthsMeans(b, k);
    OrderByMonth(a, b);
    OrderByMonth(b, a);
    OrderByMonth(AddMonths(b, k).value, AddMonths(a, k).value);
  }

  /** More months is strictly later. */
  lemma {:induction false} AddMonthsIncreases(start: Day, j: int, k: int)
    requires j < k && AddMonths(start, j).Some? && AddMonths(start, k).Some?
    ensures Ordinal(AddMonths(start, j).value) < Ordinal(AddMonths(start, k).value)
  {
    AddMonthsMeans(start, j);
    AddMonthsMeans(start, k);
    OrderByMonth(AddMonths(start, j).value, AddMonths(start, k).value);
  }

  // ----- the calendar is the Gregorian one

  lemma {:induction false} MonthLengths(y: int)
    ensures DaysInMonth(y, 1) == DaysInMonth(y, 3) == DaysInMonth(y, 5) == DaysInMonth(y, 7) == 31
    ensures DaysInMonth(y, 8) == DaysInMonth(y, 10) == DaysInMonth(y, 12) == 31
    ensures DaysInMonth(y, 4) == DaysInMonth(y, 6) == DaysInMonth(y, 9) == DaysInMonth(y, 11) == 30
  {
    hide Leap;
  }

  /** February has 29 days in the years divisible by 400, and in those divisible by 4 and not by 100. */
  lemma {:induction false} FebruaryLength(y: int, k: int)
    ensures y == 400 * k ==> DaysInMonth(y, 2) == 29
    ensures y == 4 * k && y % 100 != 0 ==> DaysInMonth(y, 2) == 29
    ensures y == 100 * k && y % 400 != 0 ==> DaysInMonth(y, 2) == 28
    ensures y % 4 != 0 ==> DaysInMonth(y, 2) == 28
  {
    if y == 400 * k {
      RemainderOf(0, 100 * k, 4);
      RemainderOf(0, k, 400);
    }
    if y == 4 * k {
      RemainderOf(0, k, 4);
    }
    if y == 100 * k {
      RemainderOf(0, k, 100);
    }
  }

  lemma {:induction false} RemainderOf(x: int, k: int, p: nat)
    requires p > 0
    ensures (x + k * p) % p == x % p && (x + k * p) / p == x / p + k
  {
    var q, r := x / p, x % p;
    var y := x + k * p;
    assert x == q * p + r;
    MulSum(q + k, q, k, p);
    assert y == (y / p) * p + y % p;
    EuclidUnique(y / p, y % p, q + k, r, p);
  }

  /** Four hundred years are 146097 days, so 97 of them are leap years. */
  lemma {:induction false} FourHundredYears(d: Day)
    ensures var later := Date(d.year + 400, d.month, d.day);
            later.Valid() && Ordinal(later) == Ordinal(d) + 146097
  {
    LeapEvery400(d.year);
    SameMonths(d.year, d.year + 400, d.month);
  }

  lemma {:induction false} LeapEvery400(y: int)
    ensures Leap(y + 400) == Leap(y)
    ensures DaysBeforeYear(y + 400) == DaysBeforeYear(y) + 146097
  {
    RemainderOf(y, 100, 4);
    RemainderOf(y, 4, 100);
    RemainderOf(y, 1, 400);
    RemainderOf(y - 1, 100, 4);
    RemainderOf(y - 1, 4, 100);
    RemainderOf(y - 1, 1, 400);
  }

  lemma {:induction false} SameMonths(y: int, z: int, m: int)
    requires 1 <= m <= 12 && Leap(y) == Leap(z)
    ensures DaysBeforeMonth(y, m) == DaysBeforeMonth(z, m)
    decreases m
  {
    if m > 1 {
      SameMonths(y, z, m - 1);
    }
  }

  /** The first day of the numbering, and a known one. */
  lemma {:induction false} KnownDays(d: Day)
    requires d.month == 1 && d.day == 1
    ensures d.year == 1 ==> Ordinal(d) == 1
    ensures d.year == 1970 ==> Ordinal(d) == 719163
  {
  }
}
