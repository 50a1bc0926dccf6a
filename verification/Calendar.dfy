/**
 UTC calendar dates with the month arithmetic of ECMAScript Date objects (ECMA-262,
 section 21.4.1). A date is year, month 0..11 and day of month.
 */
module Calendar {
  import opened Prelude

  datatype Date = Date(year: int, month: int, day: int) {
    predicate Valid() {
      0 <= month < 12 && 1 <= day <= DaysInMonth(year, month)
    }
  }

  predicate IsMultiple(year: int, k: int)
    requires k > 0
  {
    year % k == 0
  }

  predicate IsLeap(year: int) {
    IsMultiple(year, 4) && (!IsMultiple(year, 100) || IsMultiple(year, 400))
  }

  function DaysInMonth(year: int, month: int): (days: int)
    requires 0 <= month < 12
    ensures 28 <= days <= 31
  {
    if month == 1 then (if IsLeap(year) then 29 else 28)
    else if month in {3, 5, 8, 10} then 30
    else 31
  }

  /**
   MakeDay of ECMA-262 for the two shapes the code uses: any month offset, which carries into
   the year, and either a day inside the month or day 0, the last day of the month before.
   */
  function MakeDay(year: int, month: int, day: int): (d: Date)
    requires 0 <= day <= 28
    ensures d.Valid()
  {
    var first := Date(year + month / 12, month % 12, 1);
    if day > 0 then first.(day := day)
    else
      var y := year + (month - 1) / 12;
      var m := (month - 1) % 12;
      Date(y, m, DaysInMonth(y, m))
  }

  /** MakeFullYear of ECMA-262: Date.UTC reads a year of at most two digits as one of the 1900s. */
  function FullYear(year: int): int {
    if 0 <= year <= 99 then 1900 + year else year
  }

  function Utc(year: int, month: int, day: int): (d: Date)
    requires 0 <= day <= 28
    ensures d.Valid()
  {
    MakeDay(FullYear(year), month, day)
  }

  /**
   addMonths: the calls on the intermediate Date objects in order. Every row is counted
   from the first due date, never from the row before.
   */
  method AddMonths(date: Date, months: int) returns (r: Date)
    requires date.Valid()
    ensures r == DueDate(date, months)
  {
    r := Utc(date.year, date.month, 1);
    r := MakeDay(r.year, r.month + months, r.day);
    var lastDayOfTargetMonth := Utc(r.year, r.month + 1, 0).day;
    r := r.(day := Min(date.day, lastDayOfTargetMonth));
  }

  /** The date the original promises: so many calendar months on, clamped to a short month. */
  function MonthsLater(date: Date, months: int): (r: Date)
    requires date.Valid()
    ensures r.Valid()
  {
    Clamped(MonthIndex(date) + months, date.day)
  }

  /** The day in the month with this index, or the last day of a month too short for it. */
  function Clamped(index: int, day: int): (r: Date)
    requires 1 <= day <= 31
    ensures r.Valid()
  {
    FirstOf(index).(day := Min(day, LengthOf(index)))
  }

  /**
   The date the original computes. Both readings of a year go through FullYear: that of the
   given date, and that of the target month when its length is looked up.
   */
  function DueDate(date: Date, months: int): (r: Date)
    requires date.Valid()
    ensures r.Valid()
  {
    var first := FirstOf(TargetMonth(date, months));
    first.(day := Min(date.day, DaysInMonth(FullYear(first.year), first.month)))
  }

  function TargetMonth(date: Date, months: int): int {
    12 * FullYear(date.year) + date.month + months
  }

  /** The first day of the month with this index. */
  function FirstOf(index: int): (d: Date)
    ensures d.Valid()
  {
    Date(index / 12, index % 12, 1)
  }

  function LengthOf(index: int): (days: int)
    ensures 28 <= days <= 31
  {
    DaysInMonth(FirstOf(index).year, FirstOf(index).month)
  }

  /** Months since year 0. */
  function MonthIndex(d: Date): int {
    12 * d.year + d.month
  }

  /** Whole periods of k years from a base year. */
  function Elapsed(year: int, base: int, k: int): int
    requires k > 0
  {
    (year - base) / k
  }

  /** DayFromYear of ECMA-262: days from 1970-01-01 to the first day of the year. */
  function DayFromYear(year: int): int {
    365 * (year - 1970) + Elapsed(year, 1969, 4) - Elapsed(year, 1901, 100) + Elapsed(year, 1601, 400)
  }

  function DaysBeforeMonth(year: int, month: int): int
    requires 0 <= month < 12
  {
    if month == 0 then 0 else DaysBeforeMonth(year, month - 1) + DaysInMonth(year, month - 1)
  }

  /** Day number of a date, 1970-01-01 being 0. */
  function DayNumber(d: Date): int
    requires 0 <= d.month < 12
  {
    DayFromYear(d.year) + DaysBeforeMonth(d.year, d.month) + d.day - 1
  }

  lemma YearLength(year: int)
    ensures DayFromYear(year + 1) == DayFromYear(year) + (if IsLeap(year) then 366 else 365)
  {
    StepElapsed(year, 1969, 4);
    StepElapsed(year, 1901, 100);
    StepElapsed(year, 1601, 400);
    CenturiesAreMultiples(year);
  }

  lemma CenturiesAreMultiples(year: int)
    ensures IsMultiple(year, 400) ==> IsMultiple(year, 100)
    ensures IsMultiple(year, 100) ==> IsMultiple(year, 4)
  {
  }

  lemma StepElapsed(year: int, base: int, k: int)
    requires k > 0 && (base - 1) % k == 0
    ensures Elapsed(year + 1, base, k) == Elapsed(year, base, k) + (if IsMultiple(year, k) then 1 else 0)
  {
    var c := (base - 1) / k;
    var q := (year - base) / k;
    var rem := (year - base) % k;
    assert base == k * c + 1;
    assert year == k * (q + c) + rem + 1;
    if rem == k - 1 {
      QuotientIs(year, q + c + 1, 0, k);
      QuotientIs(year + 1 - base, q + 1, 0, k);
    } else {
      QuotientIs(year, q + c, rem + 1, k);
      QuotientIs(year + 1 - base, q, rem + 1, k);
    }
  }

  lemma QuotientIs(n: int, q: int, r: int, k: int)
    requires k > 0 && 0 <= r < k && n == k * q + r
    ensures n / k == q && n % k == r
  {
    var d := n / k - q;
    assert k * d == r - n % k;
    MultipleIsFar(k, d);
  }

  lemma MultipleIsFar(k: int, d: int)
    requires k > 0
    ensures d >= 1 ==> k * d >= k
    ensures d <= -1 ==> k * d <= -k
  {
  }

  /** Day numbers step by exactly the length of the month, across year ends too. */
  lemma MonthLength(index: int)
    ensures DayNumber(FirstOf(index + 1)) == DayNumber(FirstOf(index)) + LengthOf(index)
  {
    var year, month := FirstOf(index).year, FirstOf(index).month;
    NextMonth(index);
    if month == 11 {
      YearLength(year);
      MonthsStartOnDay(year);
    }
  }

  lemma NextMonth(index: int)
    ensures FirstOf(index + 1) ==
      if FirstOf(index).month == 11 then Date(FirstOf(index).year + 1, 0, 1)
      else Date(FirstOf(index).year, FirstOf(index).month + 1, 1)
  {
    if index % 12 == 11 {
      QuotientIs(index + 1, index / 12 + 1, 0, 12);
    } else {
      QuotientIs(index + 1, index / 12, index % 12 + 1, 12);
    }
  }

  /** The thresholds of MonthFromTime in ECMA-262: on which day of the year each month starts. */
  lemma MonthsStartOnDay(year: int)
    ensures var leapDay := if IsLeap(year) then 1 else 0;
      && DaysBeforeMonth(year, 0) == 0 && DaysBeforeMonth(year, 1) == 31
      && DaysBeforeMonth(year, 2) == 59 + leapDay && DaysBeforeMonth(year, 3) == 90 + leapDay
      && DaysBeforeMonth(year, 4) == 120 + leapDay && DaysBeforeMonth(year, 5) == 151 + leapDay
      && DaysBeforeMonth(year, 6) == 181 + leapDay && DaysBeforeMonth(year, 7) == 212 + leapDay
      && DaysBeforeMonth(year, 8) == 243 + leapDay && DaysBeforeMonth(year, 9) == 273 + leapDay
      && DaysBeforeMonth(year, 10) == 304 + leapDay && DaysBeforeMonth(year, 11) == 334 + leapDay
  {
    var leapDay := if IsLeap(year) then 1 else 0;
    assert DaysBeforeMonth(year, 1) == 31;
    assert DaysBeforeMonth(year, 2) == 59 + leapDay;
    assert DaysBeforeMonth(year, 4) == 120 + leapDay;
    assert DaysBeforeMonth(year, 6) == 181 + leapDay;
    assert DaysBeforeMonth(year, 8) == 243 + leapDay;
    assert DaysBeforeMonth(year, 10) == 304 + leapDay;
  }

  /**
   No drift: the k-th later date is exactly k calendar months after the first and falls on
   the first date's day, or on the last day of a month too short for it.
   */
  lemma NoDrift(first: Date, k: int)
    requires first.Valid()
    ensures MonthIndex(MonthsLater(first, k)) == MonthIndex(first) + k
    ensures MonthsLater(first, k).day == Min(first.day, DaysInMonth(MonthsLater(first, k).year, MonthsLater(first, k).month))
    ensures MonthsLater(first, 0) == first
  {
  }

  /** The target is February of year 0, a leap year whose length is read off 1900, and the day is its 29th or beyond. */
  predicate CutShort(first: Date, k: int) {
    TargetMonth(first, k) == 1 && first.day >= 29
  }

  /**
   The code computes the promised date exactly when the first year is not read as one of the
   1900s and the target is not cut short; so always from year 100 on.
   */
  lemma AddsMonthsExactlyWhen(first: Date, k: int)
    requires first.Valid()
    ensures DueDate(first, k) == MonthsLater(first, k) <==> !(0 <= first.year <= 99) && !CutShort(first, k)
    ensures first.year >= 100 && k >= 0 ==> DueDate(first, k) == MonthsLater(first, k)
  {
    DueDateIs(first, k);
    MonthOfClamped(TargetMonth(first, k), first.day);
    MonthOfClamped(MonthIndex(first) + k, first.day);
  }

  lemma MonthOfClamped(index: int, day: int)
    requires 1 <= day <= 31
    ensures MonthIndex(Clamped(index, day)) == index
    ensures index == 1 && day >= 29 ==> Clamped(index, day) == Date(0, 1, 29)
  {
  }

  lemma DueDateIs(first: Date, k: int)
    requires first.Valid()
    ensures DueDate(first, k) == if CutShort(first, k) then Date(0, 1, 28) else Clamped(TargetMonth(first, k), first.day)
  {
    var target := FirstOf(TargetMonth(first, k));
    if 1 <= target.year <= 99 { CenturyOn(target.year); }
  }

  lemma CenturyOn(year: int)
    requires 1 <= year <= 99
    ensures IsLeap(1900 + year) == IsLeap(year)
  {
  }

  /**
   Consecutive due dates are 28 to 31 days apart, with one exception that the cut month makes:
   32 days from 28 February to 31 March of year 0.
   */
  lemma MonthlyGaps(first: Date, k: int)
    requires first.Valid()
    ensures var gap := DayNumber(DueDate(first, k + 1)) - DayNumber(DueDate(first, k));
      && (28 <= gap <= 31 <==> !(CutShort(first, k) && first.day == 31))
      && 28 <= gap <= 32
  {
    DueDateIs(first, k);
    DueDateIs(first, k + 1);
    if CutShort(first, k) || CutShort(first, k + 1) {
      YearZero(first.day);
    } else {
      ClampedGap(TargetMonth(first, k), TargetMonth(first, k + 1), first.day);
    }
  }

  /** Days around February of year 0. */
  lemma YearZero(day: int)
    requires 29 <= day <= 31
    ensures Clamped(0, day) == Date(0, 0, day) && Clamped(2, day) == Date(0, 2, day)
    ensures DayNumber(Date(0, 1, 28)) - DayNumber(Date(0, 0, day)) == 59 - day
    ensures DayNumber(Date(0, 2, day)) - DayNumber(Date(0, 1, 28)) == day + 1
  {
    assert DaysBeforeMonth(0, 1) == 31;
    assert DaysBeforeMonth(0, 2) == 60;
  }

  lemma ClampedGap(index: int, next: int, day: int)
    requires 1 <= day <= 31 && next == index + 1
    ensures 28 <= DayNumber(Clamped(next, day)) - DayNumber(Clamped(index, day)) <= 31
  {
    MonthLength(index);
    DayWithinMonth(index, day);
    DayWithinMonth(next, day);
    GapBetween(day, DayNumber(FirstOf(index)), DayNumber(FirstOf(next)), LengthOf(index), LengthOf(next),
               DayNumber(Clamped(index, day)), DayNumber(Clamped(next, day)));
  }

  lemma GapBetween(day: int, start: int, nextStart: int, length: int, nextLength: int, due: int, nextDue: int)
    requires 1 <= day <= 31 && 28 <= length <= 31 && 28 <= nextLength <= 31 && nextStart == start + length
    requires due == start + Min(day, length) - 1 && nextDue == nextStart + Min(day, nextLength) - 1
    ensures 28 <= nextDue - due <= 31
  {
  }

  lemma DayWithinMonth(index: int, day: int)
    requires 1 <= day <= 31
    ensures DayNumber(Clamped(index, day)) == DayNumber(FirstOf(index)) + Min(day, LengthOf(index)) - 1
  {
  }

  /** Over any stretch of rows the dates strictly increase, by at least 28 days a row and, from year 100 on, at most 31. */
  lemma {:induction false} DueDatesIncrease(first: Date, j: int, k: int)
    requires first.Valid() && j <= k
    ensures 28 * (k - j) <= DayNumber(DueDate(first, k)) - DayNumber(DueDate(first, j))
    ensures first.year >= 100 && j >= 0 ==> DayNumber(DueDate(first, k)) - DayNumber(DueDate(first, j)) <= 31 * (k - j)
    decreases k - j
  {
    if j < k {
      DueDatesIncrease(first, j, k - 1);
      MonthlyGaps(first, k - 1);
    }
  }

  /** Counting from the previous row instead would drift: 31 January, 28 February, 28 March. */
  lemma StepwiseWouldDrift()
    ensures DueDate(DueDate(Date(2026, 0, 31), 1), 1) == Date(2026, 2, 28)
    ensures DueDate(Date(2026, 0, 31), 2) == Date(2026, 2, 31)
  {
  }
}
