/**
 The schedule as the business defines it, without the code's loop or helpers, and the proof
 that BuildSchedule returns that schedule and no other.
 */
module ScheduleSpec {
  import opened Prelude
  import opened Rounding
  import opened RealPowers
  import opened Money
  import opened Calendar
  import opened Amortization
  import opened ScheduleLaws

  /** A twelfth of the nominal annual rate, as a fraction. */
  function MonthlyRate(req: Request): real {
    req.annualRatePercent / 1200.0
  }

  predicate WholeTenure(req: Request) {
    req.tenureMonths.Floor as real == req.tenureMonths && req.tenureMonths >= 1.0
  }

  predicate Accepted(req: Request) {
    && req.principal > 0
    && (if req.methodology.ReducingBalance? then WholeTenure(req) && MonthlyRate(req) >= 0.0 else req.tenureMonths != 0.0)
  }

  /** The instalment: one rounding for the reducing method; for the flat one the interest is rounded first. */
  predicate IsEmi(req: Request, emi: Paise)
    requires Accepted(req)
  {
    if req.methodology.ReducingBalance? then
      emi == HalfEven(ExactInstallment(req.principal, MonthlyRate(req), req.tenureMonths.Floor))
    else
      var interest := HalfEven(Times(req.principal as real, Times(MonthlyRate(req), req.tenureMonths)));
      emi == HalfEven(Over((req.principal + interest) as real, req.tenureMonths))
  }

  predicate IsRow(req: Request, s: Schedule, k: nat)
    requires k < |s.installments| && req.firstDueDate.Valid()
  {
    var row := s.installments[k];
    var base := if req.methodology.Flat? then req.principal else row.openingPrincipal;
    && row.number == k + 1 && row.dueDate == DueDate(req.firstDueDate, k)
    && row.openingPrincipal == (if k == 0 then req.principal else s.installments[k - 1].closingPrincipal)
    && row.interestDue == HalfEven(Times(base as real, MonthlyRate(req)))
    && row.totalDue == row.principalDue + row.interestDue
    && row.closingPrincipal == row.openingPrincipal - row.principalDue
    && (if (k + 1) as real == req.tenureMonths then row.closingPrincipal == 0 else row.totalDue == s.emi)
  }

  function PrincipalParts(rows: seq<Installment>): (parts: seq<Paise>)
    ensures |parts| == |rows| && forall k :: 0 <= k < |rows| ==> parts[k] == rows[k].principalDue
  {
    seq(|rows|, k requires 0 <= k < |rows| => rows[k].principalDue)
  }

  function InterestParts(rows: seq<Installment>): (parts: seq<Paise>)
    ensures |parts| == |rows| && forall k :: 0 <= k < |rows| ==> parts[k] == rows[k].interestDue
  {
    seq(|rows|, k requires 0 <= k < |rows| => rows[k].interestDue)
  }

  /** One row for each whole number of months within the tenure. */
  predicate RowPerMonth(req: Request, s: Schedule) {
    && (|s.installments| == 0 || |s.installments| as real <= req.tenureMonths)
    && (|s.installments| + 1) as real > req.tenureMonths
  }

  predicate Meets(req: Request, s: Schedule)
    requires Accepted(req) && req.firstDueDate.Valid()
  {
    && IsEmi(req, s.emi) && RowPerMonth(req, s)
    && (forall k: nat :: k < |s.installments| ==> IsRow(req, s, k))
    && s.totalPrincipal == SumMoney(PrincipalParts(s.installments))
    && s.totalInterest == SumMoney(InterestParts(s.installments))
    && s.totalPayable == SumMoney(Totals(s.installments))
  }

  // ---------- The definition leaves no freedom ----------

  lemma {:induction false} SameRowAt(req: Request, a: Schedule, b: Schedule, k: nat)
    requires Accepted(req) && req.firstDueDate.Valid() && Meets(req, a) && Meets(req, b)
    requires k < |a.installments| && k < |b.installments|
    ensures a.installments[k] == b.installments[k]
  {
    if k > 0 { SameRowAt(req, a, b, k - 1); }
    assert IsRow(req, a, k) && IsRow(req, b, k);
    SameRow(req, a, b, k);
  }

  lemma SameRow(req: Request, a: Schedule, b: Schedule, k: nat)
    requires req.firstDueDate.Valid() && k < |a.installments| && k < |b.installments|
    requires IsRow(req, a, k) && IsRow(req, b, k) && a.emi == b.emi
    requires k > 0 ==> a.installments[k - 1] == b.installments[k - 1]
    ensures a.installments[k] == b.installments[k]
  {
  }

  lemma OnlyOneSchedule(req: Request, a: Schedule, b: Schedule)
    requires Accepted(req) && req.firstDueDate.Valid() && Meets(req, a) && Meets(req, b)
    ensures a == b
  {
    SameInstallments(req, a, b);
    SameTotals(a, b);
  }

  lemma SameInstallments(req: Request, a: Schedule, b: Schedule)
    requires Accepted(req) && req.firstDueDate.Valid() && Meets(req, a) && Meets(req, b)
    ensures a.installments == b.installments && a.emi == b.emi
  {
    SameCount(|a.installments|, |b.installments|, req.tenureMonths);
    var n := |a.installments|;
    forall k | 0 <= k < n ensures a.installments[k] == b.installments[k] {
      SameRowAt(req, a, b, k);
    }
  }

  lemma SameTotals(a: Schedule, b: Schedule)
    requires a.installments == b.installments && a.emi == b.emi
    requires a.totalPrincipal == SumMoney(PrincipalParts(a.installments)) && b.totalPrincipal == SumMoney(PrincipalParts(b.installments))
    requires a.totalInterest == SumMoney(InterestParts(a.installments)) && b.totalInterest == SumMoney(InterestParts(b.installments))
    requires a.totalPayable == SumMoney(Totals(a.installments)) && b.totalPayable == SumMoney(Totals(b.installments))
    ensures a == b
  {
  }

  lemma SameCount(m: nat, n: nat, tenure: real)
    requires (m == 0 || m as real <= tenure) && (m + 1) as real > tenure
    requires (n == 0 || n as real <= tenure) && (n + 1) as real > tenure
    ensures m == n
  {
  }

  // ---------- The schedule built meets it ----------

  lemma AcceptedIsPlanned(req: Request)
    ensures PlannedEmi(req).Success? <==> Accepted(req)
    ensures RateOf(req) == MonthlyRate(req)
  {
    RateIsMonthly(req.annualRatePercent);
  }

  lemma RateIsMonthly(annualRatePercent: real)
    ensures PeriodicRate(annualRatePercent) == annualRatePercent / 1200.0
  {
  }

  lemma PlannedIsEmi(req: Request)
    requires Accepted(req)
    ensures PlannedEmi(req).Success? && IsEmi(req, PlannedEmi(req).value)
  {
    AcceptedIsPlanned(req);
    if req.methodology.ReducingBalance? {
      EquatedIsRounded(req.principal, req.annualRatePercent, req.tenureMonths.Floor);
    } else {
      FlatIsRounded(req.principal, RateOf(req), req.tenureMonths);
      MultiplyNearest(req.principal, Times(RateOf(req), req.tenureMonths));
    }
  }

  lemma BuiltRow(req: Request, s: Schedule, k: nat)
    requires Accepted(req) && req.firstDueDate.Valid() && ScheduleOf(req) == Success(s) && k < |s.installments|
    ensures IsRow(req, s, k)
  {
    AcceptedIsPlanned(req);
    var t := TermsOf(req);
    assert s.installments[k] == Row(t, IsFinal(req.tenureMonths, k), req.firstDueDate, k);
    MultiplyNearest(if req.methodology.Flat? then req.principal else Balance(t, k), t.rate);
    if k > 0 {
      assert !IsFinal(req.tenureMonths, k - 1);
      assert s.installments[k - 1] == Row(t, false, req.firstDueDate, k - 1);
      OrdinaryRow(req, k - 1);
    }
  }

  lemma {:induction false} PartsAddUp(rows: seq<Installment>)
    ensures TotalPrincipal(rows) == SumMoney(PrincipalParts(rows))
    ensures TotalInterest(rows) == SumMoney(InterestParts(rows))
  {
    if |rows| > 0 {
      var shorter := rows[..|rows| - 1];
      PartsAddUp(shorter);
      assert PrincipalParts(rows)[..|rows| - 1] == PrincipalParts(shorter);
      assert InterestParts(rows)[..|rows| - 1] == InterestParts(shorter);
    }
  }

  lemma BuiltMeets(req: Request)
    requires Accepted(req) && req.firstDueDate.Valid()
    ensures ScheduleOf(req).Success? && Meets(req, ScheduleOf(req).value)
  {
    AcceptedIsPlanned(req);
    PlannedIsEmi(req);
    var s := ScheduleOf(req).value;
    forall k: nat | k < |s.installments| ensures IsRow(req, s, k) {
      BuiltRow(req, s, k);
    }
    PartsAddUp(s.installments);
    TotalsSum(s.installments);
  }

  /** BuildSchedule succeeds exactly on accepted requests, and returns the one schedule that meets the definition. */
  lemma ScheduleExactlyWhen(req: Request, s: Schedule)
    requires req.firstDueDate.Valid()
    ensures ScheduleOf(req) == Success(s) <==> Accepted(req) && Meets(req, s)
  {
    AcceptedIsPlanned(req);
    if Accepted(req) {
      BuiltMeets(req);
      if Meets(req, s) { OnlyOneSchedule(req, s, ScheduleOf(req).value); }
    }
  }

  /** The refusals, in the order in which they are made. */
  lemma ScheduleRefusals(req: Request)
    requires req.firstDueDate.Valid()
    ensures ScheduleOf(req) == Failure(PrincipalNotPositive) <==> req.principal <= 0
    ensures ScheduleOf(req) == Failure(TenureNotWhole)
       <==> req.principal > 0 && req.methodology.ReducingBalance? && !WholeTenure(req)
    ensures ScheduleOf(req) == Failure(NegativeRate)
       <==> req.principal > 0 && req.methodology.ReducingBalance? && WholeTenure(req) && req.annualRatePercent < 0.0
    ensures ScheduleOf(req) == Failure(InfiniteInstalment)
       <==> req.principal > 0 && req.methodology.Flat? && req.tenureMonths == 0.0
    ensures ScheduleOf(req) != Failure(InstalmentBelowInterest)
  {
  }

  /**
   For a whole tenure, of the returned schedule itself: a row a month, from the loan down to
   zero, repaying it exactly; and from year 100 on each row falls so many calendar months
   after the first on the same day, or on the last of a shorter month.
   */
  lemma ReturnedScheduleCloses(req: Request)
    requires req.firstDueDate.Valid() && Accepted(req) && WholeTenure(req)
    ensures ScheduleOf(req).Success?
    ensures var s, n := ScheduleOf(req).value, req.tenureMonths.Floor;
      && |s.installments| == n >= 1 && s.installments[0].openingPrincipal == req.principal
      && s.installments[n - 1].closingPrincipal == 0 && s.totalPrincipal == req.principal
      && s.totalPayable == req.principal + s.totalInterest
    ensures req.firstDueDate.year >= 100 ==>
      forall k :: 0 <= k < req.tenureMonths.Floor ==> OnCalendar(req.firstDueDate, ScheduleOf(req).value.installments[k].dueDate, k)
  {
    BuiltMeets(req);
    AcceptedIsPlanned(req);
    var s, n := ScheduleOf(req).value, req.tenureMonths.Floor;
    assert IsRow(req, s, 0) && IsRow(req, s, n - 1);
    ScheduleConserves(req);
    if req.firstDueDate.year >= 100 {
      forall k | 0 <= k < n ensures OnCalendar(req.firstDueDate, s.installments[k].dueDate, k) {
        assert IsRow(req, s, k);
        AddsMonthsExactlyWhen(req.firstDueDate, k);
        NoDrift(req.firstDueDate, k);
      }
    }
  }

  predicate OnCalendar(first: Date, due: Date, k: nat) {
    && due.Valid() && 12 * due.year + due.month == 12 * first.year + first.month + k
    && due.day == Min(first.day, DaysInMonth(due.year, due.month))
  }
}
