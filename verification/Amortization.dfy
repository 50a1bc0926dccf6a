/**
 Instalments and repayment schedules: the rounded recurrence of the original as a method,
 proved equal to the schedule that Balance and Row describe for any inputs.
 */
module Amortization {
  import opened Prelude
  import opened Rounding
  import opened RealPowers
  import opened Money
  import opened Calendar

  datatype Methodology = ReducingBalance | Flat

  datatype ScheduleError =
    | PrincipalNotPositive
    | TenureNotWhole
    | NegativeRate
    | InfiniteInstalment       // a flat tenure of zero divides by zero
    | InstalmentBelowInterest

  /** The tenure is a number in the original: only the reducing method insists on a whole one. */
  datatype Request = Request(
    principal: Paise,
    annualRatePercent: real,
    tenureMonths: real,
    methodology: Methodology,
    firstDueDate: Date)

  datatype Installment = Installment(
    number: int,
    dueDate: Date,
    openingPrincipal: Paise,
    principalDue: Paise,
    interestDue: Paise,
    totalDue: Paise,
    closingPrincipal: Paise)

  datatype Schedule = Schedule(
    installments: seq<Installment>,
    emi: Paise,
    totalPrincipal: Paise,
    totalInterest: Paise,
    totalPayable: Paise)

  const PERIODS_PER_YEAR := 12.0

  function PeriodicRate(annualRatePercent: real): real {
    annualRatePercent / 100.0 / PERIODS_PER_YEAR
  }

  predicate Whole(tenure: real) {
    tenure.Floor as real == tenure
  }

  function Annuity(p: real, rate: real, growth: real): real
    requires growth != 1.0
  {
    p * rate * growth / (growth - 1.0)
  }

  /** The annuity formula in major units, before the single rounding. */
  function EquatedMajor(p: real, rate: real, n: nat): real
    requires rate >= 0.0 && n > 0
  {
    if rate == 0.0 then Over(p, n as real)
    else
      PowExceedsOne(1.0 + rate, n);
      Annuity(p, rate, Pow(1.0 + rate, n))
  }

  function EquatedInstallment(principal: Paise, annualRatePercent: real, tenure: real): Result<Paise, ScheduleError> {
    if !Whole(tenure) || tenure <= 0.0 then Failure(TenureNotWhole)
    else
      var rate := PeriodicRate(annualRatePercent);
      if rate < 0.0 then Failure(NegativeRate)
      else Success(FromDecimalMajor(EquatedMajor(ToDecimalMajor(principal), rate, tenure.Floor)))
  }

  function FlatInstallment(principal: Paise, rate: real, tenure: real): Paise
    requires tenure != 0.0
  {
    var totalInterest := Multiply(principal, Times(rate, tenure));
    FromDecimalMajor(ToDecimalMajor(principal + totalInterest) / tenure)
  }

  // ---------- What a schedule is ----------

  datatype Terms = Terms(methodology: Methodology, principal: Paise, rate: real, emi: Paise)

  /** Interest of one period that opens with the given balance. */
  function InterestOn(t: Terms, opening: Paise): Paise {
    Multiply(if t.methodology.Flat? then t.principal else opening, t.rate)
  }

  /** Principal outstanding after k ordinary rows: the rounded recurrence. */
  function Balance(t: Terms, k: nat): Paise {
    if k == 0 then t.principal
    else Balance(t, k - 1) - (t.emi - InterestOn(t, Balance(t, k - 1)))
  }

  function Interest(t: Terms, k: nat): Paise {
    InterestOn(t, Balance(t, k))
  }

  /** Row k, counted from zero; the final row takes whatever principal is left. */
  function Row(t: Terms, final: bool, first: Date, k: nat): Installment
    requires first.Valid()
  {
    var principalDue := if final then Balance(t, k) else t.emi - Interest(t, k);
    Installment(
      k + 1, DueDate(first, k), Balance(t, k), principalDue, Interest(t, k),
      principalDue + Interest(t, k), Balance(t, k) - principalDue)
  }

  function RowCount(tenure: real): nat {
    if tenure < 1.0 then 0 else tenure.Floor
  }

  predicate IsFinal(tenure: real, k: nat) {
    (k + 1) as real == tenure
  }

  function Rows(t: Terms, tenure: real, first: Date): (rows: seq<Installment>)
    requires first.Valid()
    ensures |rows| == RowCount(tenure)
    ensures forall k :: 0 <= k < |rows| ==> rows[k] == Row(t, IsFinal(tenure, k), first, k)
  {
    seq(RowCount(tenure), k requires 0 <= k < RowCount(tenure) => Row(t, IsFinal(tenure, k), first, k))
  }

  function TotalInterest(rows: seq<Installment>): Paise {
    if |rows| == 0 then 0 else TotalInterest(rows[..|rows| - 1]) + rows[|rows| - 1].interestDue
  }

  function TotalPrincipal(rows: seq<Installment>): Paise {
    if |rows| == 0 then 0 else TotalPrincipal(rows[..|rows| - 1]) + rows[|rows| - 1].principalDue
  }

  function PlannedEmi(req: Request): Result<Paise, ScheduleError> {
    if req.principal <= 0 then Failure(PrincipalNotPositive)
    else if req.methodology.ReducingBalance? then
      EquatedInstallment(req.principal, req.annualRatePercent, req.tenureMonths)
    else if req.tenureMonths == 0.0 then Failure(InfiniteInstalment)
    else Success(FlatInstallment(req.principal, PeriodicRate(req.annualRatePercent), req.tenureMonths))
  }

  function TermsOf(req: Request): Terms
    requires PlannedEmi(req).Success?
  {
    Terms(req.methodology, req.principal, PeriodicRate(req.annualRatePercent), PlannedEmi(req).value)
  }

  function RowsOf(req: Request): seq<Installment>
    requires PlannedEmi(req).Success? && req.firstDueDate.Valid()
  {
    Rows(TermsOf(req), req.tenureMonths, req.firstDueDate)
  }

  function ScheduleOf(req: Request): Result<Schedule, ScheduleError>
    requires req.firstDueDate.Valid()
  {
    match PlannedEmi(req)
    case Failure(e) => Failure(e)
    case Success(emi) =>
      var rows := RowsOf(req);
      Success(Schedule(rows, emi, TotalPrincipal(rows), TotalInterest(rows), TotalPrincipal(rows) + TotalInterest(rows)))
  }

  predicate FirstRows(req: Request, rows: seq<Installment>)
    requires PlannedEmi(req).Success? && req.firstDueDate.Valid()
  {
    forall k :: 0 <= k < |rows| ==> rows[k] == Row(TermsOf(req), IsFinal(req.tenureMonths, k), req.firstDueDate, k)
  }

  lemma RowsAssembled(req: Request, rows: seq<Installment>)
    requires PlannedEmi(req).Success? && req.firstDueDate.Valid()
    requires |rows| == RowCount(req.tenureMonths) && FirstRows(req, rows)
    ensures rows == RowsOf(req)
  {
  }

  /** One round of the loop, from the balance it opens with. */
  lemma RowsExtend(req: Request, rows: seq<Installment>, row: Installment)
    requires PlannedEmi(req).Success? && req.firstDueDate.Valid() && FirstRows(req, rows)
    requires row.number == |rows| + 1 && row.dueDate == DueDate(req.firstDueDate, |rows|)
    requires row.openingPrincipal == Balance(TermsOf(req), |rows|)
    requires row.interestDue == InterestOn(TermsOf(req), row.openingPrincipal)
    requires row.principalDue ==
      if IsFinal(req.tenureMonths, |rows|) then row.openingPrincipal else TermsOf(req).emi - row.interestDue
    requires row.totalDue == row.principalDue + row.interestDue
    requires row.closingPrincipal == row.openingPrincipal - row.principalDue
    ensures FirstRows(req, rows + [row])
  {
  }

  // ---------- The loop of the original ----------

  /** The loop that builds the rows; its throw is unreachable, so it always returns them all. */
  method RowsLoop(req: Request, emi: Paise, rate: real) returns (r: Result<seq<Installment>, ScheduleError>)
    requires req.firstDueDate.Valid()
    requires PlannedEmi(req) == Success(emi) && rate == PeriodicRate(req.annualRatePercent)
    ensures r == Success(RowsOf(req))
  {
    var installments: seq<Installment> := [];
    var outstanding := req.principal;
    var n := 1;
    while n as real <= req.tenureMonths
      invariant 1 <= n <= RowCount(req.tenureMonths) + 1
      invariant |installments| == n - 1
      invariant FirstRows(req, installments)
      invariant n as real <= req.tenureMonths ==> outstanding == Balance(TermsOf(req), n - 1)
      decreases RowCount(req.tenureMonths) + 1 - n
    {
      var isFinal := n as real == req.tenureMonths;
      var openingPrincipal := outstanding;
      var interestDue, principalDue;
      if req.methodology.ReducingBalance? {
        interestDue := Multiply(openingPrincipal, rate);
        principalDue := if isFinal then openingPrincipal else emi - interestDue;
      } else {
        var flatInterestPerPeriod := Multiply(req.principal, rate);
        interestDue := flatInterestPerPeriod;
        principalDue := if isFinal then openingPrincipal else emi - flatInterestPerPeriod;
      }
      OrdinaryRow(req, n - 1);
      if !isFinal && principalDue < 0 {
        return Failure(InstalmentBelowInterest);
      }
      var closingPrincipal := openingPrincipal - principalDue;
      var dueDate := AddMonths(req.firstDueDate, n - 1);
      var row := Installment(
        n, dueDate, openingPrincipal, principalDue, interestDue, principalDue + interestDue, closingPrincipal);
      RowsExtend(req, installments, row);
      installments := installments + [row];
      outstanding := closingPrincipal;
      n := n + 1;
    }
    RowsAssembled(req, installments);
    return Success(installments);
  }

  /**
   ScheduleOf never fails with InstalmentBelowInterest, so this contract also says that the
   throw in the middle of the loop is unreachable, for every input whatever.
   */
  method BuildSchedule(req: Request) returns (r: Result<Schedule, ScheduleError>)
    requires req.firstDueDate.Valid()
    ensures r == ScheduleOf(req)
  {
    if req.principal <= 0 {
      return Failure(PrincipalNotPositive);
    }
    var rate := PeriodicRate(req.annualRatePercent);
    var emi;
    if req.methodology.ReducingBalance? {
      var equated := EquatedInstallment(req.principal, req.annualRatePercent, req.tenureMonths);
      if equated.Failure? {
        return Failure(equated.error);
      }
      emi := equated.value;
    } else {
      if req.tenureMonths == 0.0 {
        return Failure(InfiniteInstalment);
      }
      emi := FlatInstallment(req.principal, rate, req.tenureMonths);
    }
    var rows := RowsLoop(req, emi, rate);
    if rows.Failure? {
      return Failure(InstalmentBelowInterest);
    }
    var installments := rows.value;
    var totalInterest := TotalInterest(installments);
    var totalPrincipal := TotalPrincipal(installments);
    r := Success(Schedule(installments, emi, totalPrincipal, totalInterest, totalPrincipal + totalInterest));
  }

  // ---------- The instalment always covers the interest ----------

  /** The unrounded equated instalment, in one form for zero and positive rates. */
  function ExactInstallment(principal: Paise, rate: real, n: nat): real
    requires rate >= 0.0 && n > 0
  {
    GeometricAtLeast(1.0 + rate, n);
    Over(Times(Pow(1.0 + rate, n), principal as real), GeometricSum(1.0 + rate, n))
  }

  /** P*i*(1+i)^n/((1+i)^n - 1), and P/n at a zero rate, are both P*(1+i)^n over the geometric sum. */
  lemma EquatedIsRounded(principal: Paise, annualRatePercent: real, n: nat)
    requires n > 0 && PeriodicRate(annualRatePercent) >= 0.0
    ensures EquatedInstallment(principal, annualRatePercent, n as real)
         == Success(HalfEven(ExactInstallment(principal, PeriodicRate(annualRatePercent), n)))
  {
    ExactIsMajor(principal, ToDecimalMajor(principal), PeriodicRate(annualRatePercent), n);
  }

  lemma ExactIsMajor(principal: Paise, p: real, rate: real, n: nat)
    requires n > 0 && rate >= 0.0 && p == principal as real / 100.0
    ensures EquatedMajor(p, rate, n) * 100.0 == ExactInstallment(principal, rate, n)
  {
    GeometricAtLeast(1.0 + rate, n);
    if rate == 0.0 {
      PowOne(n);
      GeometricOne(n);
      HundredTimes(p, principal as real, n as real);
    } else {
      PowExceedsOne(1.0 + rate, n);
      GeometricClosed(1.0 + rate, n);
      SameQuotient(p, principal as real, rate, Pow(1.0 + rate, n), GeometricSum(1.0 + rate, n));
    }
  }

  lemma HundredTimes(p: real, minor: real, n: real)
    requires p == minor / 100.0 && n > 0.0
    ensures Over(p, n) * 100.0 == Over(Times(1.0, minor), n)
  {
    DivUnique(minor, Over(p, n) * 100.0, n);
  }

  lemma SameQuotient(p: real, minor: real, rate: real, growth: real, s: real)
    requires p == minor / 100.0 && s > 0.0 && growth > 1.0 && Times(rate, s) == growth - 1.0
    ensures Annuity(p, rate, growth) * 100.0 == Over(Times(growth, minor), s)
  {
    var q := Over(Times(growth, minor), s);
    assert q * s == growth * minor;
    assert q / 100.0 * s == p * growth;
    Rearrange(q / 100.0, rate, s, p, growth);
    DivUnique(p * rate * growth, q / 100.0, growth - 1.0);
  }

  lemma Rearrange(q: real, rate: real, s: real, p: real, growth: real)
    requires q * s == p * growth
    ensures q * (rate * s) == p * rate * growth
  {
    assert q * (rate * s) == rate * (q * s);
  }

  /** The exact instalment is more than the first period's exact interest. */
  lemma ExactCoversInterest(principal: Paise, rate: real, n: nat)
    requires principal > 0 && rate >= 0.0 && n > 0
    ensures ExactInstallment(principal, rate, n) >= Times(principal as real, rate)
    ensures ExactInstallment(principal, rate, n) > 0.0
  {
    var g := 1.0 + rate;
    GeometricAtLeast(g, n);
    GeometricClosed(g, n);
    QuotientCovers(principal as real, rate, GeometricSum(g, n), Pow(g, n));
  }

  lemma QuotientCovers(p: real, rate: real, s: real, growth: real)
    requires p > 0.0 && s > 0.0 && growth > 0.0 && Times(rate, s) == growth - 1.0
    ensures Over(Times(growth, p), s) >= Times(p, rate)
    ensures Over(Times(growth, p), s) > 0.0
  {
    assert p * rate * s == p * (rate * s) == p * growth - p;
    DivMono(p * rate * s, p * growth, s);
    DivUnique(p * rate * s, p * rate, s);
    PositiveProduct(p, growth);
    PositiveQuotient(p * growth, s);
  }

  lemma PositiveProduct(x: real, y: real)
    requires x > 0.0 && y > 0.0
    ensures x * y > 0.0
  {
  }

  lemma PositiveQuotient(x: real, s: real)
    requires x > 0.0 && s > 0.0
    ensures x / s > 0.0
  {
  }

  /** The flat instalment is at least the flat interest, both rounded to paise. */
  lemma FlatCoversInterest(principal: Paise, rate: real, tenure: real)
    requires principal > 0 && tenure > 0.0
    ensures FlatInstallment(principal, rate, tenure) >= Multiply(principal, rate)
  {
    MultiplyNearest(principal, Times(rate, tenure));
    MultiplyNearest(principal, rate);
    SpreadCovers(principal as real, rate, tenure, (principal + Multiply(principal, Times(rate, tenure))) as real);
    FlatIsRounded(principal, rate, tenure);
    Monotone(Times(principal as real, rate), Over((principal + Multiply(principal, Times(rate, tenure))) as real, tenure));
  }

  lemma SpreadCovers(p: real, rate: real, tenure: real, payable: real)
    requires p >= 1.0 && tenure > 0.0 && payable >= p - 0.5 + Times(p, Times(rate, tenure))
    ensures Over(payable, tenure) >= Times(p, rate)
  {
    assert p * (rate * tenure) == (p * rate) * tenure;
    DivMono((p * rate) * tenure, payable, tenure);
    DivUnique((p * rate) * tenure, p * rate, tenure);
  }

  lemma FlatIsRounded(principal: Paise, rate: real, tenure: real)
    requires tenure != 0.0
    ensures FlatInstallment(principal, rate, tenure)
         == HalfEven(Over((principal + Multiply(principal, Times(rate, tenure))) as real, tenure))
  {
    var x := (principal + Multiply(principal, Times(rate, tenure))) as real;
    var q := x / 100.0 / tenure;
    assert q * tenure == x / 100.0;
    DivUnique(x, q * 100.0, tenure);
  }

  lemma ReducingCoversInterest(principal: Paise, annualRatePercent: real, n: nat)
    requires principal > 0 && n > 0 && PeriodicRate(annualRatePercent) >= 0.0
    ensures EquatedInstallment(principal, annualRatePercent, n as real).value
         >= Multiply(principal, PeriodicRate(annualRatePercent))
  {
    var rate := PeriodicRate(annualRatePercent);
    EquatedIsRounded(principal, annualRatePercent, n);
    ExactCoversInterest(principal, rate, n);
    MultiplyNearest(principal, rate);
    Monotone(Times(principal as real, rate), ExactInstallment(principal, rate, n));
  }

  lemma FirstInterestCovered(req: Request)
    requires PlannedEmi(req).Success? && req.tenureMonths > 0.0
    ensures PlannedEmi(req).value >= Multiply(req.principal, PeriodicRate(req.annualRatePercent))
  {
    if req.methodology.ReducingBalance? {
      ReducingCoversInterest(req.principal, req.annualRatePercent, req.tenureMonths.Floor);
    } else {
      FlatCoversInterest(req.principal, PeriodicRate(req.annualRatePercent), req.tenureMonths);
    }
  }

  /**
   Once the instalment covers the first period's interest it covers every later one: the
   balance never rises, so interest never rises and the principal part never shrinks.
   */
  lemma {:induction false} BalanceNeverRises(t: Terms, k: nat)
    requires t.methodology.ReducingBalance? ==> t.rate >= 0.0
    requires t.emi >= Multiply(t.principal, t.rate)
    ensures Balance(t, k + 1) <= Balance(t, k) <= t.principal
    ensures Interest(t, k + 1) <= Interest(t, k) <= t.emi
    ensures t.emi - Interest(t, k) <= t.emi - Interest(t, k + 1)
  {
    if k > 0 { BalanceNeverRises(t, k - 1); }
    if t.methodology.ReducingBalance? {
      MultiplyMonotone(Balance(t, k + 1), Balance(t, k), t.rate);
    }
  }

  lemma InstalmentCoversInterest(req: Request, k: nat)
    requires PlannedEmi(req).Success? && req.tenureMonths > 0.0
    ensures TermsOf(req).emi >= Interest(TermsOf(req), k)
    ensures Balance(TermsOf(req), k + 1) <= Balance(TermsOf(req), k) <= req.principal
    ensures Interest(TermsOf(req), k + 1) <= Interest(TermsOf(req), k)
  {
    FirstInterestCovered(req);
    BalanceNeverRises(TermsOf(req), k);
  }

  lemma OrdinaryRow(req: Request, k: nat)
    requires PlannedEmi(req).Success? && req.tenureMonths > 0.0
    ensures TermsOf(req).emi >= Interest(TermsOf(req), k)
    ensures Balance(TermsOf(req), k + 1) == Balance(TermsOf(req), k) - (TermsOf(req).emi - Interest(TermsOf(req), k))
  {
    InstalmentCoversInterest(req, k);
  }
}
