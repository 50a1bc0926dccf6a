/** The quote: one pricing computation from which every disclosure is read. */
module Quote {
  import opened Prelude
  import opened Rounding
  import opened RealPowers
  import opened Money
  import opened Amortization
  import opened ScheduleLaws
  import opened Apr
  import opened AprLaws
  import opened ContractRate

  datatype FeeCollection = DeductFromDisbursement | CollectedSeparately

  datatype FeeConfig = FeeConfig(
    processingFeePercent: real,
    processingFeeMin: Option<Paise>,
    processingFeeMax: Option<Paise>,
    taxOnFeesPercent: real,
    feeCollection: FeeCollection)

  datatype QuoteRequest = QuoteRequest(loan: Request, fees: FeeConfig)

  datatype QuoteError = ScheduleRefused(schedule: ScheduleError) | AprRefused(apr: AprError)

  datatype LoanQuote = LoanQuote(
    principal: Paise,
    processingFee: Paise,
    taxOnFee: Paise,
    netDisbursed: Paise,
    emi: Paise,
    totalInterest: Paise,
    totalCostOfCredit: Paise,
    totalPayable: Paise,
    apr: AprResult,
    schedule: Schedule)

  function Clamp(value: Paise, min: Option<Paise>, max: Option<Paise>): Paise {
    var floored := if min.Some? then Max(value, min.value) else value;
    if max.Some? then Min(floored, max.value) else floored
  }

  function ProcessingFee(q: QuoteRequest): Paise {
    Clamp(Multiply(q.loan.principal, q.fees.processingFeePercent / 100.0), q.fees.processingFeeMin, q.fees.processingFeeMax)
  }

  function TaxOnFee(q: QuoteRequest): Paise {
    Multiply(ProcessingFee(q), q.fees.taxOnFeesPercent / 100.0)
  }

  function UpfrontCharges(q: QuoteRequest): Paise {
    ProcessingFee(q) + TaxOnFee(q)
  }

  function DeductedUpfront(q: QuoteRequest): Paise {
    if q.fees.feeCollection.DeductFromDisbursement? then UpfrontCharges(q) else 0
  }

  function BuildQuote(q: QuoteRequest): Result<LoanQuote, QuoteError>
    requires q.loan.firstDueDate.Valid()
  {
    match ScheduleOf(q.loan)
    case Failure(e) => Failure(ScheduleRefused(e))
    case Success(schedule) =>
      match AprOf(q.loan.principal, DeductedUpfront(q), Totals(schedule.installments), PERIODS_PER_YEAR)
      case Failure(e) => Failure(AprRefused(e))
      case Success(apr) =>
        Success(LoanQuote(
          q.loan.principal,
          ProcessingFee(q),
          TaxOnFee(q),
          q.loan.principal - DeductedUpfront(q),
          schedule.emi,
          schedule.totalInterest,
          schedule.totalInterest + UpfrontCharges(q),
          schedule.totalPayable + (if q.fees.feeCollection.CollectedSeparately? then UpfrontCharges(q) else 0),
          apr,
          schedule))
  }

  // ---------- What a quote is ----------

  /** The percentage of the principal when it lies within the bounds that are given; else the bound it violates, the cap first. */
  predicate IsFee(q: QuoteRequest, fee: Paise) {
    var raw := HalfEven(Times(q.loan.principal as real, q.fees.processingFeePercent / 100.0));
    var floor, cap := q.fees.processingFeeMin, q.fees.processingFeeMax;
    && ((floor.None? || raw >= floor.value) && (cap.None? || raw <= cap.value) ==> fee == raw)
    && (floor.Some? && raw <= floor.value && (cap.None? || floor.value <= cap.value) ==> fee == floor.value)
    && (cap.Some? && (raw >= cap.value || (floor.Some? && floor.value >= cap.value)) ==> fee == cap.value)
  }

  predicate IsTax(q: QuoteRequest, fee: Paise, tax: Paise) {
    tax == HalfEven(Times(fee as real, q.fees.taxOnFeesPercent / 100.0))
  }

  /** The charges reach the borrower in exactly one place: the net in hand, or the payable. */
  predicate IsQuote(q: QuoteRequest, v: LoanQuote)
    requires q.loan.firstDueDate.Valid()
  {
    var charges := v.processingFee + v.taxOnFee;
    var deducted := if q.fees.feeCollection.DeductFromDisbursement? then charges else 0;
    && ScheduleOf(q.loan) == Success(v.schedule)
    && IsFee(q, v.processingFee) && IsTax(q, v.processingFee, v.taxOnFee)
    && AprOf(q.loan.principal, deducted, Totals(v.schedule.installments), 12.0) == Success(v.apr)
    && v.principal == q.loan.principal && v.netDisbursed == q.loan.principal - deducted
    && v.emi == v.schedule.emi && v.totalInterest == v.schedule.totalInterest
    && v.totalCostOfCredit == v.totalInterest + charges
    && v.totalPayable == v.schedule.totalPayable + (charges - deducted)
  }

  lemma ChargesAre(q: QuoteRequest)
    ensures IsFee(q, ProcessingFee(q)) && IsTax(q, ProcessingFee(q), TaxOnFee(q))
  {
    MultiplyNearest(q.loan.principal, q.fees.processingFeePercent / 100.0);
    MultiplyNearest(ProcessingFee(q), q.fees.taxOnFeesPercent / 100.0);
  }

  lemma ChargesAreUnique(q: QuoteRequest, fee: Paise, tax: Paise)
    requires IsFee(q, fee) && IsTax(q, fee, tax)
    ensures fee == ProcessingFee(q) && tax == TaxOnFee(q)
  {
    MultiplyNearest(q.loan.principal, q.fees.processingFeePercent / 100.0);
    MultiplyNearest(ProcessingFee(q), q.fees.taxOnFeesPercent / 100.0);
  }

  /** buildQuote returns the one quote that meets this definition, and succeeds exactly when there is one. */
  lemma QuoteExactlyWhen(q: QuoteRequest, v: LoanQuote)
    requires q.loan.firstDueDate.Valid()
    ensures BuildQuote(q) == Success(v) <==> IsQuote(q, v)
  {
    if BuildQuote(q) == Success(v) { BuiltIsQuote(q, v); }
    if IsQuote(q, v) { QuoteIsBuilt(q, v); }
  }

  lemma BuiltIsQuote(q: QuoteRequest, v: LoanQuote)
    requires q.loan.firstDueDate.Valid() && BuildQuote(q) == Success(v)
    ensures IsQuote(q, v)
  {
    ChargesAre(q);
  }

  lemma QuoteIsBuilt(q: QuoteRequest, v: LoanQuote)
    requires q.loan.firstDueDate.Valid() && IsQuote(q, v)
    ensures BuildQuote(q) == Success(v)
  {
    QuoteSucceeds(q, v);
    BuiltIsQuote(q, BuildQuote(q).value);
    OnlyOneQuote(q, v, BuildQuote(q).value);
  }

  lemma QuoteSucceeds(q: QuoteRequest, v: LoanQuote)
    requires q.loan.firstDueDate.Valid() && IsQuote(q, v)
    ensures BuildQuote(q).Success?
  {
    ChargesAreUnique(q, v.processingFee, v.taxOnFee);
  }

  lemma OnlyOneQuote(q: QuoteRequest, v: LoanQuote, w: LoanQuote)
    requires q.loan.firstDueDate.Valid() && IsQuote(q, v) && IsQuote(q, w)
    ensures v == w
  {
    ChargesAreUnique(q, v.processingFee, v.taxOnFee);
    ChargesAreUnique(q, w.processingFee, w.taxOnFee);
  }

  /** So a quoted fee obeys its bounds, and fee and tax are within half a paisa of their percentages. */
  lemma QuotedCharges(q: QuoteRequest)
    requires q.loan.firstDueDate.Valid() && BuildQuote(q).Success?
    ensures var fee, min, max := BuildQuote(q).value.processingFee, q.fees.processingFeeMin, q.fees.processingFeeMax;
      && (max.Some? ==> fee <= max.value)
      && (min.Some? && (max.Some? ==> min.value <= max.value) ==> fee >= min.value)
      && (min.None? && max.None? ==>
            Abs(fee as real - Times(q.loan.principal as real, q.fees.processingFeePercent / 100.0)) <= 0.5)
    ensures var quote := BuildQuote(q).value;
      Abs(quote.taxOnFee as real - Times(quote.processingFee as real, q.fees.taxOnFeesPercent / 100.0)) <= 0.5
  {
    BuiltIsQuote(q, BuildQuote(q).value);
    ChargesAreNear(q, BuildQuote(q).value.processingFee, BuildQuote(q).value.taxOnFee);
  }

  lemma ChargesAreNear(q: QuoteRequest, fee: Paise, tax: Paise)
    requires IsFee(q, fee) && IsTax(q, fee, tax)
    ensures q.fees.processingFeeMax.Some? ==> fee <= q.fees.processingFeeMax.value
    ensures var min, max := q.fees.processingFeeMin, q.fees.processingFeeMax;
      && (min.Some? && (max.Some? ==> min.value <= max.value) ==> fee >= min.value)
      && (min.None? && max.None? ==>
            Abs(fee as real - Times(q.loan.principal as real, q.fees.processingFeePercent / 100.0)) <= 0.5)
    ensures Abs(tax as real - Times(fee as real, q.fees.taxOnFeesPercent / 100.0)) <= 0.5
  {
    Nearest(Times(q.loan.principal as real, q.fees.processingFeePercent / 100.0));
    Nearest(Times(fee as real, q.fees.taxOnFeesPercent / 100.0));
  }

  /** A quote is refused with the schedule's refusal. */
  lemma ScheduleRefusalIsPassedOn(q: QuoteRequest, e: ScheduleError)
    requires q.loan.firstDueDate.Valid()
    ensures BuildQuote(q) == Failure(ScheduleRefused(e)) <==> ScheduleOf(q.loan) == Failure(e)
  {
  }

  lemma AprRefusalPasses(q: QuoteRequest, e: AprError)
    requires q.loan.firstDueDate.Valid()
    ensures BuildQuote(q) == Failure(AprRefused(e))
       <==> (ScheduleOf(q.loan).Success?
             && AprOf(q.loan.principal, DeductedUpfront(q), Totals(ScheduleOf(q.loan).value.installments), 12.0) == Failure(e))
  {
  }

  /** Or else it is refused with the APR's refusal of the cash the borrower would see. */
  lemma AprRefusalIsPassedOn(q: QuoteRequest, fee: Paise, tax: Paise, deducted: Paise, e: AprError)
    requires q.loan.firstDueDate.Valid() && IsFee(q, fee) && IsTax(q, fee, tax)
    requires deducted == if q.fees.feeCollection.DeductFromDisbursement? then fee + tax else 0
    ensures BuildQuote(q) == Failure(AprRefused(e))
       <==> (ScheduleOf(q.loan).Success?
             && AprOf(q.loan.principal, deducted, Totals(ScheduleOf(q.loan).value.installments), 12.0) == Failure(e))
  {
    ChargesAreUnique(q, fee, tax);
    AprRefusalPasses(q, e);
  }

  /** Fee settings a product would carry: no negative percentage and no negative cap. */
  predicate SaneFees(fees: FeeConfig) {
    && fees.processingFeePercent >= 0.0 && fees.taxOnFeesPercent >= 0.0
    && (fees.processingFeeMax.Some? ==> fees.processingFeeMax.value >= 0)
  }

  lemma ChargesAreNonNegative(q: QuoteRequest)
    requires SaneFees(q.fees) && q.loan.principal >= 0
    ensures ProcessingFee(q) >= 0 && TaxOnFee(q) >= 0 && DeductedUpfront(q) >= 0
  {
    MultiplyKeepsSign(q.loan.principal, q.fees.processingFeePercent / 100.0);
    MultiplyKeepsSign(ProcessingFee(q), q.fees.taxOnFeesPercent / 100.0);
  }

  /** The row totals add up to the schedule's total payable, whatever the tenure. */
  lemma TotalsAddUp(loan: Request)
    requires loan.firstDueDate.Valid() && ScheduleOf(loan).Success?
    ensures SumMoney(Totals(RowsOf(loan))) == ScheduleOf(loan).value.totalPayable
  {
    TotalsSum(RowsOf(loan));
  }

  /**
   Cash identity, in both collection modes: what the borrower pays beyond what arrives in
   hand is the total cost of credit, exactly when the schedule repays exactly the principal.
   */
  lemma CashIdentity(q: QuoteRequest)
    requires q.loan.firstDueDate.Valid() && BuildQuote(q).Success?
    ensures var quote := BuildQuote(q).value;
      && ((quote.totalPayable - quote.netDisbursed == quote.totalCostOfCredit) <==> (quote.schedule.totalPrincipal == quote.principal))
      && (Closed(q.loan) ==> quote.totalPayable - quote.netDisbursed == quote.totalCostOfCredit)
  {
    if Closed(q.loan) { ScheduleConserves(q.loan); }
  }

  /** The APR is computed from the very net amount and total that the quote shows. */
  lemma AprSeesTheQuotedCash(q: QuoteRequest)
    requires q.loan.firstDueDate.Valid() && BuildQuote(q).Success?
    ensures var quote := BuildQuote(q).value;
      && quote.apr.netDisbursed == quote.netDisbursed
      && quote.apr.totalPayable == quote.schedule.totalPayable
  {
    TotalsAddUp(q.loan);
  }

  /**
   For a schedule over whole months the quote is refused for an unpaid disbursement exactly
   when interest and deductions together are negative.
   */
  lemma DoesNotRepayExactlyWhen(q: QuoteRequest)
    requires Closed(q.loan) && q.loan.principal > DeductedUpfront(q)
    ensures BuildQuote(q) == Failure(AprRefused(DoesNotRepay))
        <==> ScheduleOf(q.loan).value.totalInterest + DeductedUpfront(q) < 0
  {
    ScheduleConserves(q.loan);
    TotalsAddUp(q.loan);
    WorthAtZero(Totals(RowsOf(q.loan)));
  }

  /** With sane fees, a rate that is not negative and no over-collection that refusal cannot happen. */
  lemma SaneQuotesRepay(q: QuoteRequest)
    requires Closed(q.loan) && SaneFees(q.fees) && NeverOverCollects(q.loan)
    ensures BuildQuote(q) != Failure(AprRefused(DoesNotRepay))
  {
    ScheduleConserves(q.loan);
    ChargesAreNonNegative(q);
    forall k | 0 <= k < Months(q.loan) ensures RowsOf(q.loan)[k].interestDue >= 0 {
      assert NonNegative(RowsOf(q.loan)[k]);
    }
    TotalInterestNonNegative(RowsOf(q.loan));
    if q.loan.principal > DeductedUpfront(q) { DoesNotRepayExactlyWhen(q); }
  }

  /**
   The same loan quoted both ways: deducting the charges never discloses a lower rate than
   collecting them separately, and the cost of credit is the same either way.
   */
  lemma DeductingNeverLooksCheaper(deduct: QuoteRequest, separate: QuoteRequest)
    requires deduct.fees.feeCollection.DeductFromDisbursement?
    requires separate == deduct.(fees := deduct.fees.(feeCollection := CollectedSeparately))
    requires deduct.loan.firstDueDate.Valid() && SaneFees(deduct.fees)
    requires BuildQuote(deduct).Success? && BuildQuote(separate).Success?
    ensures BuildQuote(separate).value.apr.nominalAnnualPercent <= BuildQuote(deduct).value.apr.nominalAnnualPercent
    ensures BuildQuote(separate).value.apr.periodicRate <= BuildQuote(deduct).value.apr.periodicRate
    ensures BuildQuote(separate).value.totalCostOfCredit == BuildQuote(deduct).value.totalCostOfCredit
  {
    ChargesAreOrdered(deduct, separate);
    QuoteParts(deduct);
    QuoteParts(separate);
    DeductionsOrder(deduct.loan.principal, Totals(RowsOf(deduct.loan)), DeductedUpfront(separate), DeductedUpfront(deduct),
                    BuildQuote(separate).value.apr, BuildQuote(deduct).value.apr);
  }

  lemma ChargesAreOrdered(deduct: QuoteRequest, separate: QuoteRequest)
    requires separate == deduct.(fees := deduct.fees.(feeCollection := CollectedSeparately))
    requires SaneFees(deduct.fees) && deduct.loan.principal >= 0
    ensures UpfrontCharges(separate) == UpfrontCharges(deduct)
    ensures DeductedUpfront(separate) <= DeductedUpfront(deduct)
  {
    ChargesAreNonNegative(deduct);
  }

  /**
   The headline of the disclosure: charges deducted up front, beyond half a paisa a month and
   a hair, put the quoted rate strictly above the contract rate.
   */
  lemma DeductedChargesRaiseQuotedApr(q: QuoteRequest)
    requires Closed(q.loan) && q.loan.methodology.ReducingBalance? && NeverOverCollects(q.loan)
    requires q.fees.feeCollection.DeductFromDisbursement? && BuildQuote(q).Success?
    requires UpfrontCharges(q) as real > Months(q.loan) as real * 0.5
      + Times(Times(Months(q.loan) as real, Tolerance(512.0)), ScheduleOf(q.loan).value.totalPayable as real)
    ensures BuildQuote(q).value.apr.periodicRate > RateOf(q.loan)
  {
    QuoteParts(q);
    TotalsAddUp(q.loan);
    FeesStrictlyRaiseApr(q.loan, UpfrontCharges(q));
  }

  lemma QuoteParts(q: QuoteRequest)
    requires q.loan.firstDueDate.Valid() && BuildQuote(q).Success?
    ensures AprOf(q.loan.principal, DeductedUpfront(q), Totals(RowsOf(q.loan)), PERIODS_PER_YEAR)
         == Success(BuildQuote(q).value.apr)
    ensures BuildQuote(q).value.totalCostOfCredit == TotalInterest(RowsOf(q.loan)) + UpfrontCharges(q)
  {
  }

  lemma DeductionsOrder(principal: Paise, totals: seq<Paise>, d: Paise, d': Paise, apr: AprResult, apr': AprResult)
    requires d <= d'
    requires AprOf(principal, d, totals, PERIODS_PER_YEAR) == Success(apr)
    requires AprOf(principal, d', totals, PERIODS_PER_YEAR) == Success(apr')
    ensures apr.periodicRate <= apr'.periodicRate && apr.nominalAnnualPercent <= apr'.nominalAnnualPercent
  {
    AprIsMonotone(principal, d, totals, d', totals, PERIODS_PER_YEAR);
  }
}
