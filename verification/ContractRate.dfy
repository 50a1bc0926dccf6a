/**
 Schedule and APR together: what a reducing-balance schedule is worth at its own contract
 rate, and why an upfront fee lifts the disclosed rate above it.
 */
module ContractRate {
  import opened Prelude
  import opened Rounding
  import opened RealPowers
  import opened Money
  import opened Calendar
  import opened Amortization
  import opened ScheduleLaws
  import opened Apr
  import opened AprLaws

  // ---------- Present value at the contract rate ----------

  /** Rows that chain from opening to closing. */
  predicate Chained(rows: seq<Installment>) {
    (forall k :: 0 <= k < |rows| ==>
      && rows[k].closingPrincipal == rows[k].openingPrincipal - rows[k].principalDue
      && rows[k].totalDue == rows[k].principalDue + rows[k].interestDue)
    && (forall k :: 0 < k < |rows| ==> rows[k].openingPrincipal == rows[k - 1].closingPrincipal)
  }

  /** What rounding added to one row's interest. */
  function InterestError(row: Installment, rate: real): real {
    row.interestDue as real - Times(row.openingPrincipal as real, rate)
  }

  /** The rounding errors of all rows, discounted at the contract rate. */
  function DiscountedErrors(rows: seq<Installment>, rate: real): real
    requires rate >= 0.0
  {
    var n := |rows|;
    if n == 0 then 0.0
    else DiscountedErrors(rows[..n - 1], rate) + Discounted(InterestError(rows[n - 1], rate), rate, n)
  }

  function Reals(amounts: seq<Paise>): (flows: seq<real>)
    ensures |flows| == |amounts|
    ensures forall k :: 0 <= k < |amounts| ==> flows[k] == amounts[k] as real
  {
    seq(|amounts|, k requires 0 <= k < |amounts| => amounts[k] as real)
  }

  function WorthOf(rows: seq<Installment>, rate: real): real
    requires rate >= 0.0
  {
    PresentValue(rate, Reals(Totals(rows)))
  }

  /**
   Telescoping: discounted row totals are the first opening balance, less the discounted last
   closing balance, plus the discounted rounding errors.
   */
  lemma {:induction false} WorthTelescopes(rows: seq<Installment>, rate: real)
    requires rate >= 0.0 && Chained(rows) && |rows| > 0
    ensures WorthOf(rows, rate) == rows[0].openingPrincipal as real
      - Discounted(rows[|rows| - 1].closingPrincipal as real, rate, |rows|) + DiscountedErrors(rows, rate)
  {
    var n := |rows|;
    var row, earlier := rows[n - 1], rows[..n - 1];
    assert Reals(Totals(rows))[..n - 1] == Reals(Totals(earlier));
    assert Pow(1.0 + rate, n) == Times(Pow(1.0 + rate, n - 1), 1.0 + rate);
    TelescopeStep(row.openingPrincipal as real, row.closingPrincipal as real, InterestError(row, rate),
                  rate, row.totalDue as real, Pow(1.0 + rate, n - 1), Pow(1.0 + rate, n));
    assert WorthOf(rows, rate) == WorthOf(earlier, rate) + Over(row.totalDue as real, Pow(1.0 + rate, n));
    if n == 1 {
      DivUnique(row.openingPrincipal as real, row.openingPrincipal as real, 1.0);
    } else {
      WorthTelescopes(earlier, rate);
      assert row.openingPrincipal == earlier[n - 2].closingPrincipal;
    }
  }

  lemma TelescopeStep(opening: real, closing: real, error: real, rate: real, total: real, w: real, w': real)
    requires rate >= 0.0 && w > 0.0 && w' == Times(w, 1.0 + rate) && w' > 0.0
    requires total == opening - closing + (error + Times(opening, rate))
    ensures Over(total, w') == Over(opening, w) - Over(closing, w') + Over(error, w')
  {
    assert (1.0 + rate) * opening == opening + opening * rate;
    DivCancel(opening, w, 1.0 + rate);
    DivAdd((1.0 + rate) * opening - closing, error, w');
    DivAdd((1.0 + rate) * opening, closing, w');
  }

  lemma {:induction false} ErrorsAreSmall(rows: seq<Installment>, rate: real)
    requires rate >= 0.0
    requires forall k :: 0 <= k < |rows| ==> Abs(InterestError(rows[k], rate)) <= 0.5
    ensures Abs(DiscountedErrors(rows, rate)) <= DiscountSum(1.0 + rate, |rows|) * 0.5
  {
    var n := |rows|;
    if n > 0 {
      ErrorsAreSmall(rows[..n - 1], rate);
      SmallQuotient(InterestError(rows[n - 1], rate), Pow(1.0 + rate, n));
    }
  }

  lemma SmallQuotient(x: real, d: real)
    requires d > 0.0 && Abs(x) <= 0.5
    ensures Abs(Over(x, d)) <= Over(1.0, d) * 0.5
  {
    DivMono(x, 0.5, d);
    DivMono(-0.5, x, d);
    DivUnique(0.5, 1.0 / d * 0.5, d);
    DivUnique(-0.5, -(1.0 / d * 0.5), d);
  }

  lemma ScheduleChains(req: Request)
    requires Closed(req)
    ensures Chained(RowsOf(req)) && |RowsOf(req)| == Months(req)
    ensures RowsOf(req)[0].openingPrincipal == req.principal
    ensures RowsOf(req)[Months(req) - 1].closingPrincipal == 0
  {
    ScheduleConserves(req);
    var rows := RowsOf(req);
    forall k | 0 < k < |rows| ensures rows[k].openingPrincipal == rows[k - 1].closingPrincipal {
      assert rows[(k - 1) + 1].openingPrincipal == rows[k - 1].closingPrincipal;
    }
  }

  lemma ReducingErrorsAreSmall(req: Request, k: nat)
    requires Closed(req) && req.methodology.ReducingBalance? && k < Months(req)
    ensures Abs(InterestError(RowsOf(req)[k], RateOf(req))) <= 0.5
  {
    RowsAt(req, k);
    MultiplyNearest(Balance(TermsOf(req), k), RateOf(req));
  }

  /**
   Present-value identity: at the contract rate a reducing-balance schedule is worth its
   principal plus the discounted rounding errors, so within half a discount sum of it and
   never more than n/2 paise away.
   */
  lemma WorthAtContractRate(req: Request)
    requires Closed(req) && req.methodology.ReducingBalance?
    ensures RateOf(req) >= 0.0
    ensures WorthOf(RowsOf(req), RateOf(req)) == req.principal as real + DiscountedErrors(RowsOf(req), RateOf(req))
    ensures Abs(DiscountedErrors(RowsOf(req), RateOf(req))) <= DiscountSum(1.0 + RateOf(req), Months(req)) * 0.5
    ensures Abs(WorthOf(RowsOf(req), RateOf(req)) - req.principal as real) <= Months(req) as real * 0.5
  {
    EmiIsNearExact(req);
    WorthIsPrincipalPlusErrors(req);
    ScheduleErrorsAreSmall(req);
  }

  lemma WorthIsPrincipalPlusErrors(req: Request)
    requires Closed(req) && RateOf(req) >= 0.0
    ensures WorthOf(RowsOf(req), RateOf(req)) == req.principal as real + DiscountedErrors(RowsOf(req), RateOf(req))
  {
    ScheduleChains(req);
    ClosedRowsWorth(RowsOf(req), RateOf(req));
  }

  lemma ClosedRowsWorth(rows: seq<Installment>, rate: real)
    requires rate >= 0.0 && Chained(rows) && |rows| > 0 && rows[|rows| - 1].closingPrincipal == 0
    ensures WorthOf(rows, rate) == rows[0].openingPrincipal as real + DiscountedErrors(rows, rate)
  {
    WorthTelescopes(rows, rate);
    DivUnique(0.0, 0.0, Pow(1.0 + rate, |rows|));
  }

  lemma ScheduleErrorsAreSmall(req: Request)
    requires Closed(req) && req.methodology.ReducingBalance? && RateOf(req) >= 0.0
    ensures Abs(DiscountedErrors(RowsOf(req), RateOf(req))) <= DiscountSum(1.0 + RateOf(req), Months(req)) * 0.5
    ensures Abs(DiscountedErrors(RowsOf(req), RateOf(req))) <= Months(req) as real * 0.5
  {
    forall k | 0 <= k < Months(req) ensures Abs(InterestError(RowsOf(req)[k], RateOf(req))) <= 0.5 {
      ReducingErrorsAreSmall(req, k);
    }
    ErrorsAreSmall(RowsOf(req), RateOf(req));
    DiscountAtMost(1.0 + RateOf(req), Months(req));
  }

  // ---------- Fees lift the rate ----------

  /** The APR works in major units; a hundredth of every flow has a hundredth of the worth. */
  lemma {:induction false} WorthInMajors(rate: real, amounts: seq<Paise>)
    requires rate >= 0.0
    ensures PresentValue(rate, Majors(amounts)) * 100.0 == PresentValue(rate, Reals(amounts))
  {
    var n := |amounts|;
    if n > 0 {
      WorthInMajors(rate, amounts[..n - 1]);
      assert Majors(amounts)[..n - 1] == Majors(amounts[..n - 1]);
      assert Reals(amounts)[..n - 1] == Reals(amounts[..n - 1]);
      Hundredth(amounts[n - 1] as real, Pow(1.0 + rate, n));
    }
  }

  lemma Hundredth(x: real, d: real)
    requires d > 0.0
    ensures x / 100.0 / d * 100.0 == x / d
  {
    DivUnique(x / 100.0, x / d / 100.0, d);
  }

  /** The deduction beats the contract rate exactly when it exceeds what rounding took away. */
  lemma NpvAtContractRate(req: Request, deduction: Paise)
    requires Closed(req) && req.methodology.ReducingBalance?
    ensures Npv(RateOf(req), ToDecimalMajor(req.principal - deduction), Majors(Totals(RowsOf(req)))) * 100.0
         == deduction as real + DiscountedErrors(RowsOf(req), RateOf(req))
  {
    WorthAtContractRate(req);
    WorthInMajors(RateOf(req), Totals(RowsOf(req)));
  }

  lemma NonNegativeFlows(req: Request)
    requires Closed(req) && NeverOverCollects(req)
    ensures AllNonNegative(Majors(Totals(RowsOf(req))))
  {
    ScheduleConserves(req);
    forall k | 0 <= k < Months(req) ensures Totals(RowsOf(req))[k] >= 0 {
      assert NonNegative(RowsOf(req)[k]);
    }
  }

  /**
   Upfront fees raise the APR: a deduction of more than n/2 paise puts the contract rate
   strictly inside every bracket, so the returned rate is above it up to the tolerance.
   */
  lemma FeesRaiseApr(req: Request, deduction: Paise)
    requires Closed(req) && req.methodology.ReducingBalance? && NeverOverCollects(req)
    requires deduction as real > Months(req) as real * 0.5
    requires AprOf(req.principal, deduction, Totals(RowsOf(req)), PERIODS_PER_YEAR).Success?
    ensures var net, flows := ToDecimalMajor(req.principal - deduction), Majors(Totals(RowsOf(req)));
      && Npv(RateOf(req), net, flows) > 0.0
      && AprOf(req.principal, deduction, Totals(RowsOf(req)), PERIODS_PER_YEAR).value.periodicRate
           > RateOf(req) - Tolerance(BracketHigh(net, flows, 1.0).value)
  {
    EmiIsNearExact(req);
    NpvIsPositive(req, deduction);
    NonNegativeFlows(req);
    RateIsSignChange(ToDecimalMajor(req.principal - deduction), Majors(Totals(RowsOf(req))), RateOf(req));
  }

  lemma NpvIsPositive(req: Request, deduction: Paise)
    requires Closed(req) && req.methodology.ReducingBalance? && RateOf(req) >= 0.0
    requires deduction as real > Months(req) as real * 0.5
    ensures Npv(RateOf(req), ToDecimalMajor(req.principal - deduction), Majors(Totals(RowsOf(req)))) > 0.0
  {
    NpvAtContractRate(req, deduction);
    ScheduleErrorsAreSmall(req);
  }

  /** One unit discounted: raising the rate by h costs at most n*h of the amount. */
  lemma {:induction false} DiscountIsLipschitz(g: real, h: real, n: nat)
    requires g >= 1.0 && h >= 0.0
    ensures Over(1.0, Pow(g, n)) <= Over(1.0, Pow(g + h, n)) + Times(n as real, h)
    ensures 0.0 < Over(1.0, Pow(g + h, n)) <= 1.0
  {
    PowAtLeastOne(g + h, n);
    PowAtLeastOne(g, n);
    UnitQuotient(Pow(g + h, n));
    if n > 0 {
      DiscountIsLipschitz(g, h, n - 1);
      PowAtLeastOne(g, n - 1);
      PowAtLeastOne(g + h, n - 1);
      LipschitzStep(Over(1.0, Pow(g, n - 1)), Over(1.0, Pow(g + h, n - 1)), g, h,
                    Times(n as real - 1.0, h), Times(n as real, h));
      assert Pow(g, n) == Times(Pow(g, n - 1), g) && Pow(g + h, n) == Times(Pow(g + h, n - 1), g + h);
      InverseProduct(Pow(g, n - 1), g, Pow(g, n));
      InverseProduct(Pow(g + h, n - 1), g + h, Pow(g + h, n));
      assert Times(n as real, h) == Times(n as real - 1.0, h) + h;
    }
  }

  lemma UnitQuotient(d: real)
    requires d >= 1.0
    ensures 0.0 < 1.0 / d <= 1.0
  {
  }

  lemma InverseProduct(w: real, g: real, w': real)
    requires w > 0.0 && g > 0.0 && w' > 0.0 && w' == Times(w, g)
    ensures Over(1.0, w') == Over(Over(1.0, w), g)
  {
    var q := 1.0 / w / g;
    assert q * g == 1.0 / w;
    assert q * (w * g) == q * g * w;
    DivUnique(1.0, q, w * g);
  }

  lemma LipschitzStep(u: real, v: real, g: real, h: real, bound: real, bound': real)
    requires g >= 1.0 && h >= 0.0 && bound >= 0.0 && 0.0 < v <= 1.0 && u <= v + bound && bound' == bound + h
    ensures Over(u, g) <= Over(v, g + h) + bound'
  {
    var a := v / (g + h);
    assert a * (g + h) == v;
    assert a > 0.0;
    Exceeds(a, v, g + h);
    // v/g - v/(g+h) = a*h/g <= h, and dividing the old bound by g does not enlarge it
    assert a * h <= h by { MulMono(1.0, a, h); }
    assert a * g + a * h == v;
    DivMono(u, v + bound, g);
    DivMono(v + bound, a * g + h + bound, g);
    DivAdd(a * g, h + bound, g);
    DivUnique(a * g, a, g);
    ShrinkQuotient(h + bound, g);
  }

  lemma Exceeds(a: real, v: real, k: real)
    requires v > 0.0 && k >= 1.0
    ensures a > v ==> a * k > v
  {
  }

  lemma ShrinkQuotient(x: real, g: real)
    requires x >= 0.0 && g >= 1.0
    ensures x / g <= x
  {
  }

  /** Present value moves by at most n*h of the total when the rate moves by h. */
  lemma {:induction false} PresentValueIsLipschitz(rate: real, h: real, flows: seq<real>, slope: real)
    requires rate >= 0.0 && h >= 0.0 && AllNonNegative(flows)
    requires Times(|flows| as real, h) <= slope
    ensures PresentValue(rate, flows) <= PresentValue(rate + h, flows) + Times(slope, PresentValue(0.0, flows))
  {
    var n := |flows|;
    if n > 0 {
      var earlier := flows[..n - 1];
      TimesMonotone(n as real - 1.0, n as real, h);
      PresentValueIsLipschitz(rate, h, earlier, slope);
      assert 1.0 + rate + h == 1.0 + (rate + h);
      DiscountIsLipschitz(1.0 + rate, h, n);
      PowOne(n);
      FlowStep(flows[n - 1], Pow(1.0 + rate, n), Pow(1.0 + (rate + h), n), Pow(1.0, n), slope,
               PresentValue(0.0, earlier), PresentValue(0.0, flows));
    }
  }

  lemma FlowStep(a: real, p: real, q: real, one: real, slope: real, total: real, total': real)
    requires a >= 0.0 && p > 0.0 && q > 0.0 && one == 1.0 && Over(1.0, p) <= Over(1.0, q) + slope
    requires total' == total + Over(a, one)
    ensures Over(a, p) + Times(slope, total) <= Over(a, q) + Times(slope, total')
  {
    DivUnique(a, Over(1.0, p) * a, p);
    DivUnique(a, Over(1.0, q) * a, q);
    MulMono(Over(1.0, q) + slope, Over(1.0, p), a);
    assert (Over(1.0, q) + slope) * a == Over(1.0, q) * a + slope * a;
    Distribute(slope, total, a);
    DivUnique(a, a, one);
  }

  lemma {:induction false} WorthAtZero(amounts: seq<Paise>)
    ensures PresentValue(0.0, Majors(amounts)) == ToDecimalMajor(SumMoney(amounts))
  {
    var n := |amounts|;
    if n > 0 {
      WorthAtZero(amounts[..n - 1]);
      assert Majors(amounts)[..n - 1] == Majors(amounts[..n - 1]);
      PowOne(n);
      DivUnique(ToDecimalMajor(amounts[n - 1]), ToDecimalMajor(amounts[n - 1]), Pow(1.0, n));
    }
  }

  /**
   The refusals of the APR: nothing reaches the borrower; nothing is paid back; less is paid
   back than was received; every upper bound up to 51200% a period is too low.
   */
  lemma AprRefusesExactlyWhen(principal: Paise, deductions: Paise, installments: seq<Paise>, periodsPerYear: real)
    ensures var r := AprOf(principal, deductions, installments, periodsPerYear);
      && (r == Failure(DeductionsSwallowPrincipal) <==> deductions >= principal)
      && (r == Failure(NoInstalments) <==> deductions < principal && installments == [])
      && (r == Failure(DoesNotRepay)
          <==> deductions < principal && installments != [] && SumMoney(installments) < principal - deductions)
    ensures var net, flows := ToDecimalMajor(principal - deductions), Majors(installments);
      AprOf(principal, deductions, installments, periodsPerYear) == Failure(DidNotBracket)
      <==> (deductions < principal && installments != [] && SumMoney(installments) >= principal - deductions
            && AllRejected(net, flows, 0))
    ensures (forall k :: 0 <= k < |installments| ==> installments[k] >= 0) ==>
      var net, flows := ToDecimalMajor(principal - deductions), Majors(installments);
      AllRejected(net, flows, 0) <==> Npv(512.0, net, flows) >= 0.0
  {
    var net, flows := ToDecimalMajor(principal - deductions), Majors(installments);
    WorthAtZero(installments);
    BracketFromOne(net, flows);
    if forall k :: 0 <= k < |installments| ==> installments[k] >= 0 {
      BracketRefusedExactlyWhen(net, flows);
    }
  }

  lemma BracketFromOne(net: real, flows: seq<real>)
    ensures BracketHigh(net, flows, 1.0).None? <==> AllRejected(net, flows, 0)
  {
    assert Power2(0) == 1.0;
    BracketTriesPowersOfTwo(net, flows, 0);
  }

  lemma ToleranceIsSmall(high: real)
    requires 1.0 <= high <= 512.0
    ensures 0.0 < Tolerance(high) <= Tolerance(512.0)
  {
    WidthsKeepOrder(high, 512.0, ITERATIONS + 1);
  }

  lemma {:induction false} WidthsKeepOrder(a: real, b: real, halvings: nat)
    requires 0.0 < a <= b
    ensures 0.0 < CellWidth(a, halvings) <= CellWidth(b, halvings)
    decreases halvings
  {
    if halvings > 0 { WidthsKeepOrder(a / 2.0, b / 2.0, halvings - 1); }
  }

  /**
   A deduction above n/2 paise by the merest margin, n times the total payable in units of
   2^-192, lifts the returned rate strictly above the contract rate.
   */
  lemma FeesStrictlyRaiseApr(req: Request, deduction: Paise)
    requires Closed(req) && req.methodology.ReducingBalance? && NeverOverCollects(req)
    requires deduction as real > Months(req) as real * 0.5
      + Times(Times(Months(req) as real, Tolerance(512.0)), SumMoney(Totals(RowsOf(req))) as real)
    requires AprOf(req.principal, deduction, Totals(RowsOf(req)), PERIODS_PER_YEAR).Success?
    ensures AprOf(req.principal, deduction, Totals(RowsOf(req)), PERIODS_PER_YEAR).value.periodicRate > RateOf(req)
  {
    EmiIsNearExact(req);
    NonNegativeFlows(req);
    SolutionIsAbove(req, deduction, ToDecimalMajor(req.principal - deduction), Majors(Totals(RowsOf(req))));
  }

  lemma SolutionIsAbove(req: Request, deduction: Paise, net: real, flows: seq<real>)
    requires Closed(req) && req.methodology.ReducingBalance? && NeverOverCollects(req) && RateOf(req) >= 0.0
    requires deduction as real > Months(req) as real * 0.5
      + Times(Times(Months(req) as real, Tolerance(512.0)), SumMoney(Totals(RowsOf(req))) as real)
    requires net == ToDecimalMajor(req.principal - deduction) && flows == Majors(Totals(RowsOf(req)))
    requires AllNonNegative(flows) && net > 0.0 && Solve(net, flows).Success?
    ensures Solve(net, flows).value > RateOf(req)
  {
    BracketRefusedExactlyWhen(net, flows);
    var tolerance := Tolerance(BracketHigh(net, flows, 1.0).value);
    ToleranceIsSmall(BracketHigh(net, flows, 1.0).value);
    StillPositive(req, deduction, tolerance);
    RateIsSignChange(net, flows, RateOf(req) + tolerance);
  }

  lemma StillPositive(req: Request, deduction: Paise, h: real)
    requires Closed(req) && req.methodology.ReducingBalance? && NeverOverCollects(req) && RateOf(req) >= 0.0
    requires 0.0 <= h <= Tolerance(512.0)
    requires deduction as real > Months(req) as real * 0.5
      + Times(Times(Months(req) as real, Tolerance(512.0)), SumMoney(Totals(RowsOf(req))) as real)
    ensures Npv(RateOf(req) + h, ToDecimalMajor(req.principal - deduction), Majors(Totals(RowsOf(req)))) > 0.0
  {
    NonNegativeFlows(req);
    ScheduleConserves(req);
    WorthHoldsUp(RateOf(req), h, Totals(RowsOf(req)));
    NpvAtContractRate(req, deduction);
    ScheduleErrorsAreSmall(req);
  }

  lemma WorthHoldsUp(rate: real, h: real, totals: seq<Paise>)
    requires rate >= 0.0 && 0.0 <= h <= Tolerance(512.0) && AllNonNegative(Majors(totals))
    ensures PresentValue(rate, Majors(totals)) * 100.0 <= PresentValue(rate + h, Majors(totals)) * 100.0
      + Times(Times(|totals| as real, Tolerance(512.0)), SumMoney(totals) as real)
  {
    var slope := Times(|totals| as real, Tolerance(512.0));
    ScaleUp(|totals| as real, h, Tolerance(512.0));
    PresentValueIsLipschitz(rate, h, Majors(totals), slope);
    WorthAtZero(totals);
    TimesHundredth(slope, SumMoney(totals) as real);
  }

  lemma ScaleUp(n: real, h: real, t: real)
    requires n >= 0.0 && h <= t
    ensures Times(n, h) <= Times(n, t)
  {
  }

  lemma TimesHundredth(slope: real, x: real)
    ensures Times(slope, x / 100.0) * 100.0 == Times(slope, x)
  {
  }

  /**
   Whether a fee lifts the returned rate above the contract rate: exactly when it is at least
   what the instalments, valued at the grid point of the bisection nearest to the contract
   rate, fall short of the principal. Any methodology, any rate that is not negative.
   */
  lemma FeesRaiseAprExactlyWhen(req: Request, deduction: Paise)
    requires Closed(req) && RateOf(req) >= 0.0
    requires forall k :: 0 <= k < |RowsOf(req)| ==> Totals(RowsOf(req))[k] >= 0
    requires AprOf(req.principal, deduction, Totals(RowsOf(req)), PERIODS_PER_YEAR).Success?
    ensures var w := CellWidth(BracketHigh(ToDecimalMajor(req.principal - deduction), Majors(Totals(RowsOf(req))), 1.0).value,
                                ITERATIONS);
      && w > 0.0 && NearestOnGrid(RateOf(req), w) >= 0.0
      && (AprOf(req.principal, deduction, Totals(RowsOf(req)), PERIODS_PER_YEAR).value.periodicRate > RateOf(req)
          <==> deduction as real >= req.principal as real - WorthOf(RowsOf(req), NearestOnGrid(RateOf(req), w)))
  {
    AprExceedsExactlyWhen(req.principal, deduction, Totals(RowsOf(req)), PERIODS_PER_YEAR, RateOf(req));
  }

  /** The same for any instalments that are not negative and any rate to compare with. */
  lemma AprExceedsExactlyWhen(principal: Paise, deduction: Paise, totals: seq<Paise>, periodsPerYear: real, rate: real)
    requires rate >= 0.0 && forall k :: 0 <= k < |totals| ==> totals[k] >= 0
    requires AprOf(principal, deduction, totals, periodsPerYear).Success?
    ensures var w := CellWidth(BracketHigh(ToDecimalMajor(principal - deduction), Majors(totals), 1.0).value, ITERATIONS);
      && w > 0.0 && NearestOnGrid(rate, w) >= 0.0
      && (AprOf(principal, deduction, totals, periodsPerYear).value.periodicRate > rate
          <==> deduction as real >= principal as real - PresentValue(NearestOnGrid(rate, w), Reals(totals)))
  {
    var net, flows := ToDecimalMajor(principal - deduction), Majors(totals);
    SolutionIsAboveExactlyWhen(net, flows, rate);
    WorthInMajors(NearestOnGrid(rate, CellWidth(BracketHigh(net, flows, 1.0).value, ITERATIONS)), totals);
  }

  /**
   To within the tolerance the rounding errors at the contract rate itself decide: a deduction
   D puts the returned rate on the upper side if D + R >= 0 and on the lower side otherwise,
   R being the discounted errors.
   */
  lemma FeesAgainstRounding(req: Request, deduction: Paise)
    requires Closed(req) && req.methodology.ReducingBalance? && NeverOverCollects(req)
    requires AprOf(req.principal, deduction, Totals(RowsOf(req)), PERIODS_PER_YEAR).Success?
    ensures RateOf(req) >= 0.0
    ensures var net, flows := ToDecimalMajor(req.principal - deduction), Majors(Totals(RowsOf(req)));
      var rate := AprOf(req.principal, deduction, Totals(RowsOf(req)), PERIODS_PER_YEAR).value.periodicRate;
      var tolerance := Tolerance(BracketHigh(net, flows, 1.0).value);
      if deduction as real + DiscountedErrors(RowsOf(req), RateOf(req)) >= 0.0
      then rate > RateOf(req) - tolerance
      else rate <= RateOf(req) + tolerance
  {
    EmiIsNearExact(req);
    NpvSignAtContractRate(req, deduction);
    NonNegativeFlows(req);
    RateIsSignChange(ToDecimalMajor(req.principal - deduction), Majors(Totals(RowsOf(req))), RateOf(req));
  }

  lemma NpvSignAtContractRate(req: Request, deduction: Paise)
    requires Closed(req) && req.methodology.ReducingBalance? && RateOf(req) >= 0.0
    ensures Npv(RateOf(req), ToDecimalMajor(req.principal - deduction), Majors(Totals(RowsOf(req)))) >= 0.0
       <==> deduction as real + DiscountedErrors(RowsOf(req), RateOf(req)) >= 0.0
  {
    NpvAtContractRate(req, deduction);
  }

  // ---------- A fee too small to show ----------

  /** 45 paise at 12% over 4 months: four interest charges below half a paisa round away. */
  function SmallLoan(): Request {
    Request(45, 12.0, 4.0, ReducingBalance, Date(2026, 0, 10))
  }

  lemma SmallLoanRows()
    ensures Closed(SmallLoan()) && Months(SmallLoan()) == 4 && RateOf(SmallLoan()) == 0.01
    ensures var t := TermsOf(SmallLoan());
      && (Balance(t, 0) == 45 && Interest(t, 0) == 0) && (Balance(t, 1) == 33 && Interest(t, 1) == 0)
      && (Balance(t, 2) == 21 && Interest(t, 2) == 0) && (Balance(t, 3) == 9 && Interest(t, 3) == 0)
  {
    assert (4.0).Floor == 4;
    EquatedIsRounded(45, 12.0, 4);
    SmallPowers();
    assert 11.5 <= 45.0 * 1.04060401 / 4.060401 <= 12.0;
    NearestIsUnique(ExactInstallment(45, 0.01, 4), 12);
    var t := TermsOf(SmallLoan());
    assert t == Terms(ReducingBalance, 45, 0.01, 12);
    RoundsAway(45);
    RoundsAway(33);
    RoundsAway(21);
    RoundsAway(9);
    assert Balance(t, 1) == 33;
    assert Balance(t, 2) == 21;
    assert Balance(t, 3) == 9;
  }

  lemma SmallPowers()
    ensures Pow(1.01, 1) == 1.01 && Pow(1.01, 2) == 1.0201 && Pow(1.01, 3) == 1.030301 && Pow(1.01, 4) == 1.04060401
    ensures GeometricSum(1.01, 4) == 4.060401
  {
    assert Pow(1.01, 0) == 1.0;
    assert Pow(1.01, 1) == 1.01;
    assert Pow(1.01, 2) == 1.0201;
    assert Pow(1.01, 3) == 1.030301;
    assert GeometricSum(1.01, 2) == 2.01;
  }

  lemma RoundsAway(amount: Paise)
    requires 0 <= amount < 50
    ensures Multiply(amount, 0.01) == 0
  {
    MultiplyNearest(amount, 0.01);
    NearestIsUnique(Times(amount as real, 0.01), 0);
  }

  /**
   Its 1 paisa fee does not make up for the rounding: the quoted rate is below the 1% a month
   of the contract, although the fee was deducted.
   */
  lemma TinyFeeIsLostInRounding()
    ensures Closed(SmallLoan()) && RateOf(SmallLoan()) == 0.01 && NeverOverCollects(SmallLoan())
    ensures var r := AprOf(45, 1, Totals(RowsOf(SmallLoan())), PERIODS_PER_YEAR);
      r.Success? && r.value.periodicRate < 0.01
  {
    SmallLoanRows();
    NeverOverCollectsExactlyWhen(SmallLoan());
    SmallLoanTotals();
    TinyFeeRate(Totals(RowsOf(SmallLoan())));
  }

  lemma TinyFeeRate(totals: seq<Paise>)
    requires totals == [12, 12, 12, 9]
    ensures var r := AprOf(45, 1, totals, PERIODS_PER_YEAR); r.Success? && r.value.periodicRate < 0.01
  {
    SmallLoanWorth();
    assert Majors(totals) == [0.12, 0.12, 0.12, 0.09];
    RateIsBelow(45, 1, totals, 0.0099);
  }

  lemma RateIsBelow(principal: Paise, deduction: Paise, totals: seq<Paise>, r: real)
    requires principal > deduction && |totals| > 0 && AllNonNegative(Majors(totals)) && 0.0 <= r < 1.0
    requires Npv(0.0, ToDecimalMajor(principal - deduction), Majors(totals)) >= 0.0
    requires Npv(r, ToDecimalMajor(principal - deduction), Majors(totals)) < 0.0
    ensures var apr := AprOf(principal, deduction, totals, PERIODS_PER_YEAR);
      apr.Success? && apr.value.periodicRate < r + 0.0001
  {
    PresentValueDecreases(r, 1.0, Majors(totals));
    assert BracketHigh(ToDecimalMajor(principal - deduction), Majors(totals), 1.0) == Some(1.0);
    RateIsSignChange(ToDecimalMajor(principal - deduction), Majors(totals), r);
    FinalCellIsSmall(ITERATIONS + 1);
  }

  lemma {:induction false} FinalCellIsSmall(n: nat)
    requires n >= 14
    ensures 0.0 < CellWidth(1.0, n) < 0.0001
  {
    if n > 14 {
      FinalCellIsSmall(n - 1);
      OneMoreHalving(1.0, n - 1);
    }
  }

  lemma SmallLoanTotal(k: nat)
    requires k < 4
    ensures Closed(SmallLoan()) && |Totals(RowsOf(SmallLoan()))| == 4
    ensures Totals(RowsOf(SmallLoan()))[k] == if k == 3 then 9 else 12
  {
    SmallLoanRows();
    RowsAt(SmallLoan(), k);
  }

  lemma SmallLoanTotals()
    ensures Closed(SmallLoan()) && Totals(RowsOf(SmallLoan())) == [12, 12, 12, 9]
  {
    SmallLoanTotal(0);
    var totals := Totals(RowsOf(SmallLoan()));
    forall k | 0 <= k < 4 ensures totals[k] == if k == 3 then 9 else 12 {
      SmallLoanTotal(k);
    }
    ListOfFour(totals);
  }

  lemma ListOfFour(totals: seq<Paise>)
    requires |totals| == 4 && forall k :: 0 <= k < 4 ==> totals[k] == if k == 3 then 9 else 12
    ensures totals == [12, 12, 12, 9]
  {
  }

  lemma SmallLoanWorth()
    ensures PresentValue(0.0, [0.12, 0.12, 0.12, 0.09]) == 0.45
    ensures PresentValue(0.0099, [0.12, 0.12, 0.12, 0.09]) < 0.44
  {
    WorthOfFour(0.0);
    WorthOfFour(0.0099);
  }

  lemma WorthOfFour(r: real)
    requires r >= 0.0
    ensures PresentValue(r, [0.12, 0.12, 0.12, 0.09])
         == Over(0.12, Pow(1.0 + r, 1)) + Over(0.12, Pow(1.0 + r, 2)) + Over(0.12, Pow(1.0 + r, 3)) + Over(0.09, Pow(1.0 + r, 4))
  {
    var flows := [0.12, 0.12, 0.12, 0.09];
    assert flows[..3] == [0.12, 0.12, 0.12] && flows[..3][..2] == [0.12, 0.12] && flows[..3][..2][..1] == [0.12];
    assert PresentValue(r, [0.12]) == Over(0.12, Pow(1.0 + r, 1));
    assert PresentValue(r, [0.12, 0.12]) == PresentValue(r, [0.12]) + Over(0.12, Pow(1.0 + r, 2));
  }
}
