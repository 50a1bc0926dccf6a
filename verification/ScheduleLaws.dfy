/**
 What every schedule guarantees: conservation of principal, bounded rounding residue,
 nonnegative rows, and the comparison of the two interest methodologies.
 */
module ScheduleLaws {
  import opened Prelude
  import opened Rounding
  import opened RealPowers
  import opened Money
  import opened Calendar
  import opened Amortization

  /** A request that gets a schedule over a whole number of months. */
  predicate Closed(req: Request) {
    req.firstDueDate.Valid() && PlannedEmi(req).Success? && Whole(req.tenureMonths) && req.tenureMonths >= 1.0
  }

  function Months(req: Request): (n: nat)
    requires Closed(req)
    ensures n >= 1 && n as real == req.tenureMonths
  {
    req.tenureMonths.Floor
  }

  function RateOf(req: Request): real {
    PeriodicRate(req.annualRatePercent)
  }

  lemma RowsAt(req: Request, k: nat)
    requires Closed(req) && k < Months(req)
    ensures |RowsOf(req)| == Months(req)
    ensures RowsOf(req)[k] == Row(TermsOf(req), k == Months(req) - 1, req.firstDueDate, k)
  {
    assert IsFinal(req.tenureMonths, k) <==> k == Months(req) - 1;
  }

  // ---------- Conservation ----------

  lemma {:induction false} RowsTelescope(t: Terms, rows: seq<Installment>)
    requires forall k :: 0 <= k < |rows| ==> rows[k].principalDue == Balance(t, k) - Balance(t, k + 1)
    ensures TotalPrincipal(rows) == t.principal - Balance(t, |rows|)
  {
    if |rows| > 0 {
      RowsTelescope(t, rows[..|rows| - 1]);
    }
  }

  /** Ordinary rows repay the principal down to the running balance. */
  lemma OrdinaryRowsTelescope(req: Request, k: nat)
    requires req.firstDueDate.Valid() && PlannedEmi(req).Success?
    requires k <= RowCount(req.tenureMonths)
    requires k > 0 ==> !IsFinal(req.tenureMonths, k - 1)
    ensures TotalPrincipal(RowsOf(req)[..k]) == req.principal - Balance(TermsOf(req), k)
  {
    var rows := RowsOf(req)[..k];
    forall j | 0 <= j < k ensures rows[j].principalDue == Balance(TermsOf(req), j) - Balance(TermsOf(req), j + 1) {
      OrdinaryRowOf(req, j);
    }
    RowsTelescope(TermsOf(req), rows);
  }

  lemma OrdinaryRowOf(req: Request, j: nat)
    requires req.firstDueDate.Valid() && PlannedEmi(req).Success?
    requires j < RowCount(req.tenureMonths) && !IsFinal(req.tenureMonths, j)
    ensures RowsOf(req)[j].principalDue == Balance(TermsOf(req), j) - Balance(TermsOf(req), j + 1)
  {
  }

  /**
   Conservation: over whole months the rows chain opening to closing, the last closes at
   zero, the principal parts sum exactly to the loan and every total is its two parts.
   */
  lemma ScheduleConserves(req: Request)
    requires Closed(req)
    ensures ScheduleOf(req).Success? && |RowsOf(req)| == Months(req)
    ensures ScheduleOf(req).value.installments == RowsOf(req) && ScheduleOf(req).value.emi == PlannedEmi(req).value
    ensures RowsOf(req)[0].openingPrincipal == req.principal
    ensures forall k :: 0 <= k < Months(req) - 1 ==> RowsOf(req)[k + 1].openingPrincipal == RowsOf(req)[k].closingPrincipal
    ensures forall k :: 0 <= k < Months(req) ==>
      && RowsOf(req)[k].number == k + 1
      && RowsOf(req)[k].closingPrincipal == RowsOf(req)[k].openingPrincipal - RowsOf(req)[k].principalDue
      && RowsOf(req)[k].totalDue == RowsOf(req)[k].principalDue + RowsOf(req)[k].interestDue
    ensures RowsOf(req)[Months(req) - 1].closingPrincipal == 0
    ensures ScheduleOf(req).value.totalPrincipal == req.principal
    ensures SumMoney(Totals(RowsOf(req))) == ScheduleOf(req).value.totalPayable
  {
    RowsConserve(req);
    PrincipalIsRepaid(req);
    TotalsSum(RowsOf(req));
  }

  lemma RowsConserve(req: Request)
    requires Closed(req)
    ensures |RowsOf(req)| == Months(req)
    ensures RowsOf(req)[0].openingPrincipal == req.principal
    ensures forall k :: 0 <= k < Months(req) - 1 ==> RowsOf(req)[k + 1].openingPrincipal == RowsOf(req)[k].closingPrincipal
    ensures forall k :: 0 <= k < Months(req) ==>
      && RowsOf(req)[k].number == k + 1
      && RowsOf(req)[k].closingPrincipal == RowsOf(req)[k].openingPrincipal - RowsOf(req)[k].principalDue
      && RowsOf(req)[k].totalDue == RowsOf(req)[k].principalDue + RowsOf(req)[k].interestDue
    ensures RowsOf(req)[Months(req) - 1].closingPrincipal == 0
  {
    forall k | 0 <= k < Months(req) ensures RowIsSound(req, k) {
      SoundRow(req, k);
    }
  }

  /** What holds of row k by itself and towards the next row. */
  predicate RowIsSound(req: Request, k: nat)
    requires Closed(req) && k < Months(req) && |RowsOf(req)| == Months(req)
  {
    var row := RowsOf(req)[k];
    && row.number == k + 1
    && row.closingPrincipal == row.openingPrincipal - row.principalDue
    && row.totalDue == row.principalDue + row.interestDue
    && (k == 0 ==> row.openingPrincipal == req.principal)
    && (if k < Months(req) - 1 then RowsOf(req)[k + 1].openingPrincipal == row.closingPrincipal else row.closingPrincipal == 0)
  }

  lemma SoundRow(req: Request, k: nat)
    requires Closed(req) && k < Months(req)
    ensures |RowsOf(req)| == Months(req) && RowIsSound(req, k)
  {
    RowsAt(req, k);
    if k < Months(req) - 1 { RowsAt(req, k + 1); }
  }

  lemma PrincipalIsRepaid(req: Request)
    requires Closed(req)
    ensures TotalPrincipal(RowsOf(req)) == req.principal
  {
    RowsAt(req, Months(req) - 1);
    OrdinaryRowsTelescope(req, Months(req) - 1);
    LastPartAdds(RowsOf(req), Months(req));
  }

  lemma LastPartAdds(rows: seq<Installment>, n: nat)
    requires |rows| == n > 0
    ensures TotalPrincipal(rows) == TotalPrincipal(rows[..n - 1]) + rows[n - 1].principalDue
  {
  }

  function Totals(rows: seq<Installment>): (flows: seq<Paise>)
    ensures |flows| == |rows|
    ensures forall k :: 0 <= k < |rows| ==> flows[k] == rows[k].totalDue
  {
    seq(|rows|, k requires 0 <= k < |rows| => rows[k].totalDue)
  }

  lemma {:induction false} TotalsSum(rows: seq<Installment>)
    requires forall k :: 0 <= k < |rows| ==> rows[k].totalDue == rows[k].principalDue + rows[k].interestDue
    ensures SumMoney(Totals(rows)) == TotalPrincipal(rows) + TotalInterest(rows)
  {
    if |rows| > 0 {
      var shorter := rows[..|rows| - 1];
      TotalsSum(shorter);
      assert Totals(rows)[..|rows| - 1] == Totals(shorter);
    }
  }

  lemma NoInterestAtZero(amount: Paise)
    ensures Multiply(amount, 0.0) == 0
  {
    MultiplyNearest(amount, 0.0);
    FixesIntegers(0);
  }

  lemma {:induction false} FlatBalance(t: Terms, k: nat)
    requires t.methodology.Flat? || t.rate == 0.0
    ensures Balance(t, k) == t.principal - k * (t.emi - Multiply(t.principal, t.rate))
  {
    if k > 0 {
      FlatBalance(t, k - 1);
      if t.rate == 0.0 {
        NoInterestAtZero(t.principal);
        NoInterestAtZero(Balance(t, k - 1));
      }
      OneMoreRow(k, t.emi - Multiply(t.principal, t.rate));
    }
  }

  /**
   The flat method accepts a fractional or negative tenure and then has no final row to
   absorb the residue. The principal parts sum to the loan exactly when the tenure is a
   whole number of months, or the ordinary rows happen to repay it to the last paisa.
   */
  lemma ConservesExactlyWhen(req: Request)
    requires req.firstDueDate.Valid() && ScheduleOf(req).Success?
    ensures ScheduleOf(req).value.totalPrincipal == req.principal
       <==> ((Whole(req.tenureMonths) && req.tenureMonths >= 1.0)
             || req.principal == RowCount(req.tenureMonths) * (PlannedEmi(req).value - Multiply(req.principal, RateOf(req))))
  {
    if Closed(req) {
      ScheduleConserves(req);
    } else {
      OpenScheduleRepays(req);
    }
  }

  /** With no final row the schedule repays just its ordinary rows. */
  lemma OpenScheduleRepays(req: Request)
    requires req.firstDueDate.Valid() && PlannedEmi(req).Success? && !Closed(req)
    ensures TotalPrincipal(RowsOf(req))
         == RowCount(req.tenureMonths) * (PlannedEmi(req).value - Multiply(req.principal, RateOf(req)))
  {
    OpenRowsTelescope(req);
    FlatBalance(TermsOf(req), RowCount(req.tenureMonths));
  }

  lemma OpenRowsTelescope(req: Request)
    requires req.firstDueDate.Valid() && PlannedEmi(req).Success? && !Closed(req)
    ensures TotalPrincipal(RowsOf(req)) == req.principal - Balance(TermsOf(req), RowCount(req.tenureMonths))
  {
    var m := RowCount(req.tenureMonths);
    assert m > 0 ==> !IsFinal(req.tenureMonths, m - 1);
    OrdinaryRowsTelescope(req, m);
    assert RowsOf(req)[..m] == RowsOf(req);
  }

  /** 10 rupees flat at 0% over 2.5 months: two rows of 4 rupees, 2 rupees never repaid. */
  lemma FractionalTenureLosesPrincipal()
    ensures var req := Request(1000, 0.0, 2.5, Flat, Date(2026, 0, 10));
      ScheduleOf(req).Success? && ScheduleOf(req).value.totalPrincipal == 800
  {
    var req := Request(1000, 0.0, 2.5, Flat, Date(2026, 0, 10));
    FractionalEmi();
    assert (2.5).Floor == 2;
    OrdinaryRowsTelescope(req, 2);
    FlatBalance(TermsOf(req), 2);
    assert RowsOf(req)[..2] == RowsOf(req);
  }

  lemma FractionalEmi()
    ensures FlatInstallment(1000, 0.0, 2.5) == 400 && Multiply(1000, 0.0) == 0
  {
    FlatIsRounded(1000, 0.0, 2.5);
    MultiplyNearest(1000, 0.0);
    FixesIntegers(0);
    FixesIntegers(400);
    DivUnique(1000.0, 400.0, 2.5);
  }

  // ---------- The throw inside the loop, and the shape of the rows ----------

  /**
   Under either methodology every ordinary row covers its interest; on the way to the final
   row balances and interest never rise and the principal part never shrinks.
   */
  lemma RowsAreOrdered(req: Request, k: nat)
    requires Closed(req) && k < Months(req) - 1
    ensures RowsOf(req)[k].principalDue >= 0
    ensures RowsOf(req)[k + 1].openingPrincipal <= RowsOf(req)[k].openingPrincipal <= req.principal
    ensures RowsOf(req)[k + 1].interestDue <= RowsOf(req)[k].interestDue
    ensures k + 1 < Months(req) - 1 ==> RowsOf(req)[k].principalDue <= RowsOf(req)[k + 1].principalDue
  {
    RowsAt(req, k);
    RowsAt(req, k + 1);
    InstalmentCoversInterest(req, k);
    InstalmentCoversInterest(req, k + 1);
  }

  // ---------- Bounded residue ----------

  /** The balance with no rounding at all, paying E a period. */
  function ExactBalance(principal: real, g: real, e: real, k: nat): real {
    if k == 0 then principal else Times(g, ExactBalance(principal, g, e, k - 1)) - e
  }

  lemma {:induction false} ExactBalanceClosed(principal: real, g: real, e: real, k: nat)
    ensures ExactBalance(principal, g, e, k) == Times(Pow(g, k), principal) - Times(GeometricSum(g, k), e)
  {
    if k > 0 {
      ExactBalanceClosed(principal, g, e, k - 1);
      GeometricStep(g, k - 1);
      assert Pow(g, k) == Times(Pow(g, k - 1), g);
      ClosedStep(Pow(g, k - 1), GeometricSum(g, k - 1), principal, g, e,
                 ExactBalance(principal, g, e, k - 1), Pow(g, k), GeometricSum(g, k));
    }
  }

  lemma ClosedStep(w: real, s: real, p: real, g: real, e: real, x: real, w': real, s': real)
    requires x == Times(w, p) - Times(s, e)
    requires w' == Times(w, g) && s' == Times(g, s) + 1.0
    ensures Times(g, x) - e == Times(w', p) - Times(s', e)
  {
    assert g * (w * p - s * e) - e == (w * g) * p - (g * s + 1.0) * e;
  }

  /** The exact instalment is the one that clears the loan in n periods. */
  lemma ExactInstallmentClears(principal: Paise, rate: real, n: nat)
    requires rate >= 0.0 && n > 0
    ensures ExactBalance(principal as real, 1.0 + rate, ExactInstallment(principal, rate, n), n) == 0.0
  {
    GeometricAtLeast(1.0 + rate, n);
    ExactBalanceClosed(principal as real, 1.0 + rate, ExactInstallment(principal, rate, n), n);
    QuotientTimes(Times(Pow(1.0 + rate, n), principal as real), GeometricSum(1.0 + rate, n));
  }

  lemma QuotientTimes(x: real, s: real)
    requires s != 0.0
    ensures Times(s, Over(x, s)) == x
  {
  }

  /** Rounding each interest once and the instalment once drifts by at most s_k paise. */
  lemma {:induction false} RoundedTracksExact(t: Terms, e: real, k: nat)
    requires t.methodology.ReducingBalance? && t.rate >= 0.0
    requires Abs(t.emi as real - e) <= 0.5
    ensures Abs(Balance(t, k) as real - ExactBalance(t.principal as real, 1.0 + t.rate, e, k))
         <= GeometricSum(1.0 + t.rate, k)
  {
    if k > 0 {
      var b := Balance(t, k - 1);
      RoundedTracksExact(t, e, k - 1);
      MultiplyNearest(b, t.rate);
      GeometricStep(1.0 + t.rate, k - 1);
      DriftStep(b as real, ExactBalance(t.principal as real, 1.0 + t.rate, e, k - 1), t.rate, 1.0 + t.rate,
                InterestOn(t, b) as real, t.emi as real, e, GeometricSum(1.0 + t.rate, k - 1),
                Balance(t, k) as real, ExactBalance(t.principal as real, 1.0 + t.rate, e, k),
                GeometricSum(1.0 + t.rate, k));
    }
  }

  lemma DriftStep(b: real, x: real, rate: real, g: real, interest: real, emi: real, e: real, s: real,
                  b': real, x': real, s': real)
    requires rate >= 0.0 && g == 1.0 + rate && Abs(b - x) <= s
    requires Abs(interest - Times(b, rate)) <= 0.5 && Abs(emi - e) <= 0.5
    requires b' == b - (emi - interest) && x' == Times(g, x) - e && s' == Times(g, s) + 1.0
    ensures Abs(b' - x') <= s'
  {
    Growth(b, x, rate, g, b - x);
    ScaleBounds(g, b - x, s);
  }

  lemma Growth(b: real, x: real, rate: real, g: real, d: real)
    requires g == 1.0 + rate && d == b - x
    ensures Times(g, d) == b + Times(b, rate) - Times(g, x)
  {
    assert (1.0 + rate) * (b - x) == b + b * rate - (1.0 + rate) * x;
  }

  lemma ScaleBounds(g: real, d: real, s: real)
    requires g >= 0.0 && Abs(d) <= s
    ensures -Times(g, s) <= Times(g, d) <= Times(g, s)
  {
  }

  lemma EmiIsNearExact(req: Request)
    requires Closed(req) && req.methodology.ReducingBalance?
    ensures RateOf(req) >= 0.0
    ensures PlannedEmi(req).value == HalfEven(ExactInstallment(req.principal, RateOf(req), Months(req)))
    ensures Abs(PlannedEmi(req).value as real - ExactInstallment(req.principal, RateOf(req), Months(req))) <= 0.5
  {
    EquatedIsRounded(req.principal, req.annualRatePercent, Months(req));
    Nearest(ExactInstallment(req.principal, RateOf(req), Months(req)));
  }

  /**
   Bounded residue: the final reducing-balance instalment, which absorbs every rounding,
   differs from the EMI by at most 1 + (1+i) + ... + (1+i)^(n-1) paise.
   */
  lemma FinalInstalmentResidue(req: Request)
    requires Closed(req) && req.methodology.ReducingBalance?
    ensures Abs((RowsOf(req)[Months(req) - 1].totalDue - PlannedEmi(req).value) as real)
         <= GeometricSum(1.0 + RateOf(req), Months(req))
  {
    var n, t := Months(req), TermsOf(req);
    EmiIsNearExact(req);
    RowsAt(req, n - 1);
    RoundedTracksExact(t, ExactInstallment(req.principal, t.rate, n), n);
    ExactInstallmentClears(req.principal, t.rate, n);
    assert Balance(t, n) == RowsOf(req)[n - 1].totalDue - t.emi;
  }

  /** The flat final instalment is within n paise of the EMI, at any rate. */
  lemma FlatFinalInstalmentResidue(req: Request)
    requires Closed(req) && req.methodology.Flat?
    ensures 0 - Months(req) <= RowsOf(req)[Months(req) - 1].totalDue - PlannedEmi(req).value <= Months(req)
  {
    var n, t := Months(req), TermsOf(req);
    RowsAt(req, n - 1);
    FlatBalance(t, n - 1);
    FlatRowsRepay(t.principal, t.rate, n);
    OneMoreRow(n, t.emi - Multiply(t.principal, t.rate));
  }

  lemma OneMoreRow(n: nat, row: int)
    ensures n * row == (n - 1) * row + row
  {
  }

  /** n equal principal parts miss the principal by at most n paise. */
  lemma FlatRowsRepay(principal: Paise, rate: real, n: nat)
    requires n > 0
    ensures 0 - n
      <= principal - n * (FlatInstallment(principal, rate, n as real) - Multiply(principal, rate))
      <= n
  {
    FlatEmiNear(principal, rate, n, n as real * 0.5);
    FlatInterestNear(principal, rate, n);
    FlatErrors(principal as real, Times(principal as real, rate), n as real, n as real * 0.5,
               Multiply(principal, Times(rate, n as real)) as real, Multiply(principal, rate) as real,
               FlatInstallment(principal, rate, n as real) as real);
    RowsRepay(principal, n, Multiply(principal, rate), FlatInstallment(principal, rate, n as real), n as real * 0.5);
  }

  lemma FlatInterestNear(principal: Paise, rate: real, n: nat)
    ensures Abs(Multiply(principal, Times(rate, n as real)) as real - Times(n as real, Times(principal as real, rate))) <= 0.5
    ensures Abs(Multiply(principal, rate) as real - Times(principal as real, rate)) <= 0.5
  {
    MultiplyNearest(principal, Times(rate, n as real));
    MultiplyNearest(principal, rate);
    Reassociate(principal as real, rate, n as real);
  }

  lemma FlatEmiNear(principal: Paise, rate: real, n: nat, h: real)
    requires n > 0 && h == n as real * 0.5
    ensures Abs(Times(n as real, FlatInstallment(principal, rate, n as real) as real)
              - (principal as real + Multiply(principal, Times(rate, n as real)) as real)) <= h
  {
    FlatIsRounded(principal, rate, n as real);
    NearestQuotient((principal + Multiply(principal, Times(rate, n as real))) as real, n as real, h);
  }

  lemma NearestQuotient(x: real, n: real, h: real)
    requires n > 0.0 && h == n * 0.5
    ensures Abs(Times(n, HalfEven(Over(x, n)) as real) - x) <= h
  {
    Nearest(Over(x, n));
    QuotientTimes(x, n);
    HalfScale(n, HalfEven(Over(x, n)) as real, Over(x, n), h);
  }

  lemma HalfScale(m: real, x: real, y: real, h: real)
    requires m >= 0.0 && Abs(x - y) <= 0.5 && h == m * 0.5
    ensures Abs(Times(m, x) - Times(m, y)) <= h
  {
    HalfScaled(m, x - y, h);
    assert m * (x - y) == m * x - m * y;
    assert Times(m, x - y) == Times(m, x) - Times(m, y);
  }

  lemma HalfScaled(m: real, d: real, h: real)
    requires m >= 0.0 && Abs(d) <= 0.5 && h == m * 0.5
    ensures Abs(Times(m, d)) <= h
  {
  }

  lemma FlatErrors(p: real, exact: real, m: real, h: real, total: real, q: real, emi: real)
    requires m >= 0.0 && h == m * 0.5
    requires Abs(Times(m, emi) - (p + total)) <= h
    requires Abs(total - Times(m, exact)) <= 0.5
    requires Abs(q - exact) <= 0.5
    ensures Abs(p - (Times(m, emi) - Times(m, q))) <= h + h + 0.5
  {
    HalfScale(m, q, exact, h);
    ErrorsAdd(p, total, h, Times(m, emi), Times(m, q), Times(m, exact));
  }

  lemma ErrorsAdd(p: real, total: real, h: real, x: real, y: real, z: real)
    requires Abs(x - (p + total)) <= h && Abs(total - z) <= 0.5 && Abs(y - z) <= h
    ensures Abs(p - (x - y)) <= h + h + 0.5
  {
  }

  lemma RowsRepay(p: int, n: nat, q: int, emi: int, h: real)
    requires h == n as real * 0.5
    requires Abs(p as real - (Times(n as real, emi as real) - Times(n as real, q as real))) <= h + h + 0.5
    ensures 0 - n <= p - n * (emi - q) <= n
  {
    SplitRow(n, emi, q);
  }

  lemma SplitRow(n: int, emi: int, q: int)
    ensures n * (emi - q) == n * emi - n * q
    ensures (n * emi) as real == n as real * emi as real
    ensures (n * q) as real == n as real * q as real
  {
  }

  lemma Reassociate(p: real, rate: real, m: real)
    ensures Times(p, Times(rate, m)) == Times(m, Times(p, rate))
  {
    assert p * (rate * m) == m * (p * rate);
  }

  // ---------- No over-collection ----------

  predicate NonNegative(row: Installment) {
    row.openingPrincipal >= 0 && row.closingPrincipal >= 0 && row.principalDue >= 0
    && row.interestDue >= 0 && row.totalDue >= 0
  }

  predicate NeverOverCollects(req: Request)
    requires Closed(req)
  {
    forall k :: 0 <= k < Months(req) ==> NonNegative(RowsOf(req)[k])
  }

  /** Since balances never rise, one number decides: the balance the final row opens with. */
  lemma NeverOverCollectsExactlyWhen(req: Request)
    requires Closed(req) && RateOf(req) >= 0.0
    ensures NeverOverCollects(req) <==> Balance(TermsOf(req), Months(req) - 1) >= 0
  {
    var n, t, rows := Months(req), TermsOf(req), RowsOf(req);
    RowsAt(req, n - 1);
    if NeverOverCollects(req) {
      assert NonNegative(rows[n - 1]);
    }
    if Balance(t, n - 1) >= 0 {
      forall k | 0 <= k < n ensures NonNegative(rows[k]) {
        RowStaysNonNegative(req, k);
      }
    }
  }

  lemma RowStaysNonNegative(req: Request, k: nat)
    requires Closed(req) && RateOf(req) >= 0.0 && k < Months(req) && Balance(TermsOf(req), Months(req) - 1) >= 0
    ensures NonNegative(RowsOf(req)[k])
  {
    RowsAt(req, k);
    BalancesDescend(req, k, Months(req) - 1);
    InterestIsNonNegative(TermsOf(req), k);
    if k < Months(req) - 1 {
      BalancesDescend(req, k + 1, Months(req) - 1);
      OrdinaryRow(req, k);
    }
  }

  lemma InterestIsNonNegative(t: Terms, k: nat)
    requires t.rate >= 0.0 && t.principal >= 0 && Balance(t, k) >= 0
    ensures Interest(t, k) >= 0
  {
    MultiplyKeepsSign(Balance(t, k), t.rate);
    MultiplyKeepsSign(t.principal, t.rate);
  }

  lemma {:induction false} BalancesDescend(req: Request, j: nat, k: nat)
    requires Closed(req) && j <= k
    ensures Balance(TermsOf(req), k) <= Balance(TermsOf(req), j)
    decreases k - j
  {
    if j < k {
      InstalmentCoversInterest(req, j);
      BalancesDescend(req, j + 1, k);
    }
  }

  /** For flat loans, and reducing ones at 0%, the deciding balance is a closed formula. */
  lemma FlatNeverOverCollectsExactlyWhen(req: Request)
    requires Closed(req) && RateOf(req) >= 0.0
    requires req.methodology.Flat? || RateOf(req) == 0.0
    ensures NeverOverCollects(req)
       <==> req.principal >= (Months(req) - 1) * (PlannedEmi(req).value - Multiply(req.principal, RateOf(req)))
  {
    NeverOverCollectsExactlyWhen(req);
    FlatBalance(TermsOf(req), Months(req) - 1);
  }

  lemma LastFlatPrincipal(req: Request)
    requires Closed(req) && (req.methodology.Flat? || RateOf(req) == 0.0)
    ensures |RowsOf(req)| == Months(req)
    ensures RowsOf(req)[Months(req) - 1].principalDue
         == req.principal - (Months(req) - 1) * (PlannedEmi(req).value - Multiply(req.principal, RateOf(req)))
  {
    RowsAt(req, Months(req) - 1);
    FlatBalance(TermsOf(req), Months(req) - 1);
  }

  /** A flat loan of at least n^2 paise is large enough. */
  lemma LargeFlatLoansNeverOverCollect(req: Request)
    requires Closed(req) && RateOf(req) >= 0.0 && req.methodology.Flat?
    requires req.principal >= Months(req) * Months(req)
    ensures NeverOverCollects(req)
  {
    var n := Months(req);
    FlatNeverOverCollectsExactlyWhen(req);
    FlatRowsRepay(req.principal, RateOf(req), n);
    RowBound(n, PlannedEmi(req).value - Multiply(req.principal, RateOf(req)), req.principal);
  }

  lemma RowBound(n: nat, row: int, p: int)
    requires n >= 1 && p >= n * n && n * row <= p + n
    ensures (n - 1) * row <= p
  {
    OneMoreRow(n, row);
    if row < n {
      assert (n - 1) * row <= (n - 1) * n;
    }
  }

  /** A reducing loan whose exact instalment is at least (1+i)*s_(n-1) paise is large enough. */
  lemma LargeReducingLoansNeverOverCollect(req: Request)
    requires Closed(req) && req.methodology.ReducingBalance? && RateOf(req) >= 0.0
    requires ExactInstallment(req.principal, RateOf(req), Months(req))
          >= Times(1.0 + RateOf(req), GeometricSum(1.0 + RateOf(req), Months(req) - 1))
    ensures NeverOverCollects(req)
  {
    var n, t := Months(req), TermsOf(req);
    var g, e := 1.0 + t.rate, ExactInstallment(req.principal, t.rate, n);
    var x, s := ExactBalance(t.principal as real, g, e, n - 1), GeometricSum(g, n - 1);
    EmiIsNearExact(req);
    ExactInstallmentClears(req.principal, t.rate, n);
    RoundedTracksExact(t, e, n - 1);
    CancelFactor(g, x, s);
    NeverOverCollectsExactlyWhen(req);
  }

  lemma CancelFactor(g: real, x: real, s: real)
    requires g > 0.0
    ensures Times(g, x) >= Times(g, s) ==> x >= s
  {
  }

  const TINY_LOAN := Request(6, 0.0, 10.0, ReducingBalance, Date(2026, 0, 10))

  lemma TinyLoanEmi()
    ensures PlannedEmi(TINY_LOAN) == Success(1) && Closed(TINY_LOAN) && Months(TINY_LOAN) == 10
    ensures RateOf(TINY_LOAN) == 0.0 && Multiply(6, 0.0) == 0
  {
    assert (10.0).Floor == 10;
    NoInterestAtZero(6);
    EquatedIsRounded(6, 0.0, 10);
    PowOne(10);
    GeometricOne(10);
    NearestIsUnique(0.6, 1);
  }

  /** The size condition is needed: 6 paise over 10 months at 0% ends by collecting -3 paise. */
  lemma TinyLoanOverCollects()
    ensures Closed(TINY_LOAN) && RowsOf(TINY_LOAN)[9].principalDue == -3 && !NeverOverCollects(TINY_LOAN)
  {
    TinyLoanEmi();
    LastFlatPrincipal(TINY_LOAN);
    FlatNeverOverCollectsExactlyWhen(TINY_LOAN);
  }

  // ---------- Flat against reducing ----------

  /** Flat interest is never cheaper: row by row, and so in total, for the same loan. */
  lemma FlatNeverCostsLess(flat: Request, reducing: Request)
    requires flat.methodology.Flat? && reducing == flat.(methodology := ReducingBalance)
    requires Closed(flat) && Closed(reducing)
    ensures forall k :: 0 <= k < Months(flat) ==> RowsOf(reducing)[k].interestDue <= RowsOf(flat)[k].interestDue
    ensures ScheduleOf(reducing).value.totalInterest <= ScheduleOf(flat).value.totalInterest
  {
    var n := Months(flat);
    forall k | 0 <= k < n ensures RowsOf(reducing)[k].interestDue <= RowsOf(flat)[k].interestDue {
      RowsAt(flat, k);
      RowsAt(reducing, k);
      InstalmentCoversInterest(reducing, k);
      EmiIsNearExact(reducing);
      MultiplyMonotone(Balance(TermsOf(reducing), k), flat.principal, RateOf(flat));
    }
    TotalInterestMonotone(RowsOf(reducing), RowsOf(flat));
  }

  lemma {:induction false} TotalInterestMonotone(a: seq<Installment>, b: seq<Installment>)
    requires |a| == |b| && forall k :: 0 <= k < |a| ==> a[k].interestDue <= b[k].interestDue
    ensures TotalInterest(a) <= TotalInterest(b)
  {
    if |a| > 0 { TotalInterestMonotone(a[..|a| - 1], b[..|b| - 1]); }
  }

  lemma {:induction false} TotalInterestNonNegative(rows: seq<Installment>)
    requires forall k :: 0 <= k < |rows| ==> rows[k].interestDue >= 0
    ensures TotalInterest(rows) >= 0
  {
    if |rows| > 0 { TotalInterestNonNegative(rows[..|rows| - 1]); }
  }
}
