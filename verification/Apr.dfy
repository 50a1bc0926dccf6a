/**
 The annual percentage rate: the bracketing and bisection loops of the original, proved
 equal to their recursive forms BracketHigh and Bisect over exact reals.
 */
module Apr {
  import opened Prelude
  import opened Rounding
  import opened RealPowers
  import opened Money

  datatype AprError = DeductionsSwallowPrincipal | NoInstalments | DoesNotRepay | DidNotBracket

  datatype AprResult = AprResult(
    periodicRate: real,
    nominalAnnualPercent: real,
    netDisbursed: Paise,
    totalPayable: Paise)

  const ITERATIONS: nat := 200
  const HIGH_LIMIT := 1000.0

  function Discounted(amount: real, rate: real, periods: nat): real
    requires rate >= 0.0
  {
    Over(amount, Pow(1.0 + rate, periods))
  }

  function PresentValue(rate: real, flows: seq<real>): real
    requires rate >= 0.0
  {
    var n := |flows|;
    if n == 0 then 0.0 else PresentValue(rate, flows[..n - 1]) + Discounted(flows[n - 1], rate, n)
  }

  function Npv(rate: real, net: real, flows: seq<real>): real
    requires rate >= 0.0
  {
    PresentValue(rate, flows) - net
  }

  /** Decimal.isPositive looks at the sign alone, and a difference of equals carries a plus sign. */
  predicate IsPositive(x: real) {
    x >= 0.0
  }

  function Majors(amounts: seq<Paise>): (flows: seq<real>)
    ensures |flows| == |amounts|
    ensures forall k :: 0 <= k < |amounts| ==> flows[k] == ToDecimalMajor(amounts[k])
  {
    seq(|amounts|, k requires 0 <= k < |amounts| => ToDecimalMajor(amounts[k]))
  }

  // ---------- What the two loops compute ----------

  /** The first doubled upper bound whose npv is below zero, if one comes before the limit. */
  function BracketHigh(net: real, flows: seq<real>, high: real): (r: Option<real>)
    requires high >= 1.0
    ensures r.Some? ==> r.value >= high && Npv(r.value, net, flows) < 0.0
    decreases 2.0 * HIGH_LIMIT - high
  {
    if IsPositive(Npv(high, net, flows)) then
      var doubled := high * 2.0;
      if doubled > HIGH_LIMIT then None else BracketHigh(net, flows, doubled)
    else Some(high)
  }

  /** The interval left after so many halvings. */
  function Bisect(net: real, flows: seq<real>, low: real, high: real, steps: nat): (cell: (real, real))
    requires 0.0 <= low <= high
    ensures low <= cell.0 <= cell.1 <= high
    decreases |flows|, steps
  {
    if steps == 0 then (low, high)
    else
      var mid := (low + high) / 2.0;
      if IsPositive(Npv(mid, net, flows)) then Bisect(net, flows, mid, high, steps - 1)
      else Bisect(net, flows, low, mid, steps - 1)
  }

  function Round4(x: real): real {
    HalfEven(x * 10000.0) as real / 10000.0
  }

  function NominalPercent(rate: real, periodsPerYear: real): real {
    Round4(rate * periodsPerYear * 100.0)
  }

  function Midpoint(cell: (real, real)): real {
    (cell.0 + cell.1) / 2.0
  }

  function Solve(net: real, flows: seq<real>): Result<real, AprError> {
    if Npv(0.0, net, flows) < 0.0 then Failure(DoesNotRepay)
    else
      match BracketHigh(net, flows, 1.0)
      case None => Failure(DidNotBracket)
      case Some(high) => Success(Midpoint(Bisect(net, flows, 0.0, high, ITERATIONS)))
  }

  function AprOf(principal: Paise, deductions: Paise, installments: seq<Paise>, periodsPerYear: real): Result<AprResult, AprError> {
    var net := principal - deductions;
    if net <= 0 then Failure(DeductionsSwallowPrincipal)
    else if |installments| == 0 then Failure(NoInstalments)
    else
      match Solve(ToDecimalMajor(net), Majors(installments))
      case Failure(e) => Failure(e)
      case Success(rate) =>
        Success(AprResult(rate, NominalPercent(rate, periodsPerYear), net, SumMoney(installments)))
  }

  // ---------- The loops of the original ----------

  method BracketLoop(target: real, flows: seq<real>) returns (r: Option<real>)
    ensures r == BracketHigh(target, flows, 1.0)
  {
    var high := 1.0;
    while IsPositive(Npv(high, target, flows))
      invariant high >= 1.0
      invariant BracketHigh(target, flows, high) == BracketHigh(target, flows, 1.0)
      decreases 2.0 * HIGH_LIMIT - high
    {
      high := high * 2.0;
      if high > HIGH_LIMIT {
        return None;
      }
    }
    return Some(high);
  }

  method BisectionLoop(target: real, flows: seq<real>, bracket: real) returns (low: real, high: real)
    requires bracket >= 0.0
    ensures (low, high) == Bisect(target, flows, 0.0, bracket, ITERATIONS)
  {
    low, high := 0.0, bracket;
    var iteration: nat := 0;
    while iteration < ITERATIONS
      invariant iteration <= ITERATIONS && 0.0 <= low <= high
      invariant Bisect(target, flows, low, high, ITERATIONS - iteration) == Bisect(target, flows, 0.0, bracket, ITERATIONS)
    {
      var mid := (low + high) / 2.0;
      if IsPositive(Npv(mid, target, flows)) {
        low := mid;
      } else {
        high := mid;
      }
      iteration := iteration + 1;
    }
  }

  method CalculateApr(principal: Paise, upfrontDeductions: Paise, installments: seq<Paise>, periodsPerYear: real)
    returns (r: Result<AprResult, AprError>)
    ensures r == AprOf(principal, upfrontDeductions, installments, periodsPerYear)
  {
    var netDisbursed := principal - upfrontDeductions;
    if netDisbursed <= 0 {
      return Failure(DeductionsSwallowPrincipal);
    }
    if |installments| == 0 {
      return Failure(NoInstalments);
    }
    var target := ToDecimalMajor(netDisbursed);
    var flows := Majors(installments);
    var totalPayable := SumMoney(installments);
    if Npv(0.0, target, flows) < 0.0 {
      return Failure(DoesNotRepay);
    }
    var bracket := BracketLoop(target, flows);
    if bracket.None? {
      return Failure(DidNotBracket);
    }
    var low, high := BisectionLoop(target, flows, bracket.value);
    var periodicRate := Midpoint((low, high));
    r := Success(AprResult(periodicRate, NominalPercent(periodicRate, periodsPerYear), netDisbursed, totalPayable));
  }
}
