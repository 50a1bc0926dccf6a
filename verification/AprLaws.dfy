/**
 What the disclosed rate means: present value strictly decreases, so the bisection closes in
 on the only possible root; and two runs that differ in fees or instalments stay ordered.
 */
module AprLaws {
  import opened Prelude
  import opened Rounding
  import opened RealPowers
  import opened Money
  import opened Apr

  predicate AllNonNegative(flows: seq<real>) {
    forall k :: 0 <= k < |flows| ==> flows[k] >= 0.0
  }

  predicate SomePositive(flows: seq<real>) {
    exists k :: 0 <= k < |flows| && flows[k] > 0.0
  }

  // ---------- Present value decreases ----------

  lemma QuotientDecreases(a: real, p: real, q: real)
    requires a >= 0.0 && 0.0 < p < q
    ensures a / q <= a / p
    ensures a > 0.0 ==> a / q < a / p
  {
    var x := a / q;
    assert x * q == a;
    if a > 0.0 {
      assert x > 0.0;
      MulStrict(x, p, q);
      DivUnique(x * p, x, p);
      StrictQuotient(x * p, a, p);
    }
  }

  lemma StrictQuotient(x: real, y: real, d: real)
    requires x < y && d > 0.0
    ensures x / d < y / d
  {
  }

  /** Nonnegative instalments are worth no more at a higher rate, and less if any is positive. */
  lemma {:induction false} PresentValueDecreases(r: real, s: real, flows: seq<real>)
    requires 0.0 <= r < s && AllNonNegative(flows)
    ensures PresentValue(s, flows) <= PresentValue(r, flows)
    ensures SomePositive(flows) ==> PresentValue(s, flows) < PresentValue(r, flows)
  {
    var n := |flows|;
    if n > 0 {
      var earlier := flows[..n - 1];
      PresentValueDecreases(r, s, earlier);
      PowMonotone(1.0 + r, 1.0 + s, n);
      QuotientDecreases(flows[n - 1], Pow(1.0 + r, n), Pow(1.0 + s, n));
      if SomePositive(flows) && flows[n - 1] <= 0.0 {
        var k :| 0 <= k < n && flows[k] > 0.0;
        assert earlier[k] > 0.0;
      }
    }
  }

  /** At most one rate makes the present value equal the net amount. */
  lemma AtMostOneRoot(net: real, flows: seq<real>, r: real, s: real)
    requires AllNonNegative(flows) && SomePositive(flows)
    requires r >= 0.0 && s >= 0.0 && Npv(r, net, flows) == 0.0 && Npv(s, net, flows) == 0.0
    ensures r == s
  {
    if r < s { PresentValueDecreases(r, s, flows); }
    if s < r { PresentValueDecreases(s, r, flows); }
  }

  /** Instalments that repay a positive net amount at rate zero contain a positive one. */
  lemma {:induction false} RepaysHasPositive(flows: seq<real>)
    requires PresentValue(0.0, flows) > 0.0
    ensures SomePositive(flows)
  {
    var n := |flows|;
    if flows[n - 1] <= 0.0 {
      PowOne(n);
      RepaysHasPositive(flows[..n - 1]);
      var k :| 0 <= k < n - 1 && flows[..n - 1][k] > 0.0;
      assert flows[k] > 0.0;
    }
  }

  // ---------- The loops keep the root bracketed ----------

  /** Width of an interval after so many halvings. */
  function CellWidth(width: real, halvings: nat): real
    decreases halvings, width
  {
    if halvings == 0 then width else CellWidth(width / 2.0, halvings - 1)
  }

  lemma {:induction false} OneMoreHalving(width: real, halvings: nat)
    ensures CellWidth(width, halvings + 1) == CellWidth(width, halvings) / 2.0
    decreases halvings
  {
    if halvings > 0 { OneMoreHalving(width / 2.0, halvings - 1); }
  }

  /** Each halving keeps npv(high) < 0 and either low untouched or npv(low) >= 0; the width halves. */
  lemma {:induction false} BisectKeepsBracket(net: real, flows: seq<real>, low: real, high: real, steps: nat)
    requires 0.0 <= low <= high && Npv(high, net, flows) < 0.0
    ensures var cell := Bisect(net, flows, low, high, steps);
      && Npv(cell.1, net, flows) < 0.0
      && (cell.0 == low || Npv(cell.0, net, flows) >= 0.0)
      && cell.1 - cell.0 == CellWidth(high - low, steps)
    decreases steps
  {
    if steps > 0 {
      var mid := (low + high) / 2.0;
      assert high - mid == mid - low == (high - low) / 2.0;
      if Npv(mid, net, flows) >= 0.0 {
        BisectKeepsBracket(net, flows, mid, high, steps - 1);
      } else {
        BisectKeepsBracket(net, flows, low, mid, steps - 1);
      }
    }
  }

  /** Half the width of the final interval, for a given bracket: the bracket over 2^201. */
  function Tolerance(high: real): real {
    CellWidth(high, ITERATIONS + 1)
  }

  lemma CellIsNarrow(net: real, flows: seq<real>, high: real)
    requires high >= 1.0 && Npv(high, net, flows) < 0.0
    ensures var cell := Bisect(net, flows, 0.0, high, ITERATIONS);
      && Midpoint(cell) == cell.0 + Tolerance(high)
      && Midpoint(cell) == cell.1 - Tolerance(high)
      && Npv(cell.1, net, flows) < 0.0
      && (cell.0 == 0.0 || Npv(cell.0, net, flows) >= 0.0)
  {
    CellAfter(net, flows, high, ITERATIONS);
  }

  lemma CellAfter(net: real, flows: seq<real>, high: real, steps: nat)
    requires high >= 1.0 && Npv(high, net, flows) < 0.0
    ensures var cell := Bisect(net, flows, 0.0, high, steps); var half := CellWidth(high, steps + 1);
      && Midpoint(cell) == cell.0 + half
      && Midpoint(cell) == cell.1 - half
      && Npv(cell.1, net, flows) < 0.0
      && (cell.0 == 0.0 || Npv(cell.0, net, flows) >= 0.0)
  {
    BisectKeepsBracket(net, flows, 0.0, high, steps);
    assert high - 0.0 == high;
    OneMoreHalving(high, steps);
  }

  /**
   The returned rate sits on the sign change to within the tolerance: a rate worth at least
   the net amount is less than a tolerance above it, one worth at most that no more than one below.
   */
  lemma RateIsSignChange(net: real, flows: seq<real>, r: real)
    requires AllNonNegative(flows) && net > 0.0 && r >= 0.0
    requires Solve(net, flows).Success?
    ensures var high := BracketHigh(net, flows, 1.0).value; var rate := Solve(net, flows).value;
      && (Npv(r, net, flows) >= 0.0 ==> r < rate + Tolerance(high))
      && (Npv(r, net, flows) <= 0.0 ==> r >= rate - Tolerance(high))
  {
    var high := BracketHigh(net, flows, 1.0).value;
    var cell := Bisect(net, flows, 0.0, high, ITERATIONS);
    CellIsNarrow(net, flows, high);
    RepaysHasPositive(flows);
    if Npv(r, net, flows) >= 0.0 && cell.1 < r {
      PresentValueDecreases(cell.1, r, flows);
    }
    if Npv(r, net, flows) <= 0.0 && r < cell.0 {
      PresentValueDecreases(r, cell.0, flows);
    }
  }

  /** Every exact root lies within the tolerance of the returned rate. */
  lemma RootIsNearRate(net: real, flows: seq<real>, root: real)
    requires AllNonNegative(flows) && net > 0.0 && root >= 0.0
    requires Solve(net, flows).Success? && Npv(root, net, flows) == 0.0
    ensures var high := BracketHigh(net, flows, 1.0).value;
      Abs(root - Solve(net, flows).value) <= Tolerance(high)
  {
    RateIsSignChange(net, flows, root);
  }

  // ---------- On which side of a given rate the result falls ----------

  // The halvings only ever land on multiples of the final cell's width.

  function OnGrid(index: int, w: real): real {
    Times(index as real, w)
  }

  function Doubles(n: nat): (p: nat)
    ensures p as real == Pow(2.0, n)
  {
    if n == 0 then 1 else 2 * Doubles(n - 1)
  }

  lemma GridAdds(j: int, k: int, w: real)
    ensures OnGrid(j + k, w) == OnGrid(j, w) + OnGrid(k, w)
  {
    assert (j + k) as real == j as real + k as real;
  }

  lemma GridOrder(j: int, k: int, w: real)
    requires w > 0.0 && 0 <= j <= k
    ensures 0.0 <= OnGrid(j, w) <= OnGrid(k, w)
    ensures j < k ==> OnGrid(j, w) < OnGrid(k, w)
  {
    MulMono(j as real, 0.0, w);
    MulMono(k as real, j as real, w);
    if j < k { MulStrict(w, j as real, k as real); }
  }

  lemma {:induction false} WidthsFill(high: real, steps: nat)
    requires high > 0.0
    ensures CellWidth(high, steps) > 0.0 && OnGrid(Doubles(steps), CellWidth(high, steps)) == high
    ensures OnGrid(0, CellWidth(high, steps)) == 0.0
    decreases steps
  {
    if steps > 0 {
      WidthsFill(high / 2.0, steps - 1);
      assert (2 * Doubles(steps - 1)) as real * CellWidth(high, steps)
          == 2.0 * (Doubles(steps - 1) as real * CellWidth(high, steps));
    }
  }

  /** Bisecting an interval ends in one of the 2^steps cells it is made of. */
  lemma {:induction false} BisectEndsInCell(net: real, flows: seq<real>, low: real, high: real, steps: nat) returns (c: nat)
    requires 0.0 <= low < high
    ensures Bisect(net, flows, low, high, steps) == CellAt(low, c, CellWidth(high - low, steps))
    decreases steps
  {
    if steps == 0 {
      c := 0;
    } else {
      var mid := (low + high) / 2.0;
      assert high - mid == mid - low == (high - low) / 2.0;
      if IsPositive(Npv(mid, net, flows)) {
        var k := BisectEndsInCell(net, flows, mid, high, steps - 1);
        c := Doubles(steps - 1) + k;
        UpperHalf(low, mid, high - low, steps - 1, k);
      } else {
        c := BisectEndsInCell(net, flows, low, mid, steps - 1);
      }
    }
  }

  function CellAt(low: real, c: nat, w: real): (real, real) {
    (low + OnGrid(c, w), low + OnGrid(c + 1, w))
  }

  lemma UpperHalf(low: real, mid: real, width: real, steps: nat, k: nat)
    requires width > 0.0 && mid == low + width / 2.0
    ensures CellAt(mid, k, CellWidth(width / 2.0, steps)) == CellAt(low, Doubles(steps) + k, CellWidth(width, steps + 1))
  {
    var w, n := CellWidth(width / 2.0, steps), Doubles(steps);
    WidthsFill(width / 2.0, steps);
    GridAdds(n, k, w);
    GridAdds(n, k + 1, w);
    assert n + k + 1 == n + (k + 1);
  }

  /** The grid point nearest to a rate, the upper one if two are equally near. */
  function NearestOnGrid(rate: real, w: real): real
    requires w > 0.0
  {
    OnGrid((rate / w + 0.5).Floor, w)
  }

  /** The tolerance of every law here is the bracket over 2^201. */
  lemma ToleranceScale(high: real, halvings: nat)
    requires high > 0.0 && halvings == 201
    ensures Times(Pow(2.0, halvings), Tolerance(high)) == high
  {
    WidthsFill(high, halvings);
  }

  /** The midpoint of cell c is above a rate exactly when the rate's nearest grid point is at most c. */
  lemma MidpointAbove(c: nat, w: real, rate: real)
    requires w > 0.0 && rate >= 0.0
    ensures (rate / w + 0.5).Floor >= 0
    ensures Midpoint((OnGrid(c, w), OnGrid(c + 1, w))) > rate <==> (rate / w + 0.5).Floor <= c
  {
    var q := rate / w;
    assert q * w == rate;
    assert (c + 1) as real * w == c as real * w + w;
    assert (c as real + 0.5) * w == c as real * w + 0.5 * w;
    NonNegativeQuotient(rate, w);
    if c as real + 0.5 > q {
      MulStrict(w, q, c as real + 0.5);
    } else {
      MulMono(q, c as real + 0.5, w);
    }
  }

  lemma NonNegativeQuotient(x: real, d: real)
    requires x >= 0.0 && d > 0.0
    ensures x / d >= 0.0
  {
  }

  /**
   The returned rate is above a given rate exactly when the net present value at the grid
   point nearest to that rate is not negative.
   */
  lemma SolutionIsAboveExactlyWhen(net: real, flows: seq<real>, rate: real)
    requires AllNonNegative(flows) && rate >= 0.0 && Solve(net, flows).Success?
    ensures var w := CellWidth(BracketHigh(net, flows, 1.0).value, ITERATIONS);
      && w > 0.0 && NearestOnGrid(rate, w) >= 0.0
      && (Solve(net, flows).value > rate <==> Npv(NearestOnGrid(rate, w), net, flows) >= 0.0)
  {
    MidpointIsAboveExactlyWhen(net, flows, BracketHigh(net, flows, 1.0).value, ITERATIONS, rate);
  }

  lemma MidpointIsAboveExactlyWhen(net: real, flows: seq<real>, high: real, steps: nat, rate: real)
    requires AllNonNegative(flows) && rate >= 0.0 && Npv(0.0, net, flows) >= 0.0
    requires high > 0.0 && Npv(high, net, flows) < 0.0
    ensures var w := CellWidth(high, steps);
      && w > 0.0 && NearestOnGrid(rate, w) >= 0.0
      && (Midpoint(Bisect(net, flows, 0.0, high, steps)) > rate <==> Npv(NearestOnGrid(rate, w), net, flows) >= 0.0)
  {
    var w := CellWidth(high, steps);
    WidthsFill(high, steps);
    var c := BisectEndsInCell(net, flows, 0.0, high, steps);
    assert high - 0.0 == high && CellAt(0.0, c, w) == (OnGrid(c, w), OnGrid(c + 1, w));
    BisectKeepsBracket(net, flows, 0.0, high, steps);
    MidpointAbove(c, w, rate);
    CellDecides(net, flows, c, w, (rate / w + 0.5).Floor);
  }

  lemma CellDecides(net: real, flows: seq<real>, c: nat, w: real, m: nat)
    requires AllNonNegative(flows) && w > 0.0
    requires OnGrid(c, w) >= 0.0 && OnGrid(c + 1, w) >= 0.0 && Npv(0.0, net, flows) >= 0.0
    requires Npv(OnGrid(c + 1, w), net, flows) < 0.0 && (OnGrid(c, w) == 0.0 || Npv(OnGrid(c, w), net, flows) >= 0.0)
    ensures OnGrid(m, w) >= 0.0
    ensures Npv(OnGrid(m, w), net, flows) >= 0.0 <==> m <= c
  {
    GridOrder(0, m, w);
    if m <= c {
      GridOrder(m, c, w);
      if OnGrid(m, w) < OnGrid(c, w) { PresentValueDecreases(OnGrid(m, w), OnGrid(c, w), flows); }
    } else {
      GridOrder(c + 1, m, w);
      if OnGrid(c + 1, w) < OnGrid(m, w) { PresentValueDecreases(OnGrid(c + 1, w), OnGrid(m, w), flows); }
    }
  }

  // ---------- When the bracket is refused ----------

  function Power2(k: nat): (p: real)
    ensures p >= 1.0
  {
    PowAtLeastOne(2.0, k);
    Pow(2.0, k)
  }

  lemma SmallPowersOfTwo()
    ensures Power2(9) == 512.0
    ensures forall k: nat :: k <= 9 ==> Power2(k) <= 512.0
  {
    assert Power2(2) == 4.0;
    assert Power2(4) == 16.0 && Power2(3) == 8.0;
    assert Power2(6) == 64.0 && Power2(5) == 32.0;
    assert Power2(8) == 256.0 && Power2(7) == 128.0;
    forall k: nat | k <= 9 ensures Power2(k) <= 512.0 {
      Power2Grows(k, 9);
    }
  }

  lemma {:induction false} Power2Grows(j: nat, k: nat)
    requires j <= k
    ensures Power2(j) <= Power2(k)
  {
    if j < k { Power2Grows(j, k - 1); }
  }

  /** One round of the loop, at a power of two. */
  lemma BracketRound(net: real, flows: seq<real>, j: nat)
    requires j <= 9
    ensures BracketHigh(net, flows, Power2(j)) ==
      if Npv(Power2(j), net, flows) < 0.0 then Some(Power2(j))
      else if j == 9 then None else BracketHigh(net, flows, Power2(j + 1))
  {
    SmallPowersOfTwo();
    assert Power2(j + 1) == Power2(j) * 2.0;
  }

  predicate AllRejected(net: real, flows: seq<real>, j: nat) {
    forall k: nat :: j <= k <= 9 ==> Npv(Power2(k), net, flows) >= 0.0
  }

  lemma RejectedFrom(net: real, flows: seq<real>, j: nat)
    requires j <= 9
    ensures AllRejected(net, flows, j) <==> Npv(Power2(j), net, flows) >= 0.0 && AllRejected(net, flows, j + 1)
  {
  }

  /** The bracket, when there is one, is the first power of two with a negative npv. */
  lemma {:induction false} BracketIsFirstPower(net: real, flows: seq<real>, j: nat) returns (k: nat)
    requires j <= 9 && BracketHigh(net, flows, Power2(j)).Some?
    ensures j <= k <= 9 && BracketHigh(net, flows, Power2(j)) == Some(Power2(k)) && Npv(Power2(k), net, flows) < 0.0
    ensures forall i: nat :: j <= i < k ==> Npv(Power2(i), net, flows) >= 0.0
    decreases 9 - j
  {
    BracketRound(net, flows, j);
    k := j;
    if Npv(Power2(j), net, flows) >= 0.0 {
      k := BracketIsFirstPower(net, flows, j + 1);
    }
  }

  /** The bracket loop tries exactly the powers of two up to 512. */
  lemma {:induction false} BracketTriesPowersOfTwo(net: real, flows: seq<real>, j: nat)
    requires j <= 9
    ensures BracketHigh(net, flows, Power2(j)).None? <==> AllRejected(net, flows, j)
    ensures BracketHigh(net, flows, Power2(j)).Some? ==> BracketHigh(net, flows, Power2(j)).value <= 512.0
    decreases 9 - j
  {
    BracketRound(net, flows, j);
    RejectedFrom(net, flows, j);
    if j < 9 {
      BracketTriesPowersOfTwo(net, flows, j + 1);
    }
    SmallPowersOfTwo();
  }

  /**
   For instalments that are not negative the refusal has one cause: even at 51200% a period
   they are still worth the net amount or more. A bracket, when found, is at most 512.
   */
  lemma BracketRefusedExactlyWhen(net: real, flows: seq<real>)
    requires AllNonNegative(flows)
    ensures BracketHigh(net, flows, 1.0).None? <==> Npv(512.0, net, flows) >= 0.0
    ensures BracketHigh(net, flows, 1.0).Some? ==> 1.0 <= BracketHigh(net, flows, 1.0).value <= 512.0
  {
    BracketTriesPowersOfTwo(net, flows, 0);
    SmallPowersOfTwo();
    assert Pow(2.0, 0) == 1.0;
    if Npv(512.0, net, flows) >= 0.0 {
      forall k: nat | k <= 9 ensures Npv(Power2(k), net, flows) >= 0.0 {
        if Power2(k) < 512.0 { PresentValueDecreases(Power2(k), 512.0, flows); }
      }
    }
  }

  // ---------- Two runs ----------

  /** The second deal is worth at least as much as the first at every rate. */
  ghost predicate Dominates(net: real, flows: seq<real>, net': real, flows': seq<real>) {
    forall r: real :: r >= 0.0 ==> Npv(r, net, flows) <= Npv(r, net', flows')
  }

  lemma {:induction false} LargerFlowsAreWorthMore(r: real, a: seq<real>, b: seq<real>)
    requires r >= 0.0 && |a| == |b| && forall k :: 0 <= k < |a| ==> a[k] <= b[k]
    ensures PresentValue(r, a) <= PresentValue(r, b)
  {
    var n := |a|;
    if n > 0 {
      LargerFlowsAreWorthMore(r, a[..n - 1], b[..n - 1]);
      DivMono(a[n - 1], b[n - 1], Pow(1.0 + r, n));
    }
  }

  /**
   On a common interval the two bisections either end in the same cell or in disjoint cells
   in the right order. No assumption on the sign of the instalments is needed.
   */
  lemma {:induction false} BisectionsStayOrdered(
    net: real, flows: seq<real>, net': real, flows': seq<real>, low: real, high: real, steps: nat)
    requires 0.0 <= low <= high && Dominates(net, flows, net', flows')
    ensures var a, b := Bisect(net, flows, low, high, steps), Bisect(net', flows', low, high, steps);
      a == b || a.1 <= b.0
    decreases steps
  {
    if steps > 0 {
      var mid := (low + high) / 2.0;
      assert Npv(mid, net, flows) <= Npv(mid, net', flows');
      if Npv(mid, net, flows) >= 0.0 {
        BisectionsStayOrdered(net, flows, net', flows', mid, high, steps - 1);
      } else if Npv(mid, net', flows') < 0.0 {
        BisectionsStayOrdered(net, flows, net', flows', low, mid, steps - 1);
      }
    }
  }

  /** The dearer deal never brackets earlier; when later, its last rejected bound is still positive. */
  lemma {:induction false} BracketsStayOrdered(
    net: real, flows: seq<real>, net': real, flows': seq<real>, high: real)
    requires high >= 1.0 && Dominates(net, flows, net', flows')
    requires BracketHigh(net', flows', high).Some?
    ensures BracketHigh(net, flows, high).Some?
    ensures var h, h' := BracketHigh(net, flows, high).value, BracketHigh(net', flows', high).value;
      h == h' || (h <= h' / 2.0 && Npv(h' / 2.0, net', flows') >= 0.0)
    decreases 2.0 * HIGH_LIMIT - high
  {
    assert Npv(high, net, flows) <= Npv(high, net', flows');
    if Npv(high, net', flows') >= 0.0 {
      if Npv(high, net, flows) >= 0.0 {
        BracketsStayOrdered(net, flows, net', flows', high * 2.0);
      } else {
        LastRejectedBound(net', flows', high * 2.0);
      }
    }
  }

  lemma {:induction false} LastRejectedBound(net: real, flows: seq<real>, high: real)
    requires high >= 2.0 && Npv(high / 2.0, net, flows) >= 0.0 && BracketHigh(net, flows, high).Some?
    ensures var h := BracketHigh(net, flows, high).value;
      h / 2.0 >= high / 2.0 && Npv(h / 2.0, net, flows) >= 0.0
    decreases 2.0 * HIGH_LIMIT - high
  {
    if Npv(high, net, flows) >= 0.0 {
      assert high * 2.0 / 2.0 == high;
      LastRejectedBound(net, flows, high * 2.0);
    }
  }

  /** Two runs: the dearer deal never gets a smaller rate, however often each doubled its bound. */
  lemma RatesStayOrdered(net: real, flows: seq<real>, net': real, flows': seq<real>)
    requires Dominates(net, flows, net', flows')
    requires Solve(net, flows).Success? && Solve(net', flows').Success?
    ensures Solve(net, flows).value <= Solve(net', flows').value
  {
    BracketsStayOrdered(net, flows, net', flows', 1.0);
    var h, h' := BracketHigh(net, flows, 1.0).value, BracketHigh(net', flows', 1.0).value;
    var a, b := Bisect(net, flows, 0.0, h, ITERATIONS), Bisect(net', flows', 0.0, h', ITERATIONS);
    if h == h' {
      BisectionsStayOrdered(net, flows, net', flows', 0.0, h, ITERATIONS);
    } else {
      FirstHalving(net', flows', h', ITERATIONS);
    }
  }

  lemma FirstHalving(net: real, flows: seq<real>, high: real, steps: nat)
    requires high >= 1.0 && steps > 0 && Npv(high / 2.0, net, flows) >= 0.0
    ensures Bisect(net, flows, 0.0, high, steps).0 >= high / 2.0
  {
    assert (0.0 + high) / 2.0 == high / 2.0;
    assert Bisect(net, flows, 0.0, high, steps) == Bisect(net, flows, high / 2.0, high, steps - 1);
  }

  /** A value is another one rounded to four decimals, a tie going to the even last digit. */
  ghost predicate RoundedTo4(value: real, exact: real) {
    exists units: int :: IsRounding(units, value, exact)
  }

  predicate IsRounding(units: int, value: real, exact: real) {
    && value == units as real / 10000.0 && Abs(units as real - exact * 10000.0) <= 0.5
    && (Abs(units as real - exact * 10000.0) == 0.5 ==> units % 2 == 0)
  }

  /** The percentage is the periodic rate times the periods of a year, to the nearest 0.0001. */
  ghost predicate IsAnnualised(percent: real, rate: real, periodsPerYear: real) {
    && RoundedTo4(percent, rate * periodsPerYear * 100.0)
    && Abs(percent - rate * periodsPerYear * 100.0) <= 0.00005
  }

  /**
   What a successful computation returns: the cash it was given, and as percentage the
   periodic rate annualised by multiplication, to the nearest 0.0001.
   */
  lemma AprReturns(principal: Paise, deductions: Paise, installments: seq<Paise>, periodsPerYear: real)
    requires AprOf(principal, deductions, installments, periodsPerYear).Success?
    ensures var v := AprOf(principal, deductions, installments, periodsPerYear).value;
      && v.netDisbursed == principal - deductions > 0 && v.totalPayable == SumMoney(installments)
      && IsAnnualised(v.nominalAnnualPercent, v.periodicRate, periodsPerYear)
  {
    AnnualisedPercent(AprOf(principal, deductions, installments, periodsPerYear).value.periodicRate, periodsPerYear);
  }

  lemma AnnualisedPercent(rate: real, periodsPerYear: real)
    ensures IsAnnualised(NominalPercent(rate, periodsPerYear), rate, periodsPerYear)
  {
    ToFourDecimals(rate * periodsPerYear * 100.0);
  }

  lemma ToFourDecimals(x: real)
    ensures RoundedTo4(Round4(x), x) && Abs(Round4(x) - x) <= 0.00005
  {
    Nearest(x * 10000.0);
    assert IsRounding(HalfEven(x * 10000.0), Round4(x), x);
  }

  /** The rate returned for instalments that are not negative sits on the sign change of their net present value. */
  lemma AprIsSignChange(principal: Paise, deductions: Paise, installments: seq<Paise>, periodsPerYear: real, r: real)
    requires AprOf(principal, deductions, installments, periodsPerYear).Success?
    requires r >= 0.0 && forall k :: 0 <= k < |installments| ==> installments[k] >= 0
    ensures var net, flows := ToDecimalMajor(principal - deductions), Majors(installments);
      var rate, high := AprOf(principal, deductions, installments, periodsPerYear).value.periodicRate, BracketHigh(net, flows, 1.0).value;
      && (Npv(r, net, flows) >= 0.0 ==> r < rate + Tolerance(high))
      && (Npv(r, net, flows) <= 0.0 ==> r >= rate - Tolerance(high))
  {
    RateIsSignChange(ToDecimalMajor(principal - deductions), Majors(installments), r);
  }

  lemma NominalPercentMonotone(r: real, s: real, periodsPerYear: real)
    requires r <= s && periodsPerYear >= 0.0
    ensures NominalPercent(r, periodsPerYear) <= NominalPercent(s, periodsPerYear)
  {
    assert r * periodsPerYear <= s * periodsPerYear;
    Monotone(r * periodsPerYear * 100.0 * 10000.0, s * periodsPerYear * 100.0 * 10000.0);
  }

  /**
   The disclosure is monotone: deducting more up front, or charging instalments that are no
   smaller, never lowers the periodic rate nor the nominal percentage shown.
   */
  lemma AprIsMonotone(principal: Paise, d: Paise, flows: seq<Paise>, d': Paise, flows': seq<Paise>, periodsPerYear: real)
    requires d <= d' && |flows| == |flows'| && periodsPerYear >= 0.0
    requires forall k :: 0 <= k < |flows| ==> flows[k] <= flows'[k]
    requires AprOf(principal, d, flows, periodsPerYear).Success? && AprOf(principal, d', flows', periodsPerYear).Success?
    ensures AprOf(principal, d, flows, periodsPerYear).value.periodicRate
         <= AprOf(principal, d', flows', periodsPerYear).value.periodicRate
    ensures AprOf(principal, d, flows, periodsPerYear).value.nominalAnnualPercent
         <= AprOf(principal, d', flows', periodsPerYear).value.nominalAnnualPercent
  {
    var net, net' := ToDecimalMajor(principal - d), ToDecimalMajor(principal - d');
    forall r: real | r >= 0.0 ensures Npv(r, net, Majors(flows)) <= Npv(r, net', Majors(flows')) {
      LargerFlowsAreWorthMore(r, Majors(flows), Majors(flows'));
    }
    RatesStayOrdered(net, Majors(flows), net', Majors(flows'));
    NominalPercentMonotone(Solve(net, Majors(flows)).value, Solve(net', Majors(flows')).value, periodsPerYear);
  }
}
