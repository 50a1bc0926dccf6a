/** Powers, geometric sums and discount sums over the exact reals. */
module RealPowers {

  /** A named product: keeps equal factors recognisable where a bare product would be multiplied out. */
  function Times(x: real, y: real): real {
    x * y
  }

  /** A named quotient, for the same reason. */
  function Over(x: real, d: real): real
    requires d != 0.0
  {
    x / d
  }

  function Pow(b: real, n: nat): (p: real)
    ensures b > 0.0 ==> p > 0.0
  {
    if n == 0 then 1.0 else
      TimesPositive(Pow(b, n - 1), b);
      Times(Pow(b, n - 1), b)
  }

  lemma TimesPositive(x: real, y: real)
    ensures x > 0.0 && y > 0.0 ==> Times(x, y) > 0.0
  {
  }

  /** 1 + g + ... + g^(n-1). */
  function GeometricSum(g: real, n: nat): real {
    if n == 0 then 0.0 else GeometricSum(g, n - 1) + Pow(g, n - 1)
  }

  /** 1/g + 1/g^2 + ... + 1/g^n. */
  function DiscountSum(g: real, n: nat): real
    requires g > 0.0
  {
    if n == 0 then 0.0 else DiscountSum(g, n - 1) + Over(1.0, Pow(g, n))
  }

  lemma {:induction false} PowAtLeastOne(g: real, n: nat)
    requires g >= 1.0
    ensures Pow(g, n) >= 1.0
  {
    if n > 0 {
      PowAtLeastOne(g, n - 1);
      TimesMonotone(1.0, Pow(g, n - 1), g);
    }
  }

  lemma {:induction false} PowOne(n: nat)
    ensures Pow(1.0, n) == 1.0
  {
    if n > 0 { PowOne(n - 1); }
  }

  lemma PowExceedsOne(g: real, n: nat)
    requires g > 1.0 && n > 0
    ensures Pow(g, n) > 1.0
  {
    PowOne(n);
    PowMonotone(1.0, g, n);
  }

  /** Powers of larger bases are larger, strictly so from the first power on. */
  lemma {:induction false} PowMonotone(a: real, b: real, n: nat)
    requires 0.0 < a < b
    ensures Pow(a, n) <= Pow(b, n)
    ensures n > 0 ==> Pow(a, n) < Pow(b, n)
  {
    if n > 0 {
      PowMonotone(a, b, n - 1);
      TimesStrict(Pow(a, n - 1), a, b);
      TimesMonotone(Pow(a, n - 1), Pow(b, n - 1), b);
    }
  }

  /** Horner's form of the geometric sum. */
  lemma {:induction false} GeometricStep(g: real, n: nat)
    ensures GeometricSum(g, n + 1) == Times(g, GeometricSum(g, n)) + 1.0
  {
    if n > 0 {
      GeometricStep(g, n - 1);
      TimesSum(g, GeometricSum(g, n - 1), Pow(g, n - 1), GeometricSum(g, n));
      TimesCommutes(g, Pow(g, n - 1));
    }
  }

  /** (g - 1)(1 + g + ... + g^(n-1)) = g^n - 1. */
  lemma {:induction false} GeometricClosed(g: real, n: nat)
    ensures Times(g - 1.0, GeometricSum(g, n)) == Pow(g, n) - 1.0
  {
    if n > 0 {
      GeometricClosed(g, n - 1);
      TimesSum(g - 1.0, GeometricSum(g, n - 1), Pow(g, n - 1), GeometricSum(g, n));
      TimesLess(g, Pow(g, n - 1), g - 1.0);
    }
  }

  lemma TimesSum(a: real, x: real, y: real, sum: real)
    requires sum == x + y
    ensures Times(a, sum) == Times(a, x) + Times(a, y)
  {
    assert a * (x + y) == a * x + a * y;
  }

  lemma TimesCommutes(x: real, y: real)
    ensures Times(x, y) == Times(y, x)
  {
  }

  lemma TimesLess(g: real, w: real, h: real)
    requires h == g - 1.0
    ensures Times(h, w) == Times(w, g) - w
  {
    assert (g - 1.0) * w == w * g - w;
  }

  lemma TimesStrict(u: real, a: real, b: real)
    requires u > 0.0 && a < b
    ensures Times(u, a) < Times(u, b)
  {
  }

  lemma {:induction false} GeometricAtLeast(g: real, n: nat)
    requires g >= 1.0
    ensures GeometricSum(g, n) >= n as real
  {
    if n > 0 {
      GeometricAtLeast(g, n - 1);
      PowAtLeastOne(g, n - 1);
    }
  }

  lemma {:induction false} GeometricOne(n: nat)
    ensures GeometricSum(1.0, n) == n as real
  {
    if n > 0 {
      GeometricOne(n - 1);
      PowOne(n - 1);
    }
  }

  lemma {:induction false} DiscountAtMost(g: real, n: nat)
    requires g >= 1.0
    ensures 0.0 <= DiscountSum(g, n) <= n as real
  {
    if n > 0 {
      DiscountAtMost(g, n - 1);
      PowAtLeastOne(g, n);
    }
  }

  // Nonlinear steps, one product at a time.

  lemma TimesMonotone(x: real, y: real, rate: real)
    requires x <= y && rate >= 0.0
    ensures Times(x, rate) <= Times(y, rate)
  {
  }

  lemma Distribute(a: real, x: real, y: real)
    ensures a * (x + y) == a * x + a * y
  {
  }

  lemma MulMono(x: real, y: real, g: real)
    requires x >= y && g >= 0.0
    ensures x * g >= y * g
  {
  }

  lemma MulStrict(u: real, a: real, b: real)
    requires u > 0.0 && a < b
    ensures u * a < u * b
  {
  }

  lemma DivMono(x: real, y: real, d: real)
    requires x <= y && d > 0.0
    ensures x / d <= y / d
  {
  }

  lemma DivAdd(x: real, y: real, d: real)
    requires d != 0.0
    ensures (x + y) / d == x / d + y / d
    ensures (x - y) / d == x / d - y / d
  {
  }

  lemma DivCancel(x: real, p: real, g: real)
    requires p > 0.0 && g > 0.0
    ensures p * g > 0.0
    ensures (g * x) / (p * g) == x / p
  {
    assert p * g > 0.0;
    var q := x / p;
    assert q * p == x;
    assert q * (p * g) == g * x;
  }

  lemma DivUnique(x: real, q: real, d: real)
    requires d != 0.0 && q * d == x
    ensures x / d == q
  {
  }
}
