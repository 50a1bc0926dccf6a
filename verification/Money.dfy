/**
 Money in minor units. The only currency of the original is INR, so an amount is its
 integer number of paise; rates are exact reals.
 */
module Money {
  import opened Rounding
  import opened RealPowers

  type Paise = int

  function ToDecimalMajor(minor: Paise): real {
    minor as real / 100.0
  }

  function FromDecimalMajor(value: real): Paise {
    HalfEven(value * 100.0)
  }

  function Multiply(minor: Paise, rate: real): Paise {
    FromDecimalMajor(Times(ToDecimalMajor(minor), rate))
  }

  function SumMoney(amounts: seq<Paise>): Paise {
    if |amounts| == 0 then 0 else SumMoney(amounts[..|amounts| - 1]) + amounts[|amounts| - 1]
  }

  /** The trip through major units and back loses nothing. */
  lemma MajorRoundTrip(minor: Paise)
    ensures FromDecimalMajor(ToDecimalMajor(minor)) == minor
  {
    FixesIntegers(minor);
  }

  /** Multiplying by a rate is off by at most half a paisa and respects order and sign. */
  lemma MultiplyNearest(minor: Paise, rate: real)
    ensures Multiply(minor, rate) == HalfEven(Times(minor as real, rate))
    ensures Abs(Multiply(minor, rate) as real - Times(minor as real, rate)) <= 0.5
  {
    Rescale(minor as real, ToDecimalMajor(minor), rate);
    Nearest(Times(minor as real, rate));
  }

  lemma Rescale(minor: real, major: real, rate: real)
    requires major == minor / 100.0
    ensures Times(major, rate) * 100.0 == Times(minor, rate)
  {
    assert minor / 100.0 * rate * 100.0 == minor * rate;
  }

  lemma MultiplyMonotone(a: Paise, b: Paise, rate: real)
    requires a <= b && rate >= 0.0
    ensures Multiply(a, rate) <= Multiply(b, rate)
  {
    MultiplyNearest(a, rate);
    MultiplyNearest(b, rate);
    TimesMonotone(a as real, b as real, rate);
    Monotone(Times(a as real, rate), Times(b as real, rate));
  }

  lemma MultiplyKeepsSign(a: Paise, rate: real)
    requires a >= 0 && rate >= 0.0
    ensures Multiply(a, rate) >= 0
  {
    MultiplyNearest(a, rate);
    KeepsSign(Times(a as real, rate));
  }
}
