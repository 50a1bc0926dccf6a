/**
 Banker's rounding: roundTiesToEven, section 4.3.1 of IEEE 754-2019. Every amount of
 money that the pricing code derives from a rate crosses this boundary exactly once.
 */
module Rounding {

  function HalfEven(x: real): int {
    var below := x.Floor;
    var fraction := x - below as real;
    if fraction < 0.5 then below
    else if fraction > 0.5 then below + 1
    else if below % 2 == 0 then below
    else below + 1
  }

  function Abs(x: real): real {
    if x < 0.0 then -x else x
  }

  /** The rounded value lies within half a unit, and on a tie it is the even neighbour. */
  lemma Nearest(x: real)
    ensures Abs(HalfEven(x) as real - x) <= 0.5
    ensures Abs(HalfEven(x) as real - x) == 0.5 ==> HalfEven(x) % 2 == 0
  {
    FloorBounds(x);
  }

  /** Nearest with ties to even leaves no freedom: these two facts pin the result down. */
  lemma NearestIsUnique(x: real, n: int)
    requires Abs(n as real - x) <= 0.5
    requires Abs(n as real - x) == 0.5 ==> n % 2 == 0
    ensures n == HalfEven(x)
  {
    Nearest(x);
    assert -1.0 <= (n - HalfEven(x)) as real <= 1.0;
  }

  lemma Monotone(x: real, y: real)
    requires x <= y
    ensures HalfEven(x) <= HalfEven(y)
  {
    Nearest(x);
    Nearest(y);
  }

  lemma Odd(x: real)
    ensures HalfEven(-x) == -HalfEven(x)
  {
    Nearest(x);
    NearestIsUnique(-x, -HalfEven(x));
  }

  lemma FixesIntegers(n: int)
    ensures HalfEven(n as real) == n
  {
    NearestIsUnique(n as real, n);
  }

  /** A nonnegative real never rounds below zero. */
  lemma KeepsSign(x: real)
    requires x >= 0.0
    ensures HalfEven(x) >= 0
  {
    FixesIntegers(0);
    Monotone(0.0, x);
  }

  lemma FloorBounds(x: real)
    ensures x.Floor as real <= x < x.Floor as real + 1.0
  {
  }
}
