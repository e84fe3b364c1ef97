/** Python's `round` to a number of decimals, ties to even, on exact reals. */
module Rounding {
  function RoundHalfEven(x: real): int {
    var f := x.Floor;
    var d := x - f as real;
    if d < 0.5 then f else if d > 0.5 then f + 1 else if f % 2 == 0 then f else f + 1
  }

  function Round2(x: real): real {
    RoundHalfEven(100.0 * x) as real / 100.0
  }

  function Round4(x: real): real {
    RoundHalfEven(10000.0 * x) as real / 10000.0
  }

  lemma Round2Monotone(x: real, y: real)
    requires x <= y
    ensures Round2(x) <= Round2(y)
  {
    var (a, b) := (100.0 * x, 100.0 * y);
    assert RoundHalfEven(a) <= RoundHalfEven(b);
  }

  lemma Round2Hundredths(k: int)
    ensures Round2(k as real / 100.0) == k as real / 100.0
  {
    assert (100.0 * (k as real / 100.0)) == k as real;
  }

  lemma Round4Unit(x: real)
    requires 0.0 <= x <= 1.0
    ensures 0.0 <= Round4(x) <= 1.0
  {
  }

  /** The nearest integer; halfway between two, the even one. */
  lemma RoundsToNearest(x: real)
    ensures var n := RoundHalfEven(x) as real;
            && x - 0.5 <= n <= x + 0.5
            && (n == x - 0.5 || n == x + 0.5 ==> RoundHalfEven(x) % 2 == 0)
  {
  }

  /** So the rounded value is within half a unit of the last decimal. */
  lemma RoundsDecimals(x: real)
    ensures x - 0.005 <= Round2(x) <= x + 0.005
    ensures x - 0.00005 <= Round4(x) <= x + 0.00005
  {
    RoundsToNearest(100.0 * x);
    RoundsToNearest(10000.0 * x);
  }
}
