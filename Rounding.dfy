/** Python's `round(x, n)` on the exact real value of `x`: the nearest multiple
    of 10^-n, ties going to the even multiple. */
module Rounding {

  /** The nearest integer to `y`; a tie goes to the even neighbour. */
  function RoundHalfEven(y: real): (n: int)
    ensures y - 0.5 <= n as real <= y + 0.5
    ensures (n as real == y - 0.5 || n as real == y + 0.5) ==> n % 2 == 0
  {
    var f := y.Floor;
    var d := y - f as real;
    if d < 0.5 then f
    else if d > 0.5 then f + 1
    else if f % 2 == 0 then f
    else f + 1
  }

  /** The two properties of `RoundHalfEven` determine it. */
  lemma RoundHalfEvenUnique(y: real, m: int)
    requires y - 0.5 <= m as real <= y + 0.5
    requires (m as real == y - 0.5 || m as real == y + 0.5) ==> m % 2 == 0
    ensures m == RoundHalfEven(y)
  {
    var n := RoundHalfEven(y);
    assert -1 <= m - n <= 1;
  }

  lemma RoundHalfEvenOfInt(k: int)
    ensures RoundHalfEven(k as real) == k
  {
    RoundHalfEvenUnique(k as real, k);
  }

  /** `x` is a whole number of hundredths. */
  predicate IsCents(x: real) {
    (x * 100.0).Floor as real == x * 100.0
  }

  /** `x` is a whole number of thousandths. */
  predicate IsMillis(x: real) {
    (x * 1000.0).Floor as real == x * 1000.0
  }

  /** `round(x, 2)`. */
  function Round2(x: real): (r: real)
    ensures IsCents(r)
    ensures x - 0.005 <= r <= x + 0.005
    ensures x >= 0.0 ==> r >= 0.0
  {
    var y := x * 100.0;
    var n := RoundHalfEven(y);
    var r := n as real / 100.0;
    assert r * 100.0 == n as real;
    assert (r * 100.0).Floor == n;
    assert y - 0.5 <= n as real <= y + 0.5;
    r
  }

  /** `round(x, 3)`. */
  function Round3(x: real): (r: real)
    ensures IsMillis(r)
    ensures x - 0.0005 <= r <= x + 0.0005
    ensures x >= 0.0 ==> r >= 0.0
  {
    var y := x * 1000.0;
    var n := RoundHalfEven(y);
    var r := n as real / 1000.0;
    assert r * 1000.0 == n as real;
    assert (r * 1000.0).Floor == n;
    assert y - 0.5 <= n as real <= y + 0.5;
    r
  }

  /** A value that already has two decimals is left as it is. */
  lemma Round2Exact(x: real)
    requires IsCents(x)
    ensures Round2(x) == x
  {
    RoundHalfEvenOfInt((x * 100.0).Floor);
  }

  /** A value that already has three decimals is left as it is. */
  lemma Round3Exact(x: real)
    requires IsMillis(x)
    ensures Round3(x) == x
  {
    RoundHalfEvenOfInt((x * 1000.0).Floor);
  }

  /** Rounding never reverses the order of two values. */
  lemma RoundHalfEvenMonotone(x: real, y: real)
    requires x <= y
    ensures RoundHalfEven(x) <= RoundHalfEven(y)
  {
  }

  lemma Round2Monotone(x: real, y: real)
    requires x <= y
    ensures Round2(x) <= Round2(y)
  {
    RoundHalfEvenMonotone(x * 100.0, y * 100.0);
  }
}
