/** `np.round(x, 2)` on exact reals: scale by 100, round half to even
    (numpy rounds through `rint`), scale back. */
module Rounding {

  /** The integer nearest to `y`; an exact tie goes to the even neighbour. */
  function RoundHalfEven(y: real): (n: int)
    ensures -0.5 <= y - n as real <= 0.5
    ensures (y - n as real == 0.5 || n as real - y == 0.5) ==> n % 2 == 0
  {
    var f := y.Floor;
    var d := y - f as real;
    if d < 0.5 then f
    else if d > 0.5 then f + 1
    else if f % 2 == 0 then f
    else f + 1
  }

  /** The two properties above single out one integer: any integer within
      one half of `y`, and even when exactly one half away, is the result. */
  lemma RoundHalfEvenUnique(y: real, m: int)
    requires -0.5 <= y - m as real <= 0.5
    requires (y - m as real == 0.5 || m as real - y == 0.5) ==> m % 2 == 0
    ensures m == RoundHalfEven(y)
  {
  }

  /** At most two fractional digits: a whole number of hundredths. */
  predicate HasTwoDecimals(v: real)
  {
    (v * 100.0).Floor as real == v * 100.0
  }

  /** `np.round(x, 2)`. */
  function Round2(x: real): (r: real)
    ensures HasTwoDecimals(r)
    ensures -0.005 <= r - x <= 0.005
  {
    RoundHalfEven(x * 100.0) as real / 100.0
  }

  /** A value that already has two fractional digits is left unchanged, so
      rounding twice is rounding once. */
  lemma Round2Keeps(v: real)
    requires HasTwoDecimals(v)
    ensures Round2(v) == v
  {
    var m := (v * 100.0).Floor;
    RoundHalfEvenUnique(v * 100.0, m);
  }

  lemma Round2Idempotent(x: real)
    ensures Round2(Round2(x)) == Round2(x)
  {
    Round2Keeps(Round2(x));
  }

  /** Half-way cases go to the even hundredth. */
  lemma Round2HalfWay()
    ensures Round2(0.125) == 0.12
    ensures Round2(0.135) == 0.14
    ensures Round2(-2.675) == -2.68
  {
    RoundHalfEvenUnique(12.5, 12);
    RoundHalfEvenUnique(13.5, 14);
    RoundHalfEvenUnique(-267.5, -268);
  }
}
