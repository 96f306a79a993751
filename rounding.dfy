/** Python's `round(x, ndigits)` on exact reals: round half to even at the
    ndigits-th decimal place. The allocator sizes every order with it. */
module Rounding {

  /** x * 10^p, written as repeated multiplication by ten so that every
      proof about it stays within linear arithmetic. */
  function Scale(x: real, p: nat): real {
    if p == 0 then x else 10.0 * Scale(x, p - 1)
  }

  /** y / 10^p. */
  function Unscale(y: real, p: nat): real {
    if p == 0 then y else Unscale(y, p - 1) / 10.0
  }

  lemma {:induction false} ScaleMonotone(x: real, y: real, p: nat)
    requires x <= y
    ensures Scale(x, p) <= Scale(y, p)
    ensures x < y ==> Scale(x, p) < Scale(y, p)
  {
    if p > 0 {
      ScaleMonotone(x, y, p - 1);
    }
  }

  lemma {:induction false} UnscaleMonotone(x: real, y: real, p: nat)
    requires x <= y
    ensures Unscale(x, p) <= Unscale(y, p)
    ensures x < y ==> Unscale(x, p) < Unscale(y, p)
  {
    if p > 0 {
      UnscaleMonotone(x, y, p - 1);
    }
  }

  lemma {:induction false} ScaleSub(x: real, y: real, p: nat)
    ensures Scale(x - y, p) == Scale(x, p) - Scale(y, p)
  {
    if p > 0 {
      ScaleSub(x, y, p - 1);
    }
  }

  lemma {:induction false} UnscaleNeg(y: real, p: nat)
    ensures Unscale(-y, p) == -Unscale(y, p)
  {
    if p > 0 {
      UnscaleNeg(y, p - 1);
    }
  }

  /** Scaling up undoes scaling down. */
  lemma {:induction false} ScaleUnscale(y: real, p: nat)
    ensures Scale(Unscale(y, p), p) == y
  {
    if p > 0 {
      ScaleUnscale(y, p - 1);
      ScaleOfTenth(Unscale(y, p - 1), p - 1);
    }
  }

  lemma {:induction false} ScaleOfTenth(x: real, p: nat)
    ensures Scale(x / 10.0, p + 1) == Scale(x, p)
  {
    if p > 0 {
      ScaleOfTenth(x, p - 1);
    }
  }

  /** Scaling down undoes scaling up. */
  lemma {:induction false} UnscaleScale(x: real, p: nat)
    ensures Unscale(Scale(x, p), p) == x
  {
    if p > 0 {
      UnscaleScale(x, p - 1);
      UnscaleOfTenfold(Scale(x, p - 1), p - 1);
    }
  }

  lemma {:induction false} UnscaleOfTenfold(y: real, p: nat)
    ensures Unscale(10.0 * y, p + 1) == Unscale(y, p)
  {
    if p > 0 {
      UnscaleOfTenfold(y, p - 1);
    }
  }

  /** The integer nearest to x, ties going to the even neighbour. */
  function RoundHalfEven(x: real): (n: int)
    ensures -0.5 <= n as real - x <= 0.5
    ensures n as real - x == 0.5 || x - n as real == 0.5 ==> n % 2 == 0
  {
    var f := x.Floor;
    var d := x - f as real;
    if d < 0.5 then f
    else if d > 0.5 then f + 1
    else if f % 2 == 0 then f
    else f + 1
  }

  /** The two properties in RoundHalfEven's contract single out one integer. */
  lemma RoundHalfEvenUnique(x: real, n: int)
    requires -0.5 <= n as real - x <= 0.5
    requires n as real - x == 0.5 || x - n as real == 0.5 ==> n % 2 == 0
    ensures n == RoundHalfEven(x)
  {
  }

  lemma RoundHalfEvenMonotone(x: real, y: real)
    requires x <= y
    ensures RoundHalfEven(x) <= RoundHalfEven(y)
  {
  }

  /** For x >= 0, rounding gives zero exactly when x is at most one half
      (one half itself goes to the even neighbour, 0). */
  lemma RoundHalfEvenZero(x: real)
    requires x >= 0.0
    ensures RoundHalfEven(x) == 0 <==> x <= 0.5
  {
    if x <= 0.5 {
      RoundHalfEvenUnique(x, 0);
    }
  }

  /** Rounding gives zero exactly when x is within one half of zero; both
      ties go to 0, the even neighbour. */
  lemma RoundHalfEvenIsZero(x: real)
    ensures RoundHalfEven(x) == 0 <==> -0.5 <= x <= 0.5
  {
    if -0.5 <= x <= 0.5 {
      RoundHalfEvenUnique(x, 0);
    }
  }

  /** round(x, p) is zero exactly when x is within half a unit of the p-th
      decimal place of zero. */
  lemma RoundToIsZero(x: real, p: nat)
    ensures RoundTo(x, p) == 0.0 <==> -0.5 <= Scale(x, p) <= 0.5
  {
    var n := RoundHalfEven(Scale(x, p));
    RoundHalfEvenIsZero(Scale(x, p));
    ScaleUnscale(n as real, p);
    ScaleZero(p);
    UnscaleZero(p);
  }

  /** round(x) to no decimal places is the nearest integer when there is a
      strictly nearest one. */
  lemma RoundToWhole(x: real, n: int)
    requires -0.5 < n as real - x < 0.5
    ensures RoundTo(x, 0) == n as real
  {
    RoundHalfEvenUnique(x, n);
  }

  /** round(x, p) on exact reals: a whole number of units of the p-th
      decimal place within half a unit of x. On an exact tie it is the
      neighbour whose last digit is even (RoundToTiesToEven). */
  function RoundTo(x: real, p: nat): (r: real)
    ensures IsWhole(Scale(r, p))
    ensures -Unscale(0.5, p) <= r - x <= Unscale(0.5, p)
  {
    var n := RoundHalfEven(Scale(x, p));
    RoundToFacts(x, n, p);
    Unscale(n as real, p)
  }

  /** An exact tie at the p-th decimal place goes to the even last digit,
      as Python's round does. */
  lemma RoundToTiesToEven(x: real, p: nat)
    requires IsWhole(Scale(x, p) + 0.5)
    ensures Scale(RoundTo(x, p), p).Floor % 2 == 0
  {
    var y := Scale(x, p);
    var n := RoundHalfEven(y);
    var m := (y + 0.5).Floor;
    assert y == m as real - 0.5;
    assert n == m - 1 || n == m;
    ScaleUnscale(n as real, p);
    assert (n as real).Floor == n;
  }

  lemma RoundToFacts(x: real, n: int, p: nat)
    requires -0.5 <= n as real - Scale(x, p) <= 0.5
    ensures IsWhole(Scale(Unscale(n as real, p), p))
    ensures -Unscale(0.5, p) <= Unscale(n as real, p) - x <= Unscale(0.5, p)
  {
    var r := Unscale(n as real, p);
    ScaleUnscale(n as real, p);
    assert (n as real).Floor == n;
    ScaleSub(r, x, p);
    UnscaleScale(r - x, p);
    UnscaleMonotone(-0.5, Scale(r - x, p), p);
    UnscaleMonotone(Scale(r - x, p), 0.5, p);
    UnscaleNeg(0.5, p);
  }

  /** y is a whole number; for y = x * 10^p: x has at most p decimal places. */
  predicate IsWhole(y: real) {
    y.Floor as real == y
  }

  lemma RoundToMonotone(x: real, y: real, p: nat)
    requires x <= y
    ensures RoundTo(x, p) <= RoundTo(y, p)
  {
    ScaleMonotone(x, y, p);
    RoundHalfEvenMonotone(Scale(x, p), Scale(y, p));
    UnscaleMonotone(RoundHalfEven(Scale(x, p)) as real, RoundHalfEven(Scale(y, p)) as real, p);
  }

  /** For x >= 0, round(x, p) is non-negative, and it is zero exactly when x
      is at most half a unit of the p-th decimal place. */
  lemma RoundToZero(x: real, p: nat)
    requires x >= 0.0
    ensures RoundTo(x, p) >= 0.0
    ensures RoundTo(x, p) == 0.0 <==> Scale(x, p) <= 0.5
  {
    ScaleMonotone(0.0, x, p);
    ScaleZero(p);
    RoundHalfEvenZero(Scale(x, p));
    var n := RoundHalfEven(Scale(x, p));
    UnscaleMonotone(0.0, n as real, p);
    UnscaleZero(p);
  }

  lemma {:induction false} ScaleZero(p: nat)
    ensures Scale(0.0, p) == 0.0
  {
    if p > 0 {
      ScaleZero(p - 1);
    }
  }

  lemma {:induction false} UnscaleZero(p: nat)
    ensures Unscale(0.0, p) == 0.0
  {
    if p > 0 {
      UnscaleZero(p - 1);
    }
  }

  /** Rounding an already rounded value changes nothing. */
  lemma RoundToIdempotent(x: real, p: nat)
    ensures RoundTo(RoundTo(x, p), p) == RoundTo(x, p)
  {
    var r := RoundTo(x, p);
    var y := Scale(r, p);
    RoundHalfEvenUnique(y, y.Floor);
    UnscaleScale(r, p);
  }

  /** int(round(50 / 7, 0)) is 7. */
  lemma RoundToExample()
    ensures RoundTo(50.0 / 7.0, 0) == 7.0
  {
    RoundHalfEvenUnique(50.0 / 7.0, 7);
  }
}
