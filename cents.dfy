/** Money in integer cents: rounding an exact (real) amount to the cent, and sums. */
module Cents {

  function Abs(r: real): real {
    if r < 0.0 then -r else r
  }

  /** Rounds an exact amount, counted in cents, to a whole number of cents:
      to the nearest one, and on a tie to the even one (Python's `round`). */
  function RoundHalfEven(r: real): (c: int)
    ensures Abs(r - c as real) <= 0.5
    ensures Abs(r - c as real) == 0.5 ==> c % 2 == 0
  {
    var f := r.Floor;
    var frac := r - f as real;
    if frac < 0.5 then f
    else if frac > 0.5 then f + 1
    else if f % 2 == 0 then f
    else f + 1
  }

  /** No other whole number of cents is nearer to `r` than its rounding. */
  lemma RoundIsNearest(r: real, m: int)
    ensures Abs(r - RoundHalfEven(r) as real) <= Abs(r - m as real)
  {
    var c := RoundHalfEven(r);
    if m < c {
      assert r - m as real >= r - (c - 1) as real;
    } else if m > c {
      assert m as real - r >= (c + 1) as real - r;
    }
  }

  /** Rounding a whole number of cents changes nothing. */
  lemma RoundWhole(c: int)
    ensures RoundHalfEven(c as real) == c
  {
    assert (c as real).Floor == c;
  }

  /** Sum of a sequence of cent amounts (Python's `sum`). */
  function Sum(s: seq<int>): int {
    if s == [] then 0 else Sum(s[..|s| - 1]) + s[|s| - 1]
  }

  /** Sum of a sequence of exact amounts. */
  function SumReal(s: seq<real>): real {
    if s == [] then 0.0 else SumReal(s[..|s| - 1]) + s[|s| - 1]
  }

  /** Overwriting the last amount changes the sum by exactly the difference. */
  lemma SumUpdateLast(s: seq<int>, v: int)
    requires |s| > 0
    ensures Sum(s[|s| - 1 := v]) == Sum(s) - s[|s| - 1] + v
  {
    assert s[|s| - 1 := v][..|s| - 1] == s[..|s| - 1];
  }

  /** A sequence holding `y` everywhere sums to |s| * y. */
  lemma {:induction false} SumRealConstant(s: seq<real>, y: real)
    requires forall k :: 0 <= k < |s| ==> s[k] == y
    ensures SumReal(s) == |s| as real * y
  {
    if s != [] {
      SumRealConstant(s[..|s| - 1], y);
    }
  }

  /** A sequence holding `x` at index k0 and `y` everywhere else sums to
      x + (|s| - 1) * y. */
  lemma {:induction false} SumRealOneOdd(s: seq<real>, k0: nat, x: real, y: real)
    requires k0 < |s|
    requires forall k :: 0 <= k < |s| ==> s[k] == if k == k0 then x else y
    ensures SumReal(s) == x + (|s| - 1) as real * y
  {
    var p := s[..|s| - 1];
    if k0 == |s| - 1 {
      SumRealConstant(p, y);
    } else {
      SumRealOneOdd(p, k0, x, y);
    }
  }

  /** Rounding every exact amount moves the sum by at most half a cent per
      amount. */
  lemma {:induction false} RoundingDrift(s: seq<real>, c: seq<int>)
    requires |c| == |s|
    requires forall k :: 0 <= k < |s| ==> c[k] == RoundHalfEven(s[k])
    ensures Abs(SumReal(s) - Sum(c) as real) <= |s| as real * 0.5
  {
    if s != [] {
      RoundingDrift(s[..|s| - 1], c[..|c| - 1]);
      assert Abs(s[|s| - 1] - c[|c| - 1] as real) <= 0.5;
    }
  }
}
