/**
 * Python's float operators as the service code uses them, over exact reals:
 * floor division `x // d`, modulo `x % d` (the remainder takes the divisor's
 * sign) and `int(x)` (truncation toward zero). Rounding of IEEE doubles is
 * not modelled.
 */
module PyFloat {
  import opened Common
  import Stats

  /** `x // d` on floats: the floor of the quotient, still a float. */
  function FloorDiv(x: real, d: real): (q: real)
    requires d != 0.0
    ensures q == q.Floor as real
    ensures q <= x / d < q + 1.0
  {
    (x / d).Floor as real
  }

  /** `x % d` on floats: what is left after taking `x // d` whole divisors. */
  function Mod(x: real, d: real): (r: real)
    requires d != 0.0
    ensures x == d * FloorDiv(x, d) + r
    ensures d > 0.0 ==> 0.0 <= r < d
    ensures d < 0.0 ==> d < r <= 0.0
  {
    var q := FloorDiv(x, d);
    var f := x / d - q;
    var r := x - d * q;
    assert 0.0 <= f < 1.0;
    assert r == d * f by {
      assert x == d * (x / d);
      assert d * f == d * (x / d) - d * q;
    }
    assert d - r == d * (1.0 - f);
    assert d > 0.0 ==> 0.0 <= r < d by {
      if d > 0.0 {
        Stats.ProductPositive(d, 1.0 - f, 0.0);
        if f > 0.0 { Stats.ProductPositive(d, f, 0.0); }
      }
    }
    assert d < 0.0 ==> d < r <= 0.0 by {
      if d < 0.0 {
        Stats.ProductPositive(-d, 1.0 - f, 0.0);
        assert -(d - r) == -d * (1.0 - f);
        if f > 0.0 { Stats.ProductPositive(-d, f, 0.0); assert -r == -d * f; }
      }
    }
    r
  }

  /**
   * `int(x)` on a float: drop the fractional part, rounding toward zero. The
   * result is the whole number of the same sign as x whose magnitude is
   * within one below |x|.
   */
  function Int(x: real): (n: int)
    ensures Abs(n as real) <= Abs(x) < Abs(n as real) + 1.0
    ensures n as real * x >= 0.0
  {
    if x >= 0.0 then x.Floor else -((-x).Floor)
  }
}
