/** Integer facts shared by the shape, template-fit and crop arithmetic, and
    the link between Dafny's exact floor division and the source's
    `int(a * (b / c))` on non-negative values. */
module Ratios {

  lemma MulMonotone(a: nat, x: nat, y: nat)
    requires x <= y
    ensures a * x <= a * y
  {
  }

  lemma MulCancel(a: int, b: int, d: nat)
    requires d > 0 && a * d < b * d
    ensures a < b
  {
    assert (b - a) * d == b * d - a * d;
  }

  lemma DivMonotone(x: nat, y: nat, d: nat)
    requires d > 0 && x <= y
    ensures x / d <= y / d
  {
    var qx, qy := x / d, y / d;
    assert qx * d <= x;
    assert y < (qy + 1) * d;
    MulCancel(qx, qy + 1, d);
  }

  /** `n / d` is the floor of the real quotient. */
  lemma FloorOfQuotient(n: nat, d: nat)
    requires d > 0
    ensures (n / d) as real <= n as real / d as real < (n / d + 1) as real
  {
    var k, r := n / d, d as real;
    var x := n as real / r;
    assert x * r == n as real;
    assert k * d <= n < (k + 1) * d;
    assert (k as real) * r <= x * r < ((k + 1) as real) * r;
  }

  /** For non-negative operands, `int(a * (b / c))` and `int(a / (c / b))`
      both compute `(a * b) // c`. */
  lemma ScaledQuotient(a: nat, b: nat, c: nat)
    requires b > 0 && c > 0
    ensures a as real * (b as real / c as real) == (a * b) as real / c as real
    ensures a as real / (c as real / b as real) == (a * b) as real / c as real
  {
  }

  lemma RealMulPositive(a: real, b: real)
    requires a > 0.0 && b > 0.0
    ensures a * b > 0.0
  {
  }

  lemma RealMulNonNegative(a: real, b: real)
    requires a >= 0.0 && b >= 0.0
    ensures a * b >= 0.0
  {
  }

  /** Multiplying by a positive real keeps order. */
  lemma MulKeepsOrder(x: real, y: real, k: real)
    requires k > 0.0
    ensures x <= y <==> x * k <= y * k
  {
    if x <= y {
      RealMulNonNegative(y - x, k);
      assert y * k - x * k == (y - x) * k;
    } else {
      RealMulPositive(x - y, k);
      assert x * k - y * k == (x - y) * k;
    }
  }
}
