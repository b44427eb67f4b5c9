/** The per-pixel membership tests of the circle, ellipse, diamond and
    triangle masks, stated in exact integer arithmetic, with lemmas that tie
    each to the real-number test the source writes and to the shape's
    geometric properties. Row `i` runs over the height, column `j` over the
    width, as in a numpy `(height, width)` grid. */
module Shapes {
  import opened Ratios

  function Min(x: int, y: int): int { if x <= y then x else y }
  function Abs(x: int): nat { if x < 0 then -x else x }

  /** The 10 taken off the half side for the circle, ellipse and diamond. */
  const Margin := 10

  /** `min(width, height) // 2 - 10`: the circle's radius and the diamond's size. */
  function Radius(width: nat, height: nat): int { Min(width, height) / 2 - Margin }
  /** `width // 2 - 10`, the ellipse's horizontal semi-axis `a`. */
  function SemiAxisX(width: nat): int { width / 2 - Margin }
  /** `height // 2 - 10`, the ellipse's vertical semi-axis `b`. */
  function SemiAxisY(height: nat): int { height / 2 - Margin }

  /** `sqrt(dx**2 + dy**2) <= radius`, with centre `(width // 2, height // 2)`. */
  predicate InCircle(width: nat, height: nat, i: int, j: int) {
    var dx, dy, r := j - width / 2, i - height / 2, Radius(width, height);
    r >= 0 && dx * dx + dy * dy <= r * r
  }

  /** `dx**2 / a**2 + dy**2 / b**2 <= 1`, multiplied out by `a**2 * b**2`. */
  predicate InEllipse(width: nat, height: nat, i: int, j: int) {
    var dx, dy := j - width / 2, i - height / 2;
    var a, b := SemiAxisX(width), SemiAxisY(height);
    dx * dx * (b * b) + dy * dy * (a * a) <= (a * a) * (b * b)
  }

  /** `abs(dx) / size + abs(dy) / size <= 1`: for a negative size both terms
      are non-positive, so every pixel passes. */
  predicate InDiamond(width: nat, height: nat, i: int, j: int) {
    var dx, dy, size := Abs(j - width / 2), Abs(i - height / 2), Radius(width, height);
    size < 0 || dx + dy <= size
  }

  /** `int(width * (i / height))` taken as the exact floor: the triangle's
      width at row `i`. */
  function RowWidth(width: nat, height: nat, i: nat): nat
    requires height > 0
  {
    width * i / height
  }

  /** The slice `[width // 2 - k // 2, width // 2 + k // 2)` set at row `i`. */
  function RowStart(width: nat, height: nat, i: nat): int
    requires height > 0
  {
    width / 2 - RowWidth(width, height, i) / 2
  }

  function RowEnd(width: nat, height: nat, i: nat): int
    requires height > 0
  {
    width / 2 + RowWidth(width, height, i) / 2
  }

  predicate InTriangle(width: nat, height: nat, i: nat, j: int)
    requires height > 0
  {
    RowStart(width, height, i) <= j < RowEnd(width, height, i)
  }

  // ----- the integer tests agree with the source's real-number tests -----

  /** Squaring is monotone on the non-negative reals. */
  lemma SquareMonotone(x: real, y: real)
    requires 0.0 <= x && 0.0 <= y
    ensures x <= y <==> x * x <= y * y
  {
    assert y * y - x * x == (y - x) * (y + x);
    if x <= y {
      RealMulNonNegative(y - x, y + x);
    } else {
      RealMulPositive(x - y, x + y);
      assert x * x - y * y == (x - y) * (x + y);
    }
  }

  /** For `d` the exact square root of `dx² + dy²`, the source's test
      `d <= radius` holds exactly when the integer test does. */
  lemma CircleTestExact(dx: int, dy: int, r: int, d: real)
    requires d >= 0.0 && d * d == (dx * dx + dy * dy) as real
    ensures d <= r as real <==> (r >= 0 && dx * dx + dy * dy <= r * r)
  {
    if r >= 0 {
      SquareMonotone(d, r as real);
      assert (r as real) * (r as real) == (r * r) as real;
    }
  }

  /** The source's ellipse test in real arithmetic against the integer test,
      whenever neither semi-axis is zero (zero raises `ZeroDivisionError`). */
  lemma EllipseTestExact(dx: int, dy: int, a: int, b: int)
    requires a != 0 && b != 0
    ensures ((dx * dx) as real / (a * a) as real + (dy * dy) as real / (b * b) as real <= 1.0)
        <==> dx * dx * (b * b) + dy * dy * (a * a) <= (a * a) * (b * b)
  {
    QuotientSumTest((dx * dx) as real, (dy * dy) as real, (a * a) as real, (b * b) as real);
    CastProducts(dx * dx, dy * dy, a * a, b * b);
  }

  /** `x / A + y / B <= 1` is `x * B + y * A <= A * B` for positive `A`, `B`. */
  lemma QuotientSumTest(x: real, y: real, A: real, B: real)
    requires A > 0.0 && B > 0.0
    ensures (x / A + y / B <= 1.0) <==> x * B + y * A <= A * B
  {
    RealMulPositive(A, B);
    var q := x / A + y / B;
    assert q * (A * B) == x * B + y * A;
    MulKeepsOrder(q, 1.0, A * B);
  }

  lemma CastProducts(x: int, y: int, A: int, B: int)
    ensures (x * B + y * A) as real == x as real * B as real + y as real * A as real
    ensures (A * B) as real == A as real * B as real
  {
  }

  /** The source's diamond test in real arithmetic against the integer test,
      for a non-zero size; a negative size admits every pixel. */
  lemma DiamondTestExact(dx: nat, dy: nat, size: int)
    requires size != 0
    ensures (dx as real / size as real + dy as real / size as real <= 1.0)
        <==> (size < 0 || dx + dy <= size)
  {
    var s := size as real;
    var q := dx as real / s + dy as real / s;
    assert q * s == (dx + dy) as real;
    if size > 0 {
      MulKeepsOrder(q, 1.0, s);
    } else {
      assert dx as real / s <= 0.0 && dy as real / s <= 0.0;
    }
  }

  /** `RowWidth` is the floor of the source's `width * (i / height)`. */
  lemma RowWidthIsFloor(width: nat, height: nat, i: nat)
    requires height > 0
    ensures var k := RowWidth(width, height, i); var x := width as real * (i as real / height as real);
      k as real <= x < (k + 1) as real
  {
    if i > 0 {
      ScaledQuotient(width, i, height);
    }
    FloorOfQuotient(width * i, height);
  }

  // ----- properties of the shapes -----

  /** When the radius is non-negative the centre pixel lies on the canvas and
      is inside the circle; when it is negative no pixel is. */
  lemma CircleCentre(width: nat, height: nat)
    ensures Radius(width, height) >= 0 ==>
      height / 2 < height && width / 2 < width && InCircle(width, height, height / 2, width / 2)
    ensures Radius(width, height) < 0 ==> forall i, j :: !InCircle(width, height, i, j)
  {
  }

  lemma AbsSquare(x: int)
    ensures Abs(x) * Abs(x) == x * x
  {
  }

  lemma MulStrict(a: nat, r: int)
    requires 0 <= r < a
    ensures r * r < a * a
  {
    assert r * r <= r * a;
    assert r * a < a * a;
  }

  lemma SumSquareBound(x: nat, y: nat, r: int)
    requires x + y <= r
    ensures x * x + y * y <= r * r
  {
    var s := x + y;
    assert x * x + y * y <= s * s by {
      assert s * s == x * x + 2 * (x * y) + y * y;
    }
    assert s * s <= s * r;
    assert s * r <= r * r;
  }

  lemma SquareBound(x: int, y: int, r: int)
    requires r >= 0 && x * x + y * y <= r * r
    ensures -r <= x <= r
  {
    var a := Abs(x);
    AbsSquare(x);
    if a > r {
      MulStrict(a, r);
    }
  }

  /** Every pixel of the circle lies in `[10, width - 10] x [10, height - 10]`;
      on an even side the circle reaches column `width - 10`. */
  lemma CircleKeepsMargin(width: nat, height: nat, i: int, j: int)
    requires InCircle(width, height, i, j)
    ensures Margin <= j <= width - Margin && Margin <= i <= height - Margin
  {
    var r := Radius(width, height);
    SquareBound(j - width / 2, i - height / 2, r);
    SquareBound(i - height / 2, j - width / 2, r);
  }

  /** A pixel whose squared distance to the centre is at least
      `(radius + 1)²`, that is, one pixel or more beyond the radius, is outside
      the circle. */
  lemma CircleExcludesBeyondRadius(width: nat, height: nat, i: int, j: int)
    requires var dx, dy, r := j - width / 2, i - height / 2, Radius(width, height);
      dx * dx + dy * dy >= (r + 1) * (r + 1) && r >= 0
    ensures !InCircle(width, height, i, j)
  {
    var r := Radius(width, height);
    assert (r + 1) * (r + 1) > r * r;
  }

  /** On a square canvas with a positive semi-axis, the ellipse is the circle. */
  lemma EllipseOnSquareIsCircle(width: nat, i: int, j: int)
    requires SemiAxisX(width) > 0
    ensures InEllipse(width, width, i, j) <==> InCircle(width, width, i, j)
  {
    var a := SemiAxisX(width);
    var dx, dy := j - width / 2, i - width / 2;
    var A := a * a;
    assert Radius(width, width) == a;
    assert dx * dx * A + dy * dy * A == (dx * dx + dy * dy) * A;
    assert A * A == (a * a) * (a * a);
    var s := dx * dx + dy * dy;
    if s <= A { assert s * A <= A * A; } else { assert s * A > A * A; }
  }

  /** On a small square canvas the two differ: at 10 x 10 the semi-axis and the
      radius are both -5; the ellipse test still admits the centre, while the
      circle test admits nothing. */
  lemma EllipseOnSmallSquareIsNotCircle()
    ensures InEllipse(10, 10, 5, 5) && forall i, j :: !InCircle(10, 10, i, j)
  {
    CircleCentre(10, 10);
  }

  /** A diamond pixel lies in the circle of the same canvas whenever the size
      is non-negative: `|dx| + |dy| <= r` implies `dx² + dy² <= r²`. */
  lemma DiamondInsideCircle(width: nat, height: nat, i: int, j: int)
    requires Radius(width, height) >= 0 && InDiamond(width, height, i, j)
    ensures InCircle(width, height, i, j)
  {
    var dx, dy := j - width / 2, i - height / 2;
    AbsSquare(dx);
    AbsSquare(dy);
    SumSquareBound(Abs(dx), Abs(dy), Radius(width, height));
  }

  /** No row is wider than the canvas. */
  lemma RowWidthBound(width: nat, height: nat, i: nat)
    requires height > 0 && i < height
    ensures RowWidth(width, height, i) <= width
  {
    MulMonotone(width, i, height);
    DivMonotone(width * i, width * height, height);
    assert width * height / height == width;
  }

  /** Each triangle row's slice lies inside the canvas (no negative start, no
      end past the width, so no numpy wrap-around or clipping), and row 0 is
      empty. */
  lemma TriangleRowInCanvas(width: nat, height: nat, i: nat)
    requires height > 0 && i < height
    ensures 0 <= RowStart(width, height, i) <= RowEnd(width, height, i) <= width
    ensures RowEnd(width, height, i) - RowStart(width, height, i) == 2 * (RowWidth(width, height, i) / 2)
    ensures i == 0 ==> RowStart(width, height, i) == RowEnd(width, height, i)
  {
    RowWidthBound(width, height, i);
    DivMonotone(RowWidth(width, height, i), width, 2);
  }

  /** The triangle widens downwards: a lower row never has fewer pixels. */
  lemma TriangleWidens(width: nat, height: nat, i1: nat, i2: nat)
    requires height > 0 && i1 <= i2 < height
    ensures RowEnd(width, height, i1) - RowStart(width, height, i1)
         <= RowEnd(width, height, i2) - RowStart(width, height, i2)
  {
    MulMonotone(width, i1, i2);
    DivMonotone(width * i1, width * i2, height);
    assert RowWidth(width, height, i1) <= RowWidth(width, height, i2);
  }
}
