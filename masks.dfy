/** The shape branches of `create_wordcloud` that build a boolean grid of
    `height` rows and `width` columns: an all-False grid is allocated and the
    cells inside the outline are set to True, pixel by pixel for the circle,
    ellipse and diamond, and one row slice at a time for the triangle. */
module Masks {
  import opened Shapes

  /** The branches that test every pixel against an outline. */
  datatype Outline = Circle | Ellipse | Diamond

  predicate Inside(o: Outline, width: nat, height: nat, i: int, j: int) {
    match o
    case Circle => InCircle(width, height, i, j)
    case Ellipse => InEllipse(width, height, i, j)
    case Diamond => InDiamond(width, height, i, j)
  }

  /** The ellipse divides by `a**2` and `b**2` and the diamond by `size`; on a
      non-empty canvas a zero divisor raises `ZeroDivisionError` at the first
      pixel. An empty canvas never reaches the test. */
  predicate Divisible(o: Outline, width: nat, height: nat) {
    width == 0 || height == 0 ||
    match o
    case Circle => true
    case Ellipse => SemiAxisX(width) != 0 && SemiAxisY(height) != 0
    case Diamond => Radius(width, height) != 0
  }

  /** The nested `for i in range(height): for j in range(width)` loops. */
  method OutlineMask(o: Outline, width: nat, height: nat) returns (mask: array2<bool>)
    requires Divisible(o, width, height)
    ensures fresh(mask) && mask.Length0 == height && mask.Length1 == width
    ensures forall i, j :: 0 <= i < height && 0 <= j < width ==> mask[i, j] == Inside(o, width, height, i, j)
  {
    mask := new bool[height, width]((_, _) => false);
    for i := 0 to height
      invariant forall r, c :: 0 <= r < i && 0 <= c < width ==> mask[r, c] == Inside(o, width, height, r, c)
      invariant forall r, c :: i <= r < height && 0 <= c < width ==> !mask[r, c]
    {
      for j := 0 to width
        invariant forall r, c :: 0 <= r < i && 0 <= c < width ==> mask[r, c] == Inside(o, width, height, r, c)
        invariant forall c :: 0 <= c < j ==> mask[i, c] == Inside(o, width, height, i, c)
        invariant forall c :: j <= c < width ==> !mask[i, c]
        invariant forall r, c :: i < r < height && 0 <= c < width ==> !mask[r, c]
      {
        if Inside(o, width, height, i, j) {
          mask[i, j] := true;
        }
      }
    }
  }

  /** The triangle branch: row `i` gets `mask[i, start_x:end_x] = True` when
      its width is positive. */
  method TriangleMask(width: nat, height: nat) returns (mask: array2<bool>)
    ensures fresh(mask) && mask.Length0 == height && mask.Length1 == width
    ensures forall i, j :: 0 <= i < height && 0 <= j < width ==> mask[i, j] == InTriangle(width, height, i, j)
  {
    mask := new bool[height, width]((_, _) => false);
    for i := 0 to height
      invariant forall r, c :: 0 <= r < i && 0 <= c < width ==> mask[r, c] == InTriangle(width, height, r, c)
      invariant forall r, c :: i <= r < height && 0 <= c < width ==> !mask[r, c]
    {
      TriangleRowInCanvas(width, height, i);
      var k := RowWidth(width, height, i);
      var start, end := width / 2 - k / 2, width / 2 + k / 2;
      if k > 0 {
        for j := start to end
          invariant forall r, c :: 0 <= r < i && 0 <= c < width ==> mask[r, c] == InTriangle(width, height, r, c)
          invariant forall c :: 0 <= c < width ==> mask[i, c] == (start <= c < j)
          invariant forall r, c :: i < r < height && 0 <= c < width ==> !mask[r, c]
        {
          mask[i, j] := true;
        }
      }
    }
  }
}
