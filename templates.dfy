/** The image-driven masks: the china_map and shanghai_map templates fitted
    into the canvas with their aspect ratio kept and pasted in the centre,
    the centred rectangle used when a template cannot be used, and the
    thresholded custom upload. Decoding, greyscale conversion and resampling
    are done by Pillow; here their result arrives as a grey grid. */
module Templates {
  import opened Ratios

  /** An 8-bit grey level, as `convert('L')` yields. */
  type Grey = g: int | 0 <= g < 256

  datatype Dims = Dims(width: nat, height: nat)

  /** The aspect-preserving fit of an `imgW` x `imgH` image into a
      `width` x `height` canvas. `width / height > img_w / img_h` is decided
      exactly by cross-multiplying; `int(height * aspect_ratio)` and
      `int(width / aspect_ratio)` are exact floors. */
  function Fit(width: nat, height: nat, imgW: nat, imgH: nat): Dims
    requires height > 0 && imgW > 0 && imgH > 0
  {
    if width * imgH > imgW * height then Dims(height * imgW / imgH, height)
    else Dims(width, width * imgH / imgW)
  }

  /** The branch test in exact arithmetic is the source's real-number test. */
  lemma FitTestExact(width: nat, height: nat, imgW: nat, imgH: nat)
    requires height > 0 && imgW > 0 && imgH > 0
    ensures (width as real / height as real > imgW as real / imgH as real) <==> width * imgH > imgW * height
  {
    var w, h, iw, ih := width as real, height as real, imgW as real, imgH as real;
    var lhs, rhs := w / h, iw / ih;
    assert lhs * (h * ih) == w * ih;
    assert rhs * (h * ih) == iw * h;
    RealMulPositive(h, ih);
    MulKeepsOrder(lhs, rhs, h * ih);
  }

  /** The fitted sizes are the floors the source's `int(...)` takes. */
  lemma FitSizesAreFloors(width: nat, height: nat, imgW: nat, imgH: nat)
    requires height > 0 && imgW > 0 && imgH > 0
    ensures var aspect := imgW as real / imgH as real; var d := Fit(width, height, imgW, imgH);
      if width * imgH > imgW * height
      then d.width as real <= height as real * aspect < (d.width + 1) as real
      else d.height as real <= width as real / aspect < (d.height + 1) as real
  {
    ScaledQuotient(height, imgW, imgH);
    FloorOfQuotient(height * imgW, imgH);
    if width > 0 {
      ScaledQuotient(width, imgH, imgW);
    }
    FloorOfQuotient(width * imgH, imgW);
  }

  /** The fitted block fits in the canvas and fills it along one side. */
  lemma FitInsideCanvas(width: nat, height: nat, imgW: nat, imgH: nat)
    requires height > 0 && imgW > 0 && imgH > 0
    ensures var d := Fit(width, height, imgW, imgH);
      d.width <= width && d.height <= height && (d.width == width || d.height == height)
  {
    var d := Fit(width, height, imgW, imgH);
    if width * imgH > imgW * height {
      assert d.width * imgH <= height * imgW;
      MulCancel(d.width, width, imgH);
    } else {
      assert d.height * imgW <= width * imgH;
      assert width * imgH <= height * imgW;
      MulCancel(d.height, height + 1, imgW);
    }
  }

  /** The fit keeps the image's aspect ratio up to one pixel: along the side
      that does not fill the canvas, the block is the longest whose ratio does
      not exceed the image's. */
  lemma FitKeepsAspect(width: nat, height: nat, imgW: nat, imgH: nat)
    requires height > 0 && imgW > 0 && imgH > 0
    ensures var d := Fit(width, height, imgW, imgH);
      (d.height == height && d.width * imgH <= height * imgW < (d.width + 1) * imgH)
      || (d.width == width && d.height * imgW <= width * imgH < (d.height + 1) * imgW)
  {
  }

  /** `(W - w) // 2`: the offset that centres a block of length `inner`. */
  function Offset(canvas: nat, inner: nat): (o: nat)
    requires inner <= canvas
    ensures o + inner <= canvas
    ensures canvas - (o + inner) - o == (canvas - inner) % 2
  {
    (canvas - inner) / 2
  }

  datatype Template = ChinaMap | ShanghaiMap

  /** Which grey levels of the template count as part of the shape:
      `< 128` for china_map, `> 128` for shanghai_map. */
  predicate Occupied(t: Template, g: Grey) {
    match t
    case ChinaMap => g < 128
    case ShanghaiMap => g > 128
  }

  /** The custom-upload threshold: everything darker than 200 is shape. */
  predicate UploadOccupied(g: Grey) {
    g < 200
  }

  /** The two template thresholds split the grey levels into complementary
      halves except at 128, which neither counts; every level china_map keeps
      an upload keeps as well. */
  lemma ThresholdsRelated(g: Grey)
    ensures Occupied(ChinaMap, g) != Occupied(ShanghaiMap, g) <==> g != 128
    ensures g == 128 ==> !Occupied(ChinaMap, g) && !Occupied(ShanghaiMap, g)
    ensures Occupied(ChinaMap, g) ==> UploadOccupied(g)
  {
  }

  /** What loading the template produced: its pixel size, or a failure that
      the `except` clause catches. */
  datatype TemplateSource = Unavailable | Image(width: nat, height: nat)

  /** Where the template goes: pasted at `(left, top)` with size `dims`, or
      the fallback rectangle. */
  datatype Placement = Fallback | Pasted(dims: Dims, left: nat, top: nat)

  /** The branch taken inside the `try`. Everything that raises falls back:
      a failed load, a zero image side (`ZeroDivisionError` in
      `img_width / img_height` or `width / aspect_ratio`) and a fitted side
      of zero pixels, which Pillow's `resize` refuses. */
  function Place(width: nat, height: nat, src: TemplateSource): (p: Placement)
    requires width > 0 && height > 0
    ensures p.Pasted? ==> 0 < p.dims.width && p.left + p.dims.width <= width
    ensures p.Pasted? ==> 0 < p.dims.height && p.top + p.dims.height <= height
    ensures p.Pasted? <==> (src.Image? && src.width > 0 && src.height > 0
      && Fit(width, height, src.width, src.height).width > 0
      && Fit(width, height, src.width, src.height).height > 0)
    ensures p.Pasted? ==> (p.dims == Fit(width, height, src.width, src.height)
      && p.left == Offset(width, p.dims.width) && p.top == Offset(height, p.dims.height))
  {
    if src.Unavailable? || src.width == 0 || src.height == 0 then Fallback
    else
      var d := Fit(width, height, src.width, src.height);
      FitInsideCanvas(width, height, src.width, src.height);
      if d.width == 0 || d.height == 0 then Fallback
      else Pasted(d, Offset(width, d.width), Offset(height, d.height))
  }

  predicate InBlock(left: nat, top: nat, w: nat, h: nat, i: int, j: int) {
    top <= i < top + h && left <= j < left + w
  }

  /** `mask = np.zeros((height, width))` followed by
      `mask[top:top+h, left:left+w] = array < 128` (or `> 128`). */
  method EmbedTemplate(t: Template, width: nat, height: nat, left: nat, top: nat, grey: array2<Grey>)
    returns (mask: array2<bool>)
    requires top + grey.Length0 <= height && left + grey.Length1 <= width
    ensures fresh(mask) && mask.Length0 == height && mask.Length1 == width
    ensures forall i, j :: 0 <= i < height && 0 <= j < width ==>
      mask[i, j] == (InBlock(left, top, grey.Length1, grey.Length0, i, j) && Occupied(t, grey[i - top, j - left]))
  {
    mask := new bool[height, width]((_, _) => false);
    var h, w := grey.Length0, grey.Length1;
    for r := 0 to h
      invariant forall i, j :: 0 <= i < height && 0 <= j < width ==>
        mask[i, j] == (InBlock(left, top, w, r, i, j) && Occupied(t, grey[i - top, j - left]))
    {
      for c := 0 to w
        invariant forall i, j :: 0 <= i < height && 0 <= j < width ==>
          mask[i, j] == ((InBlock(left, top, w, r, i, j) || (i == top + r && left <= j < left + c))
                         && Occupied(t, grey[i - top, j - left]))
      {
        mask[top + r, left + c] := Occupied(t, grey[r, c]);
      }
    }
  }

  /** `mask[height//4:3*height//4, width//4:3*width//4] = True` on an
      all-False grid. */
  method FallbackMask(width: nat, height: nat) returns (mask: array2<bool>)
    ensures fresh(mask) && mask.Length0 == height && mask.Length1 == width
    ensures forall i, j :: 0 <= i < height && 0 <= j < width ==>
      mask[i, j] == InBlock(width / 4, height / 4, 3 * width / 4 - width / 4, 3 * height / 4 - height / 4, i, j)
  {
    mask := new bool[height, width]((_, _) => false);
    var top, bottom, left, right := height / 4, 3 * height / 4, width / 4, 3 * width / 4;
    for i := top to bottom
      invariant forall r, c :: 0 <= r < height && 0 <= c < width ==>
        mask[r, c] == InBlock(left, top, right - left, i - top, r, c)
    {
      for j := left to right
        invariant forall r, c :: 0 <= r < height && 0 <= c < width ==>
          mask[r, c] == (InBlock(left, top, right - left, i - top, r, c) || (r == i && left <= c < j))
      {
        mask[i, j] := true;
      }
    }
  }

  /** The fallback rectangle lies in the canvas and spans half of each side,
      give or take one pixel. */
  lemma FallbackSpansHalf(n: nat)
    ensures n / 4 <= 3 * n / 4 <= n
    ensures n / 2 <= 3 * n / 4 - n / 4 <= n / 2 + 1
  {
  }

  /** `img_array < 200` over the resized upload. */
  method UploadMask(grey: array2<Grey>) returns (mask: array2<bool>)
    ensures fresh(mask) && mask.Length0 == grey.Length0 && mask.Length1 == grey.Length1
    ensures forall i, j :: 0 <= i < grey.Length0 && 0 <= j < grey.Length1 ==> mask[i, j] == UploadOccupied(grey[i, j])
  {
    mask := new bool[grey.Length0, grey.Length1]((_, _) => false);
    for i := 0 to grey.Length0
      invariant forall r, c :: 0 <= r < grey.Length0 && 0 <= c < grey.Length1 ==>
        mask[r, c] == (r < i && UploadOccupied(grey[r, c]))
    {
      for j := 0 to grey.Length1
        invariant forall r, c :: 0 <= r < grey.Length0 && 0 <= c < grey.Length1 ==>
          mask[r, c] == ((r < i || (r == i && c < j)) && UploadOccupied(grey[r, c]))
      {
        mask[i, j] := UploadOccupied(grey[i, j]);
      }
    }
  }

  /** The whole china_map / shanghai_map branch. `resized` is the template
      after Pillow's resize and greyscale conversion, of the fitted size. */
  method TemplateMask(t: Template, width: nat, height: nat, src: TemplateSource, resized: array2<Grey>)
    returns (mask: array2<bool>)
    requires width > 0 && height > 0
    requires Place(width, height, src).Pasted? ==>
      resized.Length0 == Place(width, height, src).dims.height && resized.Length1 == Place(width, height, src).dims.width
    ensures fresh(mask) && mask.Length0 == height && mask.Length1 == width
    ensures match Place(width, height, src)
      case Fallback => forall i, j :: 0 <= i < height && 0 <= j < width ==>
        mask[i, j] == InBlock(width / 4, height / 4, 3 * width / 4 - width / 4, 3 * height / 4 - height / 4, i, j)
      case Pasted(d, left, top) => forall i, j :: 0 <= i < height && 0 <= j < width ==>
        mask[i, j] == (InBlock(left, top, d.width, d.height, i, j) && Occupied(t, resized[i - top, j - left]))
  {
    var p := Place(width, height, src);
    match p
    case Fallback =>
      mask := FallbackMask(width, height);
    case Pasted(d, left, top) =>
      mask := EmbedTemplate(t, width, height, left, top, resized);
  }
}
