/** The crop applied to china_map and shanghai_map renderings: find the
    bounding box of the pixels that are not pure white, cut the raster down
    to it and fit the cut-out into the requested canvas again. The rendered
    raster (an RGB image from the layout engine) arrives as input. */
module Crop {
  import opened Text
  import opened Colours
  import opened Templates

  /** `np.mean(pixel) < 255`, i.e. the channel sum is below `3 * 255`. */
  predicate NonBackground(p: Colour) {
    p.r + p.g + p.b < 3 * 255
  }

  /** The integer test is the source's mean test. */
  lemma MeanTestExact(p: Colour)
    ensures ((p.r + p.g + p.b) as real / 3.0 < 255.0) <==> NonBackground(p)
  {
  }

  /** With channels in 0..255, a pixel is background exactly when it is
      pure white, whatever the requested background colour. */
  lemma BackgroundIsWhite(p: Colour)
    ensures !NonBackground(p) <==> p == Colour(255, 255, 255)
  {
  }

  /** Rows `top..bottom` and columns `left..right`, both inclusive. */
  datatype Box = Box(top: nat, bottom: nat, left: nat, right: nat)

  ghost predicate Blank(img: array2<Colour>)
    reads img
  {
    forall i, j :: 0 <= i < img.Length0 && 0 <= j < img.Length1 ==> !NonBackground(img[i, j])
  }

  ghost predicate Contains(b: Box, i: int, j: int) {
    b.top <= i <= b.bottom && b.left <= j <= b.right
  }

  /** `min_y, max_y, min_x, max_x` of `np.where(non_empty)`: a box inside the
      raster that holds every non-background pixel, each side touching one. */
  ghost predicate TightBox(img: array2<Colour>, b: Box)
    reads img
  {
    b.top <= b.bottom < img.Length0 && b.left <= b.right < img.Length1
    && (forall i, j :: 0 <= i < img.Length0 && 0 <= j < img.Length1 && NonBackground(img[i, j]) ==> Contains(b, i, j))
    && (exists j :: 0 <= j < img.Length1 && NonBackground(img[b.top, j]))
    && (exists j :: 0 <= j < img.Length1 && NonBackground(img[b.bottom, j]))
    && (exists i :: 0 <= i < img.Length0 && NonBackground(img[i, b.left]))
    && (exists i :: 0 <= i < img.Length0 && NonBackground(img[i, b.right]))
  }

  /** There is only one tight box. */
  lemma TightBoxUnique(img: array2<Colour>, a: Box, b: Box)
    requires TightBox(img, a) && TightBox(img, b)
    ensures a == b
  {
    var jt :| 0 <= jt < img.Length1 && NonBackground(img[a.top, jt]);
    var jb :| 0 <= jb < img.Length1 && NonBackground(img[a.bottom, jb]);
    var il :| 0 <= il < img.Length0 && NonBackground(img[il, a.left]);
    var ir :| 0 <= ir < img.Length0 && NonBackground(img[ir, a.right]);
    assert Contains(b, a.top, jt) && Contains(b, a.bottom, jb) && Contains(b, il, a.left) && Contains(b, ir, a.right);
    var kt :| 0 <= kt < img.Length1 && NonBackground(img[b.top, kt]);
    var kb :| 0 <= kb < img.Length1 && NonBackground(img[b.bottom, kb]);
    var ml :| 0 <= ml < img.Length0 && NonBackground(img[ml, b.left]);
    var mr :| 0 <= mr < img.Length0 && NonBackground(img[mr, b.right]);
    assert Contains(a, b.top, kt) && Contains(a, b.bottom, kb) && Contains(a, ml, b.left) && Contains(a, mr, b.right);
  }

  /** The scan that `np.any`, `np.where` and `np.min`/`np.max` perform. */
  method BoundingBox(img: array2<Colour>) returns (box: Option<Box>)
    ensures box.None? <==> Blank(img)
    ensures box.Some? ==> TightBox(img, box.value)
  {
    var found := false;
    var top, bottom, left, right := 0, 0, 0, 0;
    ghost var wt, wb, wl, wr := 0, 0, 0, 0;
    for i := 0 to img.Length0
      invariant !found ==> forall r, c :: 0 <= r < i && 0 <= c < img.Length1 ==> !NonBackground(img[r, c])
      invariant found ==> top <= bottom < i && left <= right < img.Length1
      invariant found ==> forall r, c :: 0 <= r < i && 0 <= c < img.Length1 && NonBackground(img[r, c]) ==>
        Contains(Box(top, bottom, left, right), r, c)
      invariant found ==> (0 <= wt < img.Length1 && NonBackground(img[top, wt])
        && 0 <= wb < img.Length1 && NonBackground(img[bottom, wb])
        && 0 <= wl < i && NonBackground(img[wl, left])
        && 0 <= wr < i && NonBackground(img[wr, right]))
    {
      for j := 0 to img.Length1
        invariant !found ==> forall r, c :: 0 <= r < img.Length0 && 0 <= c < img.Length1 && (r < i || (r == i && c < j)) ==>
          !NonBackground(img[r, c])
        invariant found ==> top <= bottom <= i && left <= right < img.Length1
        invariant found ==> forall r, c ::
          (0 <= r < img.Length0 && 0 <= c < img.Length1 && (r < i || (r == i && c < j)) && NonBackground(img[r, c]))
          ==> Contains(Box(top, bottom, left, right), r, c)
        invariant found ==> (0 <= wt < img.Length1 && NonBackground(img[top, wt])
          && 0 <= wb < img.Length1 && NonBackground(img[bottom, wb])
          && 0 <= wl <= i && NonBackground(img[wl, left])
          && 0 <= wr <= i && NonBackground(img[wr, right]))
      {
        if NonBackground(img[i, j]) {
          if !found {
            found := true;
            top, bottom, left, right := i, i, j, j;
            wt, wb, wl, wr := j, j, i, i;
          } else {
            bottom, wb := i, j;
            if j < left {
              left, wl := j, i;
            }
            if j > right {
              right, wr := j, i;
            }
          }
        }
      }
    }
    if found {
      box := Some(Box(top, bottom, left, right));
    } else {
      box := None;
    }
  }

  /** `wordcloud_array[min_y:max_y+1, min_x:max_x+1]`. */
  method CropTo(img: array2<Colour>, b: Box) returns (out: array2<Colour>)
    requires b.top <= b.bottom < img.Length0 && b.left <= b.right < img.Length1
    ensures fresh(out) && out.Length0 == b.bottom - b.top + 1 && out.Length1 == b.right - b.left + 1
    ensures forall i, j :: 0 <= i < out.Length0 && 0 <= j < out.Length1 ==> out[i, j] == img[b.top + i, b.left + j]
  {
    var h, w := b.bottom - b.top + 1, b.right - b.left + 1;
    out := new Colour[h, w]((i, j) reads img requires 0 <= i < h && 0 <= j < w => img[b.top + i, b.left + j]);
  }

  /** The crop-and-refit of the template shapes. Without any non-background
      pixel the raster and the canvas size are left as they were; otherwise
      the raster is cut to its tight box and the new figure size is the
      aspect fit of the box into the canvas. */
  method CropAndRefit(img: array2<Colour>, width: nat, height: nat) returns (box: Option<Box>, out: array2<Colour>, size: Dims)
    requires height > 0
    ensures box.None? <==> Blank(img)
    ensures box.None? ==> out == img && size == Dims(width, height)
    ensures box.Some? ==> (TightBox(img, box.value) && fresh(out)
      && out.Length0 == box.value.bottom - box.value.top + 1 && out.Length1 == box.value.right - box.value.left + 1
      && (forall i, j :: 0 <= i < out.Length0 && 0 <= j < out.Length1 ==> out[i, j] == img[box.value.top + i, box.value.left + j])
      && size == Fit(width, height, out.Length1, out.Length0))
  {
    box := BoundingBox(img);
    if box.None? {
      out, size := img, Dims(width, height);
    } else {
      out := CropTo(img, box.value);
      size := Fit(width, height, out.Length1, out.Length0);
    }
  }
}
