/** `create_wordcloud`: the shape dispatch that builds the mask, its 0/255
    encoding, the colour source and the arguments handed to the layout
    engine. The engine itself, font lookup and every decoder are outside;
    what they return arrives as inputs. */
module Wordcloud {
  import opened Text
  import opened Terms
  import opened Shapes
  import opened Masks
  import opened Templates
  import opened Encoding
  import opened Colours
  import opened Request

  /** Which branch of the `if`/`elif` chain builds the mask. */
  datatype MaskKind =
    | NoMask
    | Upload
    | Outlined(outline: Outline)
    | Triangular
    | Map(template: Template)
    | FloatShape(name: string)

  /** The shapes drawn with floating-point outlines, outside this model. */
  const FloatShapes: seq<string> := ["heart", "star", "hexagon", "pentagon", "octagon"]

  /** The shapes whose branch sets a mask (the custom upload aside). */
  const MaskedShapes: seq<string> := ["circle", "triangle", "heart", "star", "hexagon", "ellipse",
    "diamond", "pentagon", "octagon", "china_map", "shanghai_map"]

  /** `custom` with image data is tried first; `rectangle`, `custom` without
      data and any unknown name leave the mask as `None`. */
  function KindOf(shape: string, imageData: Option<string>): (k: MaskKind)
    ensures k.NoMask? <==> !(shape == "custom" && HasImage(imageData)) && shape !in MaskedShapes
    ensures k.Upload? <==> shape == "custom" && HasImage(imageData)
    ensures k.FloatShape? <==> shape in FloatShapes
  {
    if shape == "custom" && HasImage(imageData) then Upload
    else if shape == "circle" then Outlined(Circle)
    else if shape == "triangle" then Triangular
    else if shape == "ellipse" then Outlined(Ellipse)
    else if shape == "diamond" then Outlined(Diamond)
    else if shape == "china_map" then Map(ChinaMap)
    else if shape == "shanghai_map" then Map(ShanghaiMap)
    else if shape in FloatShapes then FloatShape(shape)
    else NoMask
  }

  /** The names `/shapes` lists all select a mask except `rectangle`. */
  lemma ListedShapes()
    ensures KindOf("rectangle", None).NoMask?
    ensures KindOf("custom", None).NoMask? && KindOf("custom", Some("")).NoMask?
    ensures forall s :: s in MaskedShapes ==> !KindOf(s, None).NoMask?
  {
  }

  /** The outcome of building the mask: an exception, a shape outside this
      model, or the encoded mask (`None` when no mask is used). */
  datatype MaskResult = Raises | Unmodelled | Built(mask: Option<array2<int>>)

  /** An encoded mask has the canvas size. */
  ghost predicate EncodesGrid(enc: array2<int>, width: nat, height: nat)
    reads enc
  {
    enc.Length0 == height && enc.Length1 == width
  }

  /** Building the mask raises: the upload's `split(',')[1]` finds no comma or
      its decoding fails, or the ellipse or diamond divides by zero. */
  predicate MaskRaises(shape: string, width: nat, height: nat, imageData: Option<string>,
                       upload: Option<array2<Grey>>)
  {
    var k := KindOf(shape, imageData);
    (k.Upload? && (',' !in imageData.value || upload.None?))
    || (k.Outlined? && !Divisible(k.outline, width, height))
  }

  /** The boolean the branch of `kind` sets at row `i`, column `j`, before
      the 0/255 encoding. */
  ghost function Occupies(kind: MaskKind, width: nat, height: nat, upload: Option<array2<Grey>>,
                          src: TemplateSource, resized: array2<Grey>, i: int, j: int): bool
    requires width > 0 && height > 0 && 0 <= i < height && 0 <= j < width
    requires upload.Some? ==> upload.value.Length0 == height && upload.value.Length1 == width
    requires Place(width, height, src).Pasted? ==>
      resized.Length0 == Place(width, height, src).dims.height && resized.Length1 == Place(width, height, src).dims.width
    reads resized, if upload.Some? then {upload.value} else {}
  {
    match kind
    case Upload => upload.Some? && UploadOccupied(upload.value[i, j])
    case Outlined(o) => Inside(o, width, height, i, j)
    case Triangular => InTriangle(width, height, i, j)
    case Map(t) =>
      (match Place(width, height, src)
       case Fallback => InBlock(width / 4, height / 4, 3 * width / 4 - width / 4, 3 * height / 4 - height / 4, i, j)
       case Pasted(d, left, top) => InBlock(left, top, d.width, d.height, i, j) && Occupied(t, resized[i - top, j - left]))
    case _ => false
  }

  /** The encoded cell `create_wordcloud` hands to the layout engine at row
      `i`, column `j`: the branch's boolean, inverted unless the shape is
      shanghai_map, scaled to 0/255. */
  ghost function MaskCell(shape: string, width: nat, height: nat, imageData: Option<string>,
                          upload: Option<array2<Grey>>, src: TemplateSource, resized: array2<Grey>,
                          i: int, j: int): int
    requires width > 0 && height > 0 && 0 <= i < height && 0 <= j < width
    requires upload.Some? ==> upload.value.Length0 == height && upload.value.Length1 == width
    requires Place(width, height, src).Pasted? ==>
      resized.Length0 == Place(width, height, src).dims.height && resized.Length1 == Place(width, height, src).dims.width
    reads resized, if upload.Some? then {upload.value} else {}
  {
    EncodeCell(Occupies(KindOf(shape, imageData), width, height, upload, src, resized, i, j), Inverts(shape))
  }

  /** The boolean mask of a branch that sets one and does not raise. */
  method BranchMask(kind: MaskKind, width: nat, height: nat, upload: Option<array2<Grey>>,
                    src: TemplateSource, resized: array2<Grey>)
    returns (mask: array2<bool>)
    requires width > 0 && height > 0
    requires upload.Some? ==> upload.value.Length0 == height && upload.value.Length1 == width
    requires Place(width, height, src).Pasted? ==>
      resized.Length0 == Place(width, height, src).dims.height && resized.Length1 == Place(width, height, src).dims.width
    requires kind.Upload? ==> upload.Some?
    requires kind.Outlined? ==> Divisible(kind.outline, width, height)
    requires !kind.NoMask? && !kind.FloatShape?
    ensures fresh(mask) && mask.Length0 == height && mask.Length1 == width
    ensures forall i, j :: 0 <= i < height && 0 <= j < width ==>
      mask[i, j] == Occupies(kind, width, height, upload, src, resized, i, j)
  {
    match kind {
      case Upload =>
        mask := UploadMask(upload.value);
      case Outlined(o) =>
        mask := OutlineMask(o, width, height);
      case Triangular =>
        mask := TriangleMask(width, height);
      case Map(t) =>
        mask := TemplateMask(t, width, height, src, resized);
    }
  }

  /** The mask part of `create_wordcloud` followed by its encoding.
      `upload` is the decoded, greyscaled upload resized to the canvas
      (`None` when decoding raises); `src` and `resized` are what loading and
      resizing the map template give. */
  method CreateMask(shape: string, width: nat, height: nat, imageData: Option<string>,
                    upload: Option<array2<Grey>>, src: TemplateSource, resized: array2<Grey>)
    returns (r: MaskResult)
    requires width > 0 && height > 0
    requires upload.Some? ==> upload.value.Length0 == height && upload.value.Length1 == width
    requires Place(width, height, src).Pasted? ==>
      resized.Length0 == Place(width, height, src).dims.height && resized.Length1 == Place(width, height, src).dims.width
    ensures r == Built(None) <==> KindOf(shape, imageData).NoMask?
    ensures r == Unmodelled <==> KindOf(shape, imageData).FloatShape?
    ensures r == Raises <==> MaskRaises(shape, width, height, imageData, upload)
    ensures r.Built? && r.mask.Some? ==> (var m := r.mask.value;
      fresh(m) && EncodesGrid(m, width, height)
      && forall i, j :: 0 <= i < height && 0 <= j < width ==>
           m[i, j] == MaskCell(shape, width, height, imageData, upload, src, resized, i, j))
  {
    var kind := KindOf(shape, imageData);
    if kind.NoMask? {
      return Built(None);
    } else if kind.FloatShape? {
      return Unmodelled;
    } else if MaskRaises(shape, width, height, imageData, upload) {
      return Raises;
    }
    var mask := BranchMask(kind, width, height, upload, src, resized);
    var enc := EncodeMask(mask, Inverts(shape));
    r := Built(Some(enc));
  }

  /** The `WordCloud(...)` call: canvas, mask, the fixed `max_words=100` and
      `relative_scaling=0.5`, the colormap and the term weights. */
  datatype Layout = Layout(
    width: nat,
    height: nat,
    backgroundColour: string,
    mask: Option<array2<int>>,
    maxWords: nat,
    relativeScaling: real,
    colormap: Colormap,
    frequencies: map<string, int>)

  const MaxWords := 100
  const RelativeScaling := 0.5

  /** The whole of `create_wordcloud` up to the layout call. `None` is an
      exception raised while building the mask, or a shape outside this
      model. The colour extraction is reached only once the upload's mask
      was built, so its data then holds a comma.

      The upload's payload is decoded twice, as two different images: the
      mask reads it greyscaled and resized to the canvas, and the colour
      step reads it in RGB at 150 x 150. The mask's image is `upload`, the
      one grid decoded for this request's payload (a value, since a decoder
      returning grids would have to promise the canvas size for every
      payload); the colour step enters only through the centres it yields,
      so it is `cluster`, a function of the payload. */
  method CreateWordcloud(p: Params, upload: Option<array2<Grey>>, src: TemplateSource, resized: array2<Grey>,
                         cluster: string -> Option<seq<Centroid>>)
    returns (layout: Option<Layout>)
    requires p.width > 0 && p.height > 0
    requires upload.Some? ==> upload.value.Length0 == p.height && upload.value.Length1 == p.width
    requires Place(p.width, p.height, src).Pasted? ==>
      resized.Length0 == Place(p.width, p.height, src).dims.height && resized.Length1 == Place(p.width, p.height, src).dims.width
    ensures layout.None? <==>
      KindOf(p.shape, p.imageData).FloatShape? || MaskRaises(p.shape, p.width, p.height, p.imageData, upload)
    ensures layout.Some? ==> (var l := layout.value;
      IsTermWeighting(p.text, l.frequencies)
      && l.width == p.width && l.height == p.height && l.backgroundColour == p.backgroundColour
      && l.maxWords == 100 && l.relativeScaling == 0.5
      && (l.mask.None? <==> KindOf(p.shape, p.imageData).NoMask?)
      && (l.mask.Some? ==> (fresh(l.mask.value) && EncodesGrid(l.mask.value, p.width, p.height)
          && forall i, j :: 0 <= i < p.height && 0 <= j < p.width ==>
               l.mask.value[i, j] == MaskCell(p.shape, p.width, p.height, p.imageData, upload, src, resized, i, j))))
    ensures layout.Some? && !(KindOf(p.shape, p.imageData).Upload? && p.useImageColours) ==>
      layout.value.colormap == ChooseColormap(None, p.colourTheme)
    ensures layout.Some? && KindOf(p.shape, p.imageData).Upload? && p.useImageColours ==>
      (var l := layout.value; var cs := cluster(StripDataUrlPrefix(p.imageData.value).value);
       if cs.None? then l.colormap == Listed(FallbackPalette)
       else if cs.value == [] then l.colormap == ChooseColormap(None, p.colourTheme)
       else (l.colormap.Listed? && |l.colormap.colours| == |cs.value|
         && forall k :: 0 <= k < |cs.value| ==>
              l.colormap.colours[k] == HexColour(Clamped(cs.value[k]))
              && ParseHexColour(l.colormap.colours[k]) == Some(Clamped(cs.value[k]))))
  {
    var freq := WeighTerms(p.text);
    var m := CreateMask(p.shape, p.width, p.height, p.imageData, upload, src, resized);
    if !m.Built? {
      return None;
    }
    var colours: Option<seq<string>> := None;
    if KindOf(p.shape, p.imageData).Upload? && p.useImageColours {
      var hex := ExtractColours(p.imageData.value, cluster);
      colours := Some(hex);
    }
    var colormap := ChooseColormap(colours, p.colourTheme);
    layout := Some(Layout(p.width, p.height, p.backgroundColour, m.mask, MaxWords, RelativeScaling, colormap, freq));
  }
}
