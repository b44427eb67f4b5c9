# Word-cloud mask and request model

This project is a Dafny model of the deterministic core of `wordcloud_app.py`, a Flask service that renders a comma-separated word list as a word cloud. The word cloud's outline is a geometric shape, an uploaded image or one of two built-in map templates. The model covers these parts:

- **Term weighting.** The text is split on commas and each token is trimmed. A non-blank token at position `i` of the unfiltered split gets weight `len(words) - i`. A repeated term keeps the weight of its last position.
- **Geometric masks.** The circle, ellipse, diamond and triangle masks are `height x width` boolean grids filled by nested loops or row slices. Each source test that uses `sqrt`, division or `int(...)` is stated exactly in integer arithmetic, and a lemma proves it equivalent to the real-number test.
- **Image masks.**
  - The china_map and shanghai_map templates are fitted into the canvas with their aspect ratio kept, pasted in the centre, and thresholded at `< 128` and `> 128` respectively.
  - When a template cannot be used, the mask falls back to a centred rectangle.
  - A custom upload is thresholded at `< 200`, after its data-URL prefix is removed with `split(',')[1]`.
- **Mask encoding.** The boolean mask becomes the 0/255 grid given to the layout engine. It is inverted for every shape except shanghai_map.
- **Colours.**
  - Cluster centres are clamped and truncated, then formatted as `#rrggbb`.
  - When anything in the extraction fails, a fixed five-colour palette is returned.
  - The colormap is the extracted colours if there are any, otherwise the requested theme if it is known, otherwise `'viridis'`.
- **Request handling.** The request body gets its defaults, the two 400 rejections are applied, and a non-positive width or height becomes 800.
- **Crop.** For template shapes, the rendered raster is cut to the tight bounding box of its non-white pixels, and the cut-out is fitted into the canvas again.

Modules follow the program's structure:

| module | models |
|---|---|
| `Text` | `str.split(',')`, `str.strip()` and the data-URL prefix strip |
| `Terms` | the weighting loop |
| `Ratios` | shared floor and real-number arithmetic |
| `Shapes` | the per-pixel tests |
| `Masks` | the grid-filling loops |
| `Templates` | fit, paste, fallback and thresholds |
| `Encoding` | the 0/255 encoding |
| `Colours` | colour formatting and colormap choice |
| `Request` | request validation |
| `Crop` | the bounding-box crop |
| `Wordcloud` | the shape dispatch and the assembled `WordCloud(...)` arguments |

The model raises its own points about the code:

- At a grey level of 128 neither template treats the pixel as shape. At every other level, china_map's inverted `< 128` and shanghai_map's plain `> 128` encode a pasted pixel identically.
- Outside the pasted block, and on the fallback rectangle, the two templates encode opposite values (`Encoding.TemplateEncodings`, `Encoding.FallbackEncodingsComplementary`).
- On a small square canvas the ellipse test admits pixels while the circle test admits none (`Shapes.EllipseOnSmallSquareIsNotCircle`).
- Text made only of commas passes validation but yields an empty weighting (`Request.CommaOnlyText`).

Some behaviours of the code are easy to miss and the model keeps them as written:

- **Weight positions.** A weight is `len(words) - i` with `i` the position in the unfiltered split, so blank tokens still use up positions (`Terms.BlankAndRepeatedTerms`).
- **No empty-weighting check.** Text that has non-whitespace characters but no non-blank token, such as `,`, passes validation (`Request.CommaOnlyText`).
- **Blank render.** A template render with no non-white pixel is kept whole, at the canvas size (`Crop.CropAndRefit`).
- **Canvas size.** A missing height defaults to 400, but a non-positive width or height becomes 800 (`Request.Defaults`).
- **Image check.** Only `custom` requires image data; the map templates are loaded from disk (`Request.Validate`).

## Model

| member | source | states |
|---|---|---|
| Text.IsSpace | wordcloud_app.py:245 | definition: the characters Python's `str.isspace()` accepts, which `strip()` removes; used by `Text.LeadingSpace`, `Text.TrailingSpace` and `Text.Strip` |
| Text.AllSpace | wordcloud_app.py:653 | definition: every character is whitespace; used by `Text.StripEmptyIffAllSpace` and `Request.Validate` |
| Text.LeadingSpace | wordcloud_app.py:245 | the count of leading characters `strip` removes: all of them are whitespace and the next one is not |
| Text.TrailingSpace | wordcloud_app.py:245 | the count of trailing characters `strip` removes: all of them are whitespace and the one before is not |
| Text.Strip | wordcloud_app.py:245 | the stripped token is empty or starts and ends with a non-whitespace character |
| Text.StripIsInfix | wordcloud_app.py:245 | the stripped token is a contiguous piece of the input, with only whitespace removed on either side |
| Text.StripEmptyIffAllSpace | wordcloud_app.py:653 | `not text.strip()` holds exactly when every character is whitespace (both directions) |
| Text.StripKeeps | wordcloud_app.py:245 | a token without whitespace at its ends is unchanged by `strip` |
| Text.Split | wordcloud_app.py:240 | `split(',')` yields at least one field, no field contains a comma, and there is a single field (the whole text) exactly when the text has no comma |
| Text.JoinSplit | wordcloud_app.py:240 | re-joining the fields with commas gives back the text |
| Text.SplitJoin | wordcloud_app.py:240 | splitting comma-joined comma-free fields gives back exactly those fields |
| Text.SplitAfterPlain | wordcloud_app.py:240 | a comma-free prefix joins the first field of the rest |
| Text.StripDataUrlPrefix | wordcloud_app.py:174 | `split(',')[1]` exists exactly when the data contains a comma, and the payload then contains no comma |
| Text.DataUrlPayloadPosition | wordcloud_app.py:174 | the payload starts right after the first comma and ends at the next comma or at the end of the data |
| Text.DataUrlExample | wordcloud_app.py:174 | `data:image/png;base64,QUJD` strips to `QUJD` |
| Terms.StripAll | wordcloud_app.py:244-245 | trimming keeps one token per field |
| Terms.StripAllAt | wordcloud_app.py:245 | the trimmed token at a position is the stripped field at that position |
| Terms.Tokens | wordcloud_app.py:240-245 | definition: `text.split(',')` with each field stripped, blank fields kept; used by `Terms.IsTermWeighting` |
| Terms.LastIndexOf | wordcloud_app.py:249 | the last position of a term, or -1 exactly when it is absent |
| Terms.LastIndexOfSnoc | wordcloud_app.py:249 | appending a token moves a term's last position to the end exactly when it is that term |
| Terms.WeightedUpTo | wordcloud_app.py:244-249 | definition: the entries stored after a prefix of the tokens: exactly its non-blank tokens, each weighted the token count minus its last position; used by `Terms.WeightedStep` and `Terms.WeighTerms` |
| Terms.IsWeighting | wordcloud_app.py:244-249 | definition: `Terms.WeightedUpTo` over all the tokens; used by `Terms.WeightingUnique` and `Terms.WeightsFollowPosition` |
| Terms.IsTermWeighting | wordcloud_app.py:240-249 | definition: `Terms.IsWeighting` of the text's tokens; used by `Terms.WeighTerms` and `Wordcloud.CreateWordcloud` |
| Terms.WeightedStep | wordcloud_app.py:246-249 | one loop step (store `len(words) - i` for a non-blank token) extends the weighting rule by one token |
| Terms.TokenStep | wordcloud_app.py:244-249 | the same step at position `i` of the trimmed tokens |
| Terms.WeighTerms | wordcloud_app.py:240-249 | the dict holds exactly the non-blank trimmed tokens, each weighted `len(words)` minus its last position in the unfiltered split |
| Terms.WeightingUnique | wordcloud_app.py:240-249 | the weighting rule determines the dict |
| Terms.WeightsFollowPosition | wordcloud_app.py:248 | every weight lies in `[1, len(words)]`, and one term outweighs another exactly when its last position is earlier |
| Terms.StripAllKeeps | wordcloud_app.py:245 | tokens without edge whitespace are unchanged by trimming |
| Terms.CatDogBird | wordcloud_app.py:240-249 | `cat,dog,bird` gives cat 3, dog 2, bird 1 |
| Terms.BlankAndRepeatedTerms | wordcloud_app.py:240-249 | `a, ,b,a` gives a 1 and b 2: the blank token still counts, and the last `a` wins |
| Shapes.Radius | wordcloud_app.py:266 | definition: `min(width, height) // 2 - 10`, the circle's radius and the diamond's size; used by `Shapes.InCircle` and `Shapes.InDiamond` |
| Shapes.SemiAxisX | wordcloud_app.py:405 | definition: `width // 2 - 10`; used by `Shapes.InEllipse` |
| Shapes.SemiAxisY | wordcloud_app.py:406 | definition: `height // 2 - 10`; used by `Shapes.InEllipse` |
| Shapes.InCircle | wordcloud_app.py:266-276 | definition: the integer form of the circle test; tied to the source's test by `Shapes.CircleTestExact` |
| Shapes.InEllipse | wordcloud_app.py:405-416 | definition: the cross-multiplied ellipse test; tied to the source's test by `Shapes.EllipseTestExact` |
| Shapes.InDiamond | wordcloud_app.py:421-430 | definition: the integer diamond test; tied to the source's test by `Shapes.DiamondTestExact` |
| Shapes.RowWidth | wordcloud_app.py:292 | definition: the triangle's width at a row; it is the floor of the source's expression by `Shapes.RowWidthIsFloor` |
| Shapes.RowStart | wordcloud_app.py:295 | definition: `width // 2 - k // 2`, where the row's slice starts; used by `Shapes.InTriangle` and `Shapes.TriangleRowInCanvas` |
| Shapes.RowEnd | wordcloud_app.py:296 | definition: `width // 2 + k // 2`, where the row's slice ends; used by `Shapes.InTriangle` and `Shapes.TriangleRowInCanvas` |
| Shapes.InTriangle | wordcloud_app.py:295-300 | definition: the row slice the triangle sets; properties in `Shapes.TriangleRowInCanvas` and `Shapes.TriangleWidens` |
| Shapes.SquareMonotone | wordcloud_app.py:275-276 | squaring keeps the order of non-negative reals (both directions) |
| Shapes.CircleTestExact | wordcloud_app.py:270-276 | `sqrt(dx**2 + dy**2) <= radius` holds exactly when `radius >= 0` and `dx² + dy² <= radius²` |
| Shapes.EllipseTestExact | wordcloud_app.py:415 | for non-zero semi-axes, `dx**2 / a**2 + dy**2 / b**2 <= 1` holds exactly when `dx²b² + dy²a² <= a²b²` |
| Shapes.QuotientSumTest | wordcloud_app.py:415 | a sum of two quotients is at most 1 exactly when the cross-multiplied sum is at most the product of the divisors |
| Shapes.DiamondTestExact | wordcloud_app.py:430 | for a non-zero size, the quotient test holds exactly when the size is negative or `|dx| + |dy| <= size` |
| Shapes.RowWidthIsFloor | wordcloud_app.py:289-292 | the exact `width * i // height` is the floor of the source's `width * (i / height)` |
| Shapes.CircleCentre | wordcloud_app.py:264-277 | with a non-negative radius the centre pixel is on the canvas and inside the circle; with a negative radius no pixel is |
| Shapes.CircleKeepsMargin | wordcloud_app.py:266-276 | every circle pixel lies in `[10, width - 10] x [10, height - 10]` (on an even side the circle reaches column `width - 10`) |
| Shapes.CircleExcludesBeyondRadius | wordcloud_app.py:276 | a pixel at a squared distance of at least `(radius + 1)²` is outside the circle |
| Shapes.SquareBound | wordcloud_app.py:276 | a coordinate inside the radius-r disc lies in `[-r, r]` |
| Shapes.SumSquareBound | wordcloud_app.py:430 | `x + y <= r` implies `x² + y² <= r²` for non-negative `x`, `y` |
| Shapes.EllipseOnSquareIsCircle | wordcloud_app.py:401-416 | on a square canvas with a positive semi-axis, the ellipse and circle tests agree on every pixel |
| Shapes.EllipseOnSmallSquareIsNotCircle | wordcloud_app.py:264-277 | on a 10 x 10 canvas the ellipse admits the centre while the circle admits nothing |
| Shapes.DiamondInsideCircle | wordcloud_app.py:419-431 | with a non-negative size, every diamond pixel is inside the circle of the same canvas |
| Shapes.RowWidthBound | wordcloud_app.py:292 | no triangle row is wider than the canvas |
| Shapes.TriangleRowInCanvas | wordcloud_app.py:292-300 | each row's slice lies inside `[0, width]`, holds `2 * (k // 2)` pixels, and row 0 is empty |
| Shapes.TriangleWidens | wordcloud_app.py:286-300 | a lower row never holds fewer pixels than a higher one |
| Masks.Inside | wordcloud_app.py:262-431 | definition: the circle, ellipse or diamond test by outline; used by `Masks.OutlineMask` and `Wordcloud.Occupies` |
| Masks.Divisible | wordcloud_app.py:405-430 | definition: an empty canvas, or non-zero semi-axes for the ellipse and a non-zero size for the diamond, so no `ZeroDivisionError` arises; used by `Masks.OutlineMask` and `Wordcloud.MaskRaises` |
| Masks.OutlineMask | wordcloud_app.py:262-277 | a fresh `height x width` grid that is True exactly where the circle, ellipse or diamond test holds (ellipse and diamond branches at 399-431) |
| Masks.TriangleMask | wordcloud_app.py:281-300 | a fresh `height x width` grid that is True exactly on each row's slice `[width//2 - k//2, width//2 + k//2)` |
| Ratios.DivMonotone | wordcloud_app.py:292 | floor division by a positive divisor is monotone |
| Ratios.MulCancel | wordcloud_app.py:517 | a positive factor can be cancelled from a strict inequality |
| Ratios.FloorOfQuotient | wordcloud_app.py:517 | integer division is the floor of the real quotient |
| Ratios.ScaledQuotient | wordcloud_app.py:517-521 | `a * (b / c)` and `a / (c / b)` both equal `a * b / c` over the reals |
| Ratios.MulKeepsOrder | wordcloud_app.py:514 | multiplying by a positive real keeps order (both directions) |
| Templates.Fit | wordcloud_app.py:514-521 | definition: the size the template is resized to; properties in `Templates.FitTestExact`, `Templates.FitSizesAreFloors`, `Templates.FitInsideCanvas` and `Templates.FitKeepsAspect` |
| Templates.Occupied | wordcloud_app.py:540-586 | definition: `< 128` for china_map and `> 128` for shanghai_map; properties in `Templates.ThresholdsRelated` and `Encoding.TemplateEncodings` |
| Templates.UploadOccupied | wordcloud_app.py:189 | definition: `< 200` for an upload; properties in `Templates.ThresholdsRelated` |
| Templates.FitTestExact | wordcloud_app.py:514 | `width / height > img_w / img_h` holds exactly when `width * img_h > img_w * height` |
| Templates.FitSizesAreFloors | wordcloud_app.py:514-521 | the fitted side is the floor of `height * aspect_ratio` or of `width / aspect_ratio`, whichever branch is taken |
| Templates.FitInsideCanvas | wordcloud_app.py:514-521 | the fitted block is no larger than the canvas and fills it along one side |
| Templates.FitKeepsAspect | wordcloud_app.py:514-521 | along the side that does not fill the canvas, the block is the longest whose ratio does not exceed the image's |
| Templates.Offset | wordcloud_app.py:533-534 | `(W - w) // 2` keeps the block inside the canvas, and the two margins differ by at most one pixel |
| Templates.Place | wordcloud_app.py:502-546 | the template is pasted exactly when it loaded with positive size and both fitted sides are positive; the block is then the fit, centred and inside the canvas; otherwise the fallback is used |
| Templates.ThresholdsRelated | wordcloud_app.py:540 | the `< 128` and `> 128` thresholds disagree on every grey level except 128, which neither keeps, and everything `< 128` also passes `< 200` |
| Templates.InBlock | wordcloud_app.py:540 | definition: the cell lies in the pasted block `[top, top + h) x [left, left + w)`; used by `Templates.EmbedTemplate`, `Templates.FallbackMask` and `Wordcloud.Occupies` |
| Templates.EmbedTemplate | wordcloud_app.py:530-540 | a fresh canvas-sized grid that is True exactly on the block cells whose grey level passes the template's threshold |
| Templates.FallbackMask | wordcloud_app.py:545-546 | a fresh canvas-sized grid that is True exactly on rows `[h//4, 3h//4)` and columns `[w//4, 3w//4)` |
| Templates.FallbackSpansHalf | wordcloud_app.py:546 | the fallback band lies in the canvas and spans half of each side, within one pixel |
| Templates.UploadMask | wordcloud_app.py:186-189 | the upload mask is True exactly where the grey level is below 200 |
| Templates.TemplateMask | wordcloud_app.py:502-592 | the china_map / shanghai_map branch gives the pasted threshold grid or, when placement fails, the fallback rectangle |
| Encoding.Inverts | wordcloud_app.py:599 | definition: every shape but shanghai_map is inverted; its effect is in `Encoding.EncodeCellInjective` and `Encoding.TemplateEncodings` |
| Encoding.EncodeCell | wordcloud_app.py:597-603 | an encoded cell is 0 or 255, and it is 255 exactly when the mask value differs from the inversion flag |
| Encoding.DecodeEncode | wordcloud_app.py:597-603 | the mask value can be read back from its encoding |
| Encoding.EncodeCellInjective | wordcloud_app.py:597-603 | for a fixed shape the encoding is one-to-one, and inverting complements it |
| Encoding.EncodeMask | wordcloud_app.py:597-603 | a fresh grid of the mask's size holding each cell's encoding |
| Encoding.EncodeOptionalMask | wordcloud_app.py:597-603 | no mask stays no mask; otherwise every cell is encoded, inverted unless the shape is shanghai_map |
| Encoding.TemplateEncodings | wordcloud_app.py:540-603 | the two templates encode a pasted grey level alike exactly when it is not 128, and encode an empty cell as 255 (china_map) and 0 (shanghai_map) |
| Encoding.FallbackEncodingsComplementary | wordcloud_app.py:545-603 | the same fallback rectangle is encoded as complementary grids by the two templates |
| Colours.Channel | wordcloud_app.py:225-227 | `int(np.clip(x, 0, 255))`: 0 at or below 0, 255 at or above 255, otherwise the integer part |
| Colours.Clamped | wordcloud_app.py:225-227 | definition: the three channels clamped and truncated; properties in `Colours.Channel` |
| Colours.Hex2 | wordcloud_app.py:228 | definition: `{:02x}` of one channel; properties in `Colours.Hex2RoundTrip` and `Colours.Hex2OfByte2` |
| Colours.HexColour | wordcloud_app.py:228 | the formatted colour is `#` followed by six lowercase hexadecimal digits |
| Colours.DigitValue | wordcloud_app.py:228 | a hexadecimal digit's value names that digit |
| Colours.DigitValueOf | wordcloud_app.py:228 | the digit at position n has value n |
| Colours.Hex2RoundTrip | wordcloud_app.py:228 | `{:02x}` can be read back |
| Colours.Hex2OfByte2 | wordcloud_app.py:228 | formatting the value of two digits gives those digits |
| Colours.ParseFormatted | wordcloud_app.py:228 | parsing a formatted colour gives back its channels |
| Colours.FormatParsed | wordcloud_app.py:228 | formatting a parsed `#rrggbb` string gives back the string |
| Colours.HexColours | wordcloud_app.py:222-231 | one formatted colour per cluster centre, in order, each the clamped channels |
| Colours.FallbackPalette | wordcloud_app.py:235 | definition: the five default colours; used by `Colours.FallbackPaletteWellFormed` and `Colours.ExtractColours` |
| Colours.FallbackPaletteWellFormed | wordcloud_app.py:235 | the fallback palette is five distinct well-formed colours |
| Colours.ExtractColours | wordcloud_app.py:193-235 | the fallback palette when there is no comma or when decoding or clustering fails; otherwise one colour per centre, in order, each the formatted clamped centre and parsing back to it |
| Colours.ColourThemes | wordcloud_app.py:57-72 | definition: the keys of `COLOR_THEMES`; used by `Colours.ChooseColormap` and `Colours.UnknownThemeIsViridis` |
| Colours.ChooseColormap | wordcloud_app.py:606-627 | the extracted colours exactly when there are some; otherwise a known theme, which is the requested one exactly when it is known |
| Colours.UnknownThemeIsViridis | wordcloud_app.py:627 | with no colours and an unknown theme the colormap is `'viridis'` |
| Request.Get | wordcloud_app.py:643-651 | definition: `data.get(key, default)` for a key that is missing or present; used by `Request.Validate` |
| Request.HasImage | wordcloud_app.py:657 | definition: `image_data` is present and non-empty; used in `Request.Validate` and `Request.CustomNeedsImage` |
| Request.Side | wordcloud_app.py:661-662 | a positive side is kept and a non-positive side becomes 800 |
| Request.Validate | wordcloud_app.py:643-662 | rejected exactly when the text is all whitespace or the shape is custom without image data, with the blank-text message exactly when the text is blank and the missing-image message otherwise; when accepted the arguments carry the fields or their defaults and a positive canvas |
| Request.Defaults | wordcloud_app.py:643-662 | a body with only text gives a circle on 800 x 400; a non-positive height becomes 800, not 400 |
| Request.CustomNeedsImage | wordcloud_app.py:653-658 | custom with empty image data is rejected even when image colours are asked for; blank text is reported first |
| Request.CommaOnlyText | wordcloud_app.py:240-249 | `,` passes validation, yet its weighting is empty |
| Crop.NonBackground | wordcloud_app.py:692 | definition: the channel sum is below 765; tied to the source's mean test by `Crop.MeanTestExact` |
| Crop.MeanTestExact | wordcloud_app.py:691-692 | `np.mean(pixel) < 255` holds exactly when the channel sum is below 765 |
| Crop.BackgroundIsWhite | wordcloud_app.py:692 | a pixel counts as background exactly when it is pure white |
| Crop.Blank | wordcloud_app.py:692-693 | definition: no pixel is non-white, so `np.any(non_empty)` is false; used by `Crop.BoundingBox` |
| Crop.TightBox | wordcloud_app.py:694-696 | definition: the box lies in the raster, contains every non-white pixel, and each of its four sides touches one, as the `min`/`max` of `np.where` give; used by `Crop.TightBoxUnique` and `Crop.BoundingBox` |
| Crop.TightBoxUnique | wordcloud_app.py:694-696 | the tight bounding box is unique |
| Crop.BoundingBox | wordcloud_app.py:689-696 | no box exactly when no pixel is non-white; otherwise the box lies in the raster, contains every non-white pixel, and each of its sides touches one |
| Crop.CropTo | wordcloud_app.py:699 | a fresh raster of the box's size holding the box's pixels |
| Crop.CropAndRefit | wordcloud_app.py:686-711 | a blank render stays as it is, at the canvas size; otherwise the raster is cut to its tight box and sized by the aspect fit of the cut-out |
| Wordcloud.KindOf | wordcloud_app.py:252-592 | no mask exactly for rectangle, custom without image data, and unknown names; the upload branch exactly for custom with image data |
| Wordcloud.ListedShapes | wordcloud_app.py:252-592 | rectangle and custom without data select no mask, and every other listed shape selects one |
| Wordcloud.MaskRaises | wordcloud_app.py:252-431 | definition: the upload's data has no comma or does not decode, or the ellipse or diamond divides by zero |
| Wordcloud.Occupies | wordcloud_app.py:252-592 | definition: the boolean each branch sets at a cell (upload `< 200`, outline test, triangle slice, pasted template threshold or fallback rectangle) |
| Wordcloud.MaskCell | wordcloud_app.py:597-603 | definition: the branch's cell, encoded as 0/255 and inverted unless the shape is shanghai_map |
| Wordcloud.BranchMask | wordcloud_app.py:255-592 | the branch that sets a mask and does not raise builds a fresh canvas-sized grid equal to `Occupies` at every cell |
| Wordcloud.CreateMask | wordcloud_app.py:252-603 | no mask exactly for the branches that leave it `None`, `Unmodelled` exactly for the floating-point shapes, `Raises` exactly when building the mask raises; otherwise a fresh canvas-sized grid equal to `MaskCell` at every cell |
| Wordcloud.CreateWordcloud | wordcloud_app.py:238-629 | no layout exactly when the shape is a floating-point one or the mask raises; otherwise the term weighting, the canvas, `max_words=100`, `relative_scaling=0.5`, no mask exactly where no branch sets one and else the grid equal to `MaskCell`; for a custom upload asking for colours, the fallback palette when clustering fails, the theme when it yields no centres, and otherwise the formatted clamped centres; for every other request the theme or `'viridis'` |

## Left out

- Flask routing, JSON parsing, base64 and PNG encoding, the figure saving and the `save_to_file` option are I/O. Only the validation and defaulting rules are modelled.
- A JSON value of a type other than the one the code expects is not modelled; `Body` holds every field already at its expected type. In the code `int()` truncates a finite float, takes a bool as 0 or 1, and parses a string holding an integer literal such as `"640"`. Any other string (`"640.5"`, `"1e3"`), an array or object, and an infinite or NaN float (JSON `1e400`, `NaN`) make it raise. A non-string text raises at `text.strip()`, and a `null` body raises at the first `data.get`; each raise ends in a 500 response.
- An explicit JSON `null` for a field is not modelled: `data.get(key, default)` returns `None` for it instead of the default. `"shape": null` then selects no branch and no mask, `"text": null` raises at `text.strip()`, and `"width": null` raises in `int(None)`. In the model `None` stands only for a missing key, which takes the default.
- Font lookup (`get_font_by_name`, `get_chinese_font`) is not part of this model, because it probes the operating system and the filesystem.
- `install_requirements`, `run_app` and `main` are not part of this model: they are process and server start-up.
- Decoders are inputs: the decoded, greyscaled and resized upload; the template's pixel size and its resized grey grid; and the KMeans cluster centres. Pillow's resampling and KMeans fitting are foreign code.
- The layout engine and matplotlib are foreign libraries. The model stops at the arguments passed to `WordCloud(...)` and at the crop's new figure size, and it does not model the second rendering.
- The heart, star, hexagon, pentagon and octagon masks rely on floating-point `arctan2`, `sqrt` and constants. They are left out: `Wordcloud.CreateMask` returns `Unmodelled` for them, and `Wordcloud.CreateWordcloud` gives no layout.
- Float rounding is idealised. The aspect fit, the triangle row width and the shape tests are stated in exact arithmetic, with lemmas tying them to the exact real value of the source expressions. IEEE rounding at exact boundaries is not captured.
- `Colours.Channel`: a NaN centre is not modelled, because the centres are taken as real numbers.
- Templates.Place: treating a zero fitted side as a failure relies on Pillow's `resize` refusing a zero dimension. That behaviour comes from the foreign library and is not shown here.
- `Masks.OutlineMask` requires non-zero divisors on a non-empty canvas. The `ZeroDivisionError` path is modelled one level up, as `Raises` in `Wordcloud.CreateMask`.
- Dictionary insertion order is not modelled: `map` has no order. Order cannot change the layout's ranking, because distinct terms always carry distinct weights (`Terms.WeightsFollowPosition`), so no two entries tie.
- `Colours.ExtractColours` and `Wordcloud.CreateWordcloud` leave the number of cluster centres free, while `KMeans(n_clusters=5)` always yields five. The case of no centres in `Wordcloud.CreateWordcloud`'s contract therefore cannot arise in the code.
- Concurrency is not modelled: each request is handled in isolation.
