/** The conversion of the boolean mask into the 0/255 grid handed to the
    layout engine: `mask.astype(np.uint8) * 255` for shanghai_map and
    `(~mask).astype(np.uint8) * 255` for every other shape; no mask stays no
    mask. */
module Encoding {
  import opened Text
  import opened Templates

  /** Whether a shape's mask is inverted before encoding. */
  predicate Inverts(shape: string) {
    shape != "shanghai_map"
  }

  /** One cell: the boolean, inverted or not, cast to 0 or 1 and scaled. */
  function EncodeCell(occupied: bool, invert: bool): (v: int)
    ensures v == 0 || v == 255
    ensures v == 255 <==> occupied != invert
  {
    var b := if invert then !occupied else occupied;
    (if b then 1 else 0) * 255
  }

  /** Reading an encoded cell back. */
  function DecodeCell(v: int, invert: bool): bool {
    (v == 255) != invert
  }

  lemma DecodeEncode(occupied: bool, invert: bool)
    ensures DecodeCell(EncodeCell(occupied, invert), invert) == occupied
  {
  }

  /** Encoding is one-to-one for a fixed shape, and the two choices of
      inversion give complementary values. */
  lemma EncodeCellInjective(x: bool, y: bool, invert: bool)
    ensures EncodeCell(x, invert) == EncodeCell(y, invert) <==> x == y
    ensures EncodeCell(x, true) == 255 - EncodeCell(x, false)
  {
  }

  /** The encoding of a whole mask. */
  method EncodeMask(mask: array2<bool>, invert: bool) returns (enc: array2<int>)
    ensures fresh(enc) && enc.Length0 == mask.Length0 && enc.Length1 == mask.Length1
    ensures forall i, j :: 0 <= i < mask.Length0 && 0 <= j < mask.Length1 ==>
      enc[i, j] == EncodeCell(mask[i, j], invert)
  {
    enc := new int[mask.Length0, mask.Length1]((_, _) => 0);
    for i := 0 to mask.Length0
      invariant forall r, c :: 0 <= r < i && 0 <= c < mask.Length1 ==> enc[r, c] == EncodeCell(mask[r, c], invert)
    {
      for j := 0 to mask.Length1
        invariant forall r, c :: 0 <= r < i && 0 <= c < mask.Length1 ==> enc[r, c] == EncodeCell(mask[r, c], invert)
        invariant forall c :: 0 <= c < j ==> enc[i, c] == EncodeCell(mask[i, c], invert)
      {
        enc[i, j] := EncodeCell(mask[i, j], invert);
      }
    }
  }

  /** `if mask is not None:` around the encoding. */
  method EncodeOptionalMask(shape: string, mask: Option<array2<bool>>) returns (enc: Option<array2<int>>)
    ensures enc.None? <==> mask.None?
    ensures enc.Some? ==> (fresh(enc.value)
      && enc.value.Length0 == mask.value.Length0 && enc.value.Length1 == mask.value.Length1
      && forall i, j :: 0 <= i < mask.value.Length0 && 0 <= j < mask.value.Length1 ==>
        enc.value[i, j] == EncodeCell(mask.value[i, j], Inverts(shape)))
  {
    if mask.None? {
      enc := None;
    } else {
      var e := EncodeMask(mask.value, Inverts(shape));
      enc := Some(e);
    }
  }

  /** Inside the pasted block the two templates encode a grey level alike
      (china_map's `< 128` inverted against shanghai_map's `> 128` kept), except
      at grey 128; outside the block, where both masks are False, china_map
      encodes 255 and shanghai_map 0. */
  lemma TemplateEncodings(g: Grey)
    ensures (EncodeCell(Occupied(ChinaMap, g), Inverts("china_map"))
             == EncodeCell(Occupied(ShanghaiMap, g), Inverts("shanghai_map")))
        <==> g != 128
    ensures EncodeCell(false, Inverts("china_map")) == 255 && EncodeCell(false, Inverts("shanghai_map")) == 0
  {
  }

  /** The fallback rectangle is the same boolean grid for both templates, but
      shanghai_map's encoding of it is the complement of china_map's. */
  lemma FallbackEncodingsComplementary(inRectangle: bool)
    ensures EncodeCell(inRectangle, Inverts("shanghai_map")) == 255 - EncodeCell(inRectangle, Inverts("china_map"))
  {
  }
}
