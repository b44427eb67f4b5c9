/** Colour handling: the cluster centres found in an uploaded image become
    `#rrggbb` strings, a fixed palette replaces them when anything fails, and
    the colormap is chosen from the extracted colours, the requested theme
    or `'viridis'`. */
module Colours {
  import opened Text

  type Byte = x: int | 0 <= x < 256

  /** A cluster centre as KMeans reports it: three real channel values. */
  datatype Centroid = Centroid(r: real, g: real, b: real)

  datatype Colour = Colour(r: Byte, g: Byte, b: Byte)

  /** `int(np.clip(x, 0, 255))`: clamping first makes the truncation a floor. */
  function Channel(x: real): (c: Byte)
    ensures x <= 0.0 ==> c == 0
    ensures x >= 255.0 ==> c == 255
    ensures 0.0 <= x < 255.0 ==> c as real <= x < (c + 1) as real
  {
    if x <= 0.0 then 0 else if x >= 255.0 then 255 else x.Floor
  }

  function Clamped(c: Centroid): Colour {
    Colour(Channel(c.r), Channel(c.g), Channel(c.b))
  }

  const Digits := "0123456789abcdef"

  /** A lowercase hexadecimal digit, one of `Digits`. */
  predicate IsHexDigit(c: char) {
    ('0' <= c <= '9') || ('a' <= c <= 'f')
  }

  /** `'{:02x}'.format(n)`: two lowercase hexadecimal digits. */
  function Hex2(n: Byte): string {
    [Digits[n / 16], Digits[n % 16]]
  }

  /** `'#{:02x}{:02x}{:02x}'.format(r, g, b)`. */
  function HexColour(c: Colour): (s: string)
    ensures IsHexColour(s)
  {
    "#" + Hex2(c.r) + Hex2(c.g) + Hex2(c.b)
  }

  /** `#` and six lowercase hexadecimal digits. */
  predicate IsHexColour(s: string) {
    |s| == 7 && s[0] == '#' && forall k :: 1 <= k < 7 ==> IsHexDigit(s[k])
  }

  /** The value of a lowercase hexadecimal digit. */
  function DigitValue(c: char): (v: int)
    requires IsHexDigit(c)
    ensures 0 <= v < 16 && Digits[v] == c
  {
    if '0' <= c <= '9' then c as int - '0' as int else c as int - 'a' as int + 10
  }

  lemma DigitValueOf(n: int)
    requires 0 <= n < 16
    ensures DigitValue(Digits[n]) == n
  {
  }

  function Byte2(hi: char, lo: char): Byte
    requires IsHexDigit(hi) && IsHexDigit(lo)
  {
    16 * DigitValue(hi) + DigitValue(lo)
  }

  /** Reading a `#rrggbb` string back; `None` for anything else. */
  function ParseHexColour(s: string): Option<Colour> {
    if IsHexColour(s) then Some(Colour(Byte2(s[1], s[2]), Byte2(s[3], s[4]), Byte2(s[5], s[6])))
    else None
  }

  lemma Hex2RoundTrip(n: Byte)
    ensures Byte2(Hex2(n)[0], Hex2(n)[1]) == n
  {
    DigitValueOf(n / 16);
    DigitValueOf(n % 16);
  }

  /** Parsing a formatted colour gives back its channels. */
  lemma ParseFormatted(c: Colour)
    ensures ParseHexColour(HexColour(c)) == Some(c)
  {
    var s := HexColour(c);
    Hex2RoundTrip(c.r);
    Hex2RoundTrip(c.g);
    Hex2RoundTrip(c.b);
    assert s[1..3] == Hex2(c.r) && s[3..5] == Hex2(c.g) && s[5..7] == Hex2(c.b);
  }

  lemma Hex2OfByte2(hi: char, lo: char)
    requires IsHexDigit(hi) && IsHexDigit(lo)
    ensures Hex2(Byte2(hi, lo)) == [hi, lo]
  {
    var n := Byte2(hi, lo);
    assert n / 16 == DigitValue(hi) && n % 16 == DigitValue(lo);
  }

  lemma FormatDigits(a: char, b: char, c: char, d: char, e: char, f: char)
    requires IsHexDigit(a) && IsHexDigit(b) && IsHexDigit(c) && IsHexDigit(d) && IsHexDigit(e) && IsHexDigit(f)
    ensures HexColour(Colour(Byte2(a, b), Byte2(c, d), Byte2(e, f))) == ['#', a, b, c, d, e, f]
  {
    Hex2OfByte2(a, b);
    Hex2OfByte2(c, d);
    Hex2OfByte2(e, f);
  }

  /** Formatting a parsed colour gives back the string. */
  lemma FormatParsed(s: string)
    requires ParseHexColour(s).Some?
    ensures HexColour(ParseHexColour(s).value) == s
  {
    assert IsHexDigit(s[1]) && IsHexDigit(s[2]) && IsHexDigit(s[3]);
    assert IsHexDigit(s[4]) && IsHexDigit(s[5]) && IsHexDigit(s[6]);
    FormatDigits(s[1], s[2], s[3], s[4], s[5], s[6]);
    assert s == ['#', s[1], s[2], s[3], s[4], s[5], s[6]];
  }

  /** The loop over the cluster centres that appends to `hex_colors`. */
  method HexColours(centroids: seq<Centroid>) returns (hex: seq<string>)
    ensures |hex| == |centroids|
    ensures forall k :: 0 <= k < |hex| ==> hex[k] == HexColour(Clamped(centroids[k]))
  {
    hex := [];
    for i := 0 to |centroids|
      invariant |hex| == i
      invariant forall k :: 0 <= k < i ==> hex[k] == HexColour(Clamped(centroids[k]))
    {
      hex := hex + [HexColour(Clamped(centroids[i]))];
    }
  }

  /** The colours returned when extraction raises. */
  const FallbackPalette: seq<string> := ["#1f77b4", "#ff7f0e", "#2ca02c", "#d62728", "#9467bd"]

  /** The fallback palette has five distinct well-formed colours. */
  lemma FallbackPaletteWellFormed()
    ensures |FallbackPalette| == 5
    ensures forall k :: 0 <= k < 5 ==> IsHexColour(FallbackPalette[k])
    ensures forall k, m :: 0 <= k < m < 5 ==> FallbackPalette[k] != FallbackPalette[m]
  {
    assert FallbackPalette[0][1] != FallbackPalette[1][1];
    assert FallbackPalette[0][1] != FallbackPalette[2][1];
    assert FallbackPalette[0][1] != FallbackPalette[3][1];
    assert FallbackPalette[0][1] != FallbackPalette[4][1];
    assert FallbackPalette[1][1] != FallbackPalette[2][1];
    assert FallbackPalette[1][1] != FallbackPalette[3][1];
    assert FallbackPalette[1][1] != FallbackPalette[4][1];
    assert FallbackPalette[2][1] != FallbackPalette[3][1];
    assert FallbackPalette[2][1] != FallbackPalette[4][1];
    assert FallbackPalette[3][1] != FallbackPalette[4][1];
  }

  /** `extract_colors_from_image`. `cluster` stands for the decoding, the
      resize to 150 x 150 and KMeans with five clusters; `None` is anything
      in them that raises. The prefix strip raising `IndexError` is caught by
      the same `except`. */
  method ExtractColours(imageData: string, cluster: string -> Option<seq<Centroid>>) returns (hex: seq<string>)
    ensures ',' !in imageData ==> hex == FallbackPalette
    ensures ',' in imageData && cluster(StripDataUrlPrefix(imageData).value).None? ==> hex == FallbackPalette
    ensures ',' in imageData && cluster(StripDataUrlPrefix(imageData).value).Some? ==>
      var cs := cluster(StripDataUrlPrefix(imageData).value).value;
      |hex| == |cs| && forall k :: 0 <= k < |cs| ==>
        hex[k] == HexColour(Clamped(cs[k])) && ParseHexColour(hex[k]) == Some(Clamped(cs[k]))
  {
    var payload := StripDataUrlPrefix(imageData);
    if payload.None? {
      return FallbackPalette;
    }
    var centres := cluster(payload.value);
    if centres.None? {
      return FallbackPalette;
    }
    hex := HexColours(centres.value);
    forall k | 0 <= k < |hex| ensures ParseHexColour(hex[k]) == Some(Clamped(centres.value[k])) {
      ParseFormatted(Clamped(centres.value[k]));
    }
  }

  /** The themes the app knows. */
  const ColourThemes: seq<string> := ["viridis", "plasma", "inferno", "magma", "cividis", "twilight",
    "rainbow", "ocean", "sunset", "forest", "fire", "pastel", "dark", "neon"]

  const DefaultTheme := "viridis"

  datatype Colormap = Listed(colours: seq<string>) | Named(name: string)

  /** `ListedColormap(colors)` when colours were extracted and the list is
      non-empty, otherwise the theme if it is known, otherwise `'viridis'`. */
  function ChooseColormap(colours: Option<seq<string>>, theme: string): (m: Colormap)
    ensures m.Listed? <==> colours.Some? && |colours.value| > 0
    ensures m.Listed? ==> m.colours == colours.value
    ensures m.Named? ==> m.name in ColourThemes
    ensures m.Named? ==> (m.name == theme <==> theme in ColourThemes)
  {
    if colours.Some? && |colours.value| > 0 then Listed(colours.value)
    else if theme in ColourThemes then Named(theme)
    else Named(DefaultTheme)
  }

  /** An unknown theme and no colours give `'viridis'`. */
  lemma UnknownThemeIsViridis(colours: Option<seq<string>>, theme: string)
    requires colours.None? || colours.value == []
    requires theme !in ColourThemes
    ensures ChooseColormap(colours, theme) == Named("viridis")
  {
  }
}
