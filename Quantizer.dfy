/**
  The quantizer `pixel_to_ascii`: it clamps a luminance sample to 0..255,
  takes bucket `v * 12 // 256` of the 12-glyph palette, caps the bucket at
  the last index and returns that glyph.  Index 0 is the densest glyph.
 */
module Quantizer {

  /** `ASCII_CHARS`, ordered from the densest glyph to the lightest. */
  const AsciiChars: seq<char> := ['@', '#', 'S', '%', '?', '*', '+', ';', ':', ',', '.', ' ']

  /**
    `max(0, min(255, v))`: a sample in 0..255 is kept as it is, and a sample
    outside that range is moved to the nearer end of it.
   */
  function Clamp(v: int): (c: int)
    ensures 0 <= c <= 255
    ensures c == v <==> 0 <= v <= 255
    ensures v < 0 ==> c == 0
    ensures v > 255 ==> c == 255
  {
    if v < 0 then 0 else if v > 255 then 255 else v
  }

  /** The palette has 12 different glyphs, from the densest '@' to the lightest ' '. */
  lemma PaletteGlyphs()
    ensures |AsciiChars| == 12 && AsciiChars[0] == '@' && AsciiChars[11] == ' '
    ensures forall i, j :: 0 <= i < j < |AsciiChars| ==> AsciiChars[i] != AsciiChars[j]
  {
  }

  /**
    The palette index the quantizer looks up: the bucket of the clamped
    sample, capped at the last index.  It is always a valid index.  The
    literal 12 is the palette's length, `len(ASCII_CHARS)`.
   */
  function GlyphIndex(v: int): (i: nat)
    ensures i < |AsciiChars|
  {
    var bucket := Clamp(v) * 12 / 256;
    if bucket < 11 then bucket else 11
  }

  /** `pixel_to_ascii`: the glyph of a luminance sample, always a printable ASCII character. */
  function PixelToAscii(v: int): (c: char)
    ensures ' ' <= c <= '~'
  {
    AsciiChars[GlyphIndex(v)]
  }

  /** Every glyph the quantizer returns is one of the palette's. */
  lemma GlyphInPalette(v: int)
    ensures PixelToAscii(v) in AsciiChars
  {
    assert AsciiChars[GlyphIndex(v)] in AsciiChars;
  }

  /** Samples below the range are treated as 0, samples above it as 255. */
  lemma OutOfRangeIsClamped(v: int)
    ensures v < 0 ==> GlyphIndex(v) == GlyphIndex(0) && PixelToAscii(v) == '@'
    ensures v > 255 ==> GlyphIndex(v) == GlyphIndex(255) && PixelToAscii(v) == ' '
  {
  }

  /**
    Inside the range the index is the bucket `v * 12 div 256` capped at 11;
    black gives the densest glyph and white the lightest.
   */
  lemma InRangeIndex(v: int)
    requires 0 <= v <= 255
    ensures GlyphIndex(v) == if v * 12 / 256 < 11 then v * 12 / 256 else 11
    ensures PixelToAscii(0) == '@' && PixelToAscii(255) == ' '
  {
  }

  /**
    The cap at the last index never takes effect: even 255 falls in
    bucket 11, because `255 * 12 div 256` is 11.
   */
  lemma CapNeverApplies(v: int)
    ensures GlyphIndex(v) == Clamp(v) * |AsciiChars| / 256
  {
  }

  /**
    Bucket `k` holds exactly the clamped samples `c` with
    `256 * k <= 12 * c < 256 * (k + 1)`.
   */
  lemma BucketBounds(v: int, k: nat)
    requires k < |AsciiChars|
    ensures GlyphIndex(v) == k <==> 256 * k <= 12 * Clamp(v) < 256 * (k + 1)
  {
    var c := Clamp(v);
    var q := c * 12 / 256;
    assert q * 256 <= 12 * c < (q + 1) * 256;
  }

  /** A lighter sample never gets a denser glyph. */
  lemma Monotone(v1: int, v2: int)
    requires v1 <= v2
    ensures GlyphIndex(v1) <= GlyphIndex(v2)
  {
    var c1, c2 := Clamp(v1), Clamp(v2);
    assert c1 <= c2;
  }

  /** The first sample of bucket `k`: `ceil(256 * k / 12)`. */
  function BucketStart(k: nat): (v: int)
    requires k < |AsciiChars|
    ensures 0 <= v <= 255
    ensures GlyphIndex(v) == k
    ensures v > 0 ==> GlyphIndex(v - 1) == k - 1
  {
    var v := (256 * k + 11) / 12;
    BucketBounds(v, k);
    if v == 0 then v else BucketBounds(v - 1, k - 1); v
  }

  /** Every glyph of the palette is produced by some sample in 0..255. */
  lemma EveryGlyphIsUsed(k: nat)
    requires k < |AsciiChars|
    ensures exists v :: 0 <= v <= 255 && PixelToAscii(v) == AsciiChars[k]
  {
    var v := BucketStart(k);
    assert PixelToAscii(v) == AsciiChars[k];
  }
}
