/** PSF files: the two headers, glyph bitmaps, and the glyph drawn for a character. */
module Psf {
  import opened Options
  import opened Bits
  import opened Utf8
  import opened Fonts

  datatype FontError = TooShort | Corrupt
  datatype ParseResult = Ok(font: Font) | Err(error: FontError)

  datatype Font = Font(
    data: seq<Byte>, version: int, width: nat, height: nat, bytesPerRow: nat, glyphCount: nat,
    glyphBytes: nat, glyphDataOffset: nat, hasUnicode: bool, unicodeOffset: nat)

  function U32(b: seq<Byte>, at: nat): nat
    requires at + 4 <= |b|
  {
    (b[at] as int) + 0x100 * (b[at + 1] as int) + 0x1_0000 * (b[at + 2] as int) + 0x100_0000 * (b[at + 3] as int)
  }

  function Parse(data: seq<Byte>): ParseResult {
    if |data| < 2 then Err(TooShort)
    else if WordOf(data) == 0x0436 then ParsePsf1(data)
    else if |data| >= 4 && U32(data, 0) == 0x864a_b572 then ParsePsf2(data)
    else Err(Corrupt)
  }

  function ParsePsf1(data: seq<Byte>): ParseResult {
    if |data| < 4 then Err(TooShort)
    else
      var mode, charSize := data[2], data[3];
      var count: nat := if mode % 2 != 0 then 512 else 256;
      var end := 4 + count * charSize;
      if end > |data| then Err(Corrupt)
      else Ok(Font(data, 1, 8, charSize, 1, count, charSize, 4, mode / 2 % 2 != 0, end))
  }

  function ParsePsf2(data: seq<Byte>): ParseResult {
    if |data| < 32 then Err(TooShort)
    else Psf2Font(data, U32(data, 8), U32(data, 12), U32(data, 16), U32(data, 20), U32(data, 24), U32(data, 28))
  }

  function Psf2Font(
    data: seq<Byte>, headerSize: nat, flags: nat, count: nat, glyphBytes: nat, height: nat, width: nat)
    : ParseResult
  {
    if headerSize < 32 || count == 0 || glyphBytes == 0 || height == 0 || width == 0 then Err(Corrupt)
    else
      MulMonotone(0, count, glyphBytes);
      var end := headerSize + count * glyphBytes;
      if end > |data| then Err(Corrupt)
      else Ok(Font(data, 2, width, height, glyphBytes / height, count, glyphBytes, headerSize, flags % 2 != 0, end))
  }

  /** The bitmaps of all glyphs lie inside the data, before the unicode table. */
  predicate WellFormed(f: Font) {
    f.glyphDataOffset + f.glyphCount * f.glyphBytes == f.unicodeOffset <= |f.data|
  }

  lemma GlyphInside(f: Font, index: nat)
    requires WellFormed(f) && index < f.glyphCount
    ensures f.glyphDataOffset + index * f.glyphBytes + f.glyphBytes <= |f.data|
  {
    MulDistributes(f.glyphBytes, f.glyphCount, index);
    MulAtLeast(f.glyphBytes, f.glyphCount - index);
  }

  function Glyph(f: Font, index: nat): Option<seq<Byte>>
    requires WellFormed(f)
  {
    if index >= f.glyphCount then None
    else
      GlyphInside(f, index);
      var start := f.glyphDataOffset + index * f.glyphBytes;
      Some(f.data[start..start + f.glyphBytes])
  }

  /** The last pixel's byte is still inside the glyph. */
  predicate Covers(f: Font) {
    f.width == 0 || f.height == 0 || (f.height - 1) * f.bytesPerRow + (f.width - 1) / 8 < f.glyphBytes
  }

  function RowByte(f: Font, x: nat, y: nat): nat {
    y * f.bytesPerRow + x / 8
  }

  lemma RowByteMonotone(f: Font, x: nat, y: nat)
    requires x < f.width && y < f.height
    ensures RowByte(f, x, y) <= (f.height - 1) * f.bytesPerRow + (f.width - 1) / 8
  {
    MulMonotone(y, f.height - 1, f.bytesPerRow);
  }

  /** Every pixel of every glyph can be read without running past the bitmap exactly when the last one can. */
  lemma CoversExactly(f: Font)
    ensures Covers(f) <==> forall x: nat, y: nat :: x < f.width && y < f.height ==> RowByte(f, x, y) < f.glyphBytes
  {
    if Covers(f) {
      forall x: nat, y: nat | x < f.width && y < f.height ensures RowByte(f, x, y) < f.glyphBytes {
        RowByteMonotone(f, x, y);
      }
    } else {
      var x: nat, y: nat := f.width - 1, f.height - 1;
      assert RowByte(f, x, y) >= f.glyphBytes;
    }
  }

  lemma PixelInside(f: Font, index: nat, x: nat, y: nat)
    requires WellFormed(f) && Covers(f) && index < f.glyphCount && x < f.width && y < f.height
    ensures Glyph(f, index).Some? && RowByte(f, x, y) < f.glyphBytes == |Glyph(f, index).value|
  {
    RowByteMonotone(f, x, y);
    GlyphInside(f, index);
  }

  function GlyphPixel(f: Font, index: nat, x: nat, y: nat): Option<bool>
    requires WellFormed(f) && Covers(f)
  {
    if index >= f.glyphCount || x >= f.width || y >= f.height then None
    else
      PixelInside(f, index, x, y);
      var byte := Glyph(f, index).value[RowByte(f, x, y)];
      Some(byte / Pow2(7 - x % 8) % 2 == 1)
  }

  function Lookup(f: Font, c: nat): Option<nat>
    requires WellFormed(f)
  {
    var table := f.data[f.unicodeOffset..];
    if f.version == 1 then ScanV1(table, 0, f.glyphCount, c) else ScanV2(table, 0, c)
  }

  function GlyphIndexFor(f: Font, c: nat): Option<nat>
    requires WellFormed(f)
  {
    if f.hasUnicode && Lookup(f, c).Some? then Lookup(f, c)
    else if c < f.glyphCount then Some(c)
    else None
  }

  method FindGlyph(f: Font, c: nat) returns (r: Option<nat>)
    requires WellFormed(f)
    ensures r == GlyphIndexFor(f, c)
  {
    if f.hasUnicode {
      var found;
      if f.version == 1 {
        found := UnicodeLookupV1(f.data[f.unicodeOffset..], f.glyphCount, c);
      } else {
        found := UnicodeLookupV2(f.data[f.unicodeOffset..], c);
      }
      if found.Some? {
        return found;
      }
    }
    return if c < f.glyphCount then Some(c) else None;
  }

  lemma LastRowFits(width: nat, height: nat)
    requires width > 0 && height > 0
    ensures (height - 1) * ((width + 7) / 8) + (width - 1) / 8 < height * ((width + 7) / 8)
  {
    MulNext((width + 7) / 8, height - 1);
  }

  lemma WholeRowsCover(f: Font)
    requires f.width > 0 && f.height > 0
    requires f.glyphBytes == f.height * ((f.width + 7) / 8) && f.bytesPerRow == f.glyphBytes / f.height
    ensures Covers(f)
  {
    DivModUnique(f.glyphBytes, f.height, (f.width + 7) / 8, 0);
    LastRowFits(f.width, f.height);
  }

  lemma Psf1Fits(data: seq<Byte>)
    requires ParsePsf1(data).Ok?
    ensures var f := ParsePsf1(data).font; f.version == 1 && WellFormed(f) && Covers(f)
  {
  }

  lemma Psf2Fits(data: seq<Byte>)
    requires ParsePsf2(data).Ok?
    ensures var f := ParsePsf2(data).font;
            && f.version == 2 && WellFormed(f) && f.width > 0 && f.height > 0
            && f.bytesPerRow == f.glyphBytes / f.height
  {
  }

  /**
   * A parsed font is well formed; its pixels can all be read for PSF1, and for PSF2 whenever a glyph has
   * one whole byte row per scan line.
   */
  lemma ParsedFontsFit(data: seq<Byte>)
    requires Parse(data).Ok?
    ensures var f := Parse(data).font;
            && WellFormed(f)
            && (f.version == 1 ==> Covers(f))
            && (f.version == 2 && f.glyphBytes == f.height * ((f.width + 7) / 8) ==> Covers(f))
  {
    var f := Parse(data).font;
    if WordOf(data) == 0x0436 {
      Psf1Fits(data);
    } else {
      Psf2Fits(data);
      if f.glyphBytes == f.height * ((f.width + 7) / 8) { WholeRowsCover(f); }
    }
  }

  /**
   * With a PSF1 table made of one record per glyph, a character gets the least glyph that lists it directly,
   * else the glyph at its own code point, if there is one.
   */
  lemma ResolvedByRecords(f: Font, recs: seq<RecordV1>, rest: seq<Byte>, c: nat)
    requires WellFormed(f) && f.version == 1 && f.hasUnicode && |recs| == f.glyphCount
    requires f.data[f.unicodeOffset..] == TableV1(recs) + rest
    ensures var listed := FindFirst(Direct(recs), c);
            GlyphIndexFor(f, c) == OrDirect(f, listed, c)
  {
    LookupV1Right(recs, rest, 0, f.glyphCount, c);
  }

  /** Without a unicode table a character has the glyph at its own code point, if there is one. */
  lemma DirectWithoutTable(f: Font, c: nat)
    requires WellFormed(f) && !f.hasUnicode
    ensures GlyphIndexFor(f, c) == OrDirect(f, None, c)
    ensures GlyphIndexFor(f, c).Some? <==> c < f.glyphCount
  {
  }

  /** The glyph found in the table, or else the one at the character's own code point, if there is one. */
  function OrDirect(f: Font, found: Option<nat>, c: nat): Option<nat> {
    if found.None? && c < f.glyphCount then Some(c) else found
  }

  /**
   * With a PSF2 table of records, a character gets the least glyph that mentions it at all, else the glyph at
   * its own code point; where no earlier record carries it in a sequence, that is the glyph that lists it.
   */
  lemma ResolvedByRecordsV2(f: Font, recs: seq<RecordV2>, c: nat)
    requires WellFormed(f) && f.version != 1 && f.hasUnicode
    requires f.data[f.unicodeOffset..] == TableV2(recs)
    ensures GlyphIndexFor(f, c) == OrDirect(f, FindFirst(SeenV2(recs), c), c)
    ensures (forall i :: 0 <= i < Before(recs, c) ==> c !in Strays(recs[i].sequences)) ==>
              GlyphIndexFor(f, c) == OrDirect(f, FindFirst(Direct(recs), c), c)
  {
    LookupV2Sees(recs, 0, c);
    LookupV2Exactly(recs, c);
    assert Shift(FindFirst(SeenV2(recs), c), 0) == FindFirst(SeenV2(recs), c);
  }

  // ----- bitmaps -----

  function Bit(b: bool): int {
    if b then 1 else 0
  }

  /** Pixels packed into a number, the leftmost in the highest bit. */
  function Pack(p: seq<bool>): (v: nat)
    ensures v < Pow2(|p|)
  {
    if p == [] then 0 else 2 * Pack(p[..|p| - 1]) + Bit(p[|p| - 1])
  }

  lemma HalveBoth(x: nat, b: nat, d: nat)
    requires b < 2 && d >= 1
    ensures (2 * x + b) / (2 * d) == x / d
  {
    var q, r := x / d, x % d;
    assert 2 * x + b == (2 * d) * q + (2 * r + b) by { assert x == d * q + r; assert 2 * (d * q) == (2 * d) * q; }
    DivModUnique(2 * x + b, 2 * d, q, 2 * r + b);
  }

  lemma BitAbove(x: nat, b: nat, m: nat)
    requires b < 2
    ensures (2 * x + b) / Pow2(m + 1) == x / Pow2(m)
  {
    HalveBoth(x, b, Pow2(m));
  }

  lemma BitAtFoot(x: nat, b: nat)
    requires b < 2
    ensures (2 * x + b) / Pow2(0) % 2 == b
  {
  }

  lemma {:induction false} PackedBit(p: seq<bool>, j: nat)
    requires j < |p|
    ensures Pack(p) / Pow2(|p| - 1 - j) % 2 == Bit(p[j])
  {
    var n := |p| - 1;
    if j < n {
      PackedBit(p[..n], j);
      BitAbove(Pack(p[..n]), Bit(p[n]), n - 1 - j);
    } else {
      BitAtFoot(Pack(p[..n]), Bit(p[n]));
    }
  }

  /** Reading a pixel inverts packing the bitmap, most significant bit first. */
  lemma GlyphPixelUnpacks(f: Font, index: nat, x: nat, y: nat, pixels: seq<bool>)
    requires WellFormed(f) && Covers(f) && index < f.glyphCount && x < f.width && y < f.height
    requires |pixels| == 8 && Holds(f, index, RowByte(f, x, y), Pack(pixels))
    ensures GlyphPixel(f, index, x, y) == Some(pixels[x % 8])
  {
    PixelInside(f, index, x, y);
    PackedBit(pixels, x % 8);
  }

  predicate Holds(f: Font, index: nat, at: nat, byte: int)
    requires WellFormed(f)
  {
    match Glyph(f, index)
    case None => false
    case Some(bytes) => at < |bytes| && bytes[at] == byte
  }
}
