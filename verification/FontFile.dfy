/** Building PSF files from bitmaps: parsing gives the geometry back, and every pixel reads as it was packed. */
module FontFiles {
  import opened Options
  import opened Bits
  import opened Fonts
  import opened Psf

  /** Whether a pixel of a glyph is set: glyph, column, row. */
  type Bitmap = (nat, nat, nat) -> bool

  const U32_LIMIT := 0x1_0000_0000

  /** Eight pixels of a row from column `8 * b` on; those past the width are clear. */
  function Eight(bits: Bitmap, width: nat, g: nat, b: nat, y: nat): (row: seq<bool>)
    ensures |row| == 8
  {
    seq(8, i requires 0 <= i < 8 => 8 * b + i < width && bits(g, 8 * b + i, y))
  }

  function RowBytes(width: nat): nat {
    (width + 7) / 8
  }

  function PackByte(p: seq<bool>): Byte
    requires |p| == 8
  {
    EightBits();
    Pack(p)
  }

  lemma EightBits()
    ensures Pow2(8) == 256
  {
    Pow2OfBytes();
  }

  /** The glyphs' rows one after the other, each in whole bytes. */
  function Bitmaps(bits: Bitmap, width: nat, height: nat, count: nat): (data: seq<Byte>)
    requires width > 0 && height > 0
    ensures |data| == count * height * RowBytes(width)
    ensures forall j :: 0 <= j < |data| ==> data[j] == ByteNumber(bits, width, height, j)
  {
    seq(DataSize(count, height, RowBytes(width)), j requires j >= 0 => ByteNumber(bits, width, height, j))
  }

  function DataSize(count: nat, height: nat, rb: nat): (size: nat)
    ensures size == count * height * rb
  {
    MulMonotone(0, count, height);
    MulMonotone(0, count * height, rb);
    count * height * rb
  }

  /** Byte `j` of the bitmaps: rows follow each other, and glyphs follow each other. */
  function ByteNumber(bits: Bitmap, width: nat, height: nat, j: nat): Byte
    requires width > 0 && height > 0
  {
    var row, b := j / RowBytes(width), j % RowBytes(width);
    PackByte(Eight(bits, width, row / height, b, row % height))
  }

  /** Where the byte of glyph `g`, row `y`, byte `b` stands among the bitmaps. */
  lemma PlaceOf(g: nat, y: nat, b: nat, count: nat, height: nat, rb: nat)
    requires g < count && y < height && b < rb
    ensures var j := g * (height * rb) + y * rb + b;
            && 0 <= j < count * height * rb
            && j / rb / height == g && j / rb % height == y && j % rb == b
  {
    var row := g * height + y;
    assert g * (height * rb) == g * height * rb;
    assert row * rb == g * height * rb + y * rb;
    DivModUnique(row * rb + b, rb, row, b);
    DivModUnique(row, height, g, y);
    MulMonotone(g + 1, count, height);
    MulMonotone(0, g, height);
    MulMonotone(row + 1, count * height, rb);
    MulMonotone(0, row, rb);
  }

  lemma BitmapByte(bits: Bitmap, width: nat, height: nat, count: nat, g: nat, y: nat, b: nat)
    requires g < count && y < height && b < RowBytes(width) && width > 0
    ensures var j := g * (height * RowBytes(width)) + y * RowBytes(width) + b;
            && 0 <= j < |Bitmaps(bits, width, height, count)|
            && Bitmaps(bits, width, height, count)[j] == Pack(Eight(bits, width, g, b, y))
  {
    PlaceOf(g, y, b, count, height, RowBytes(width));
  }

  /** Where a glyph's byte stands in the file, and that it lies inside. */
  lemma HeldByte(f: Font, g: nat, at: nat, p: nat, byte: Byte)
    requires WellFormed(f) && g < f.glyphCount && at < f.glyphBytes
    requires p == f.glyphDataOffset + g * f.glyphBytes + at && (p < |f.data| ==> f.data[p] == byte)
    ensures Holds(f, g, at, byte)
  {
    GlyphInside(f, g);
  }

  /** A font over such bitmaps reads every pixel as it was packed. */
  lemma PixelsReadBack(f: Font, bits: Bitmap, before: seq<Byte>, after: seq<Byte>, g: nat, x: nat, y: nat)
    requires f.width > 0 && f.height > 0 && WellFormed(f) && Covers(f)
    requires f.data == before + Bitmaps(bits, f.width, f.height, f.glyphCount) + after
    requires f.glyphDataOffset == |before| && f.bytesPerRow == RowBytes(f.width)
    requires f.glyphBytes == f.height * RowBytes(f.width)
    requires g < f.glyphCount && x < f.width && y < f.height
    ensures GlyphPixel(f, g, x, y) == Some(bits(g, x, y))
  {
    var row := Eight(bits, f.width, g, x / 8, y);
    assert Holds(f, g, RowByte(f, x, y), Pack(row)) by {
      BitmapByte(bits, f.width, f.height, f.glyphCount, g, y, x / 8);
      PixelInside(f, g, x, y);
      HeldByte(f, g, RowByte(f, x, y), |before| + g * f.glyphBytes + RowByte(f, x, y), PackByte(row));
    }
    GlyphPixelUnpacks(f, g, x, y, row);
    assert row[x % 8] == bits(g, x, y) by { assert 8 * (x / 8) + x % 8 == x; }
  }

  // ----- PSF2 -----

  function Le32(v: nat): (b: seq<Byte>)
    ensures |b| == 4
  {
    [v % 0x100, v / 0x100 % 0x100, v / 0x1_0000 % 0x100, v / 0x100_0000 % 0x100]
  }

  /** The fields of a PSF2 header, and what stands between it and the bitmaps. */
  datatype Psf2Spec = Psf2Spec(flags: nat, count: nat, height: nat, width: nat, extra: seq<Byte>) {
    predicate Ok() {
      && flags < U32_LIMIT && 0 < count < U32_LIMIT && 0 < height < U32_LIMIT && 0 < width < U32_LIMIT
      && 32 + |extra| < U32_LIMIT && GlyphBytes() < U32_LIMIT
    }

    function GlyphBytes(): nat {
      MulMonotone(0, height, RowBytes(width));
      height * RowBytes(width)
    }
  }

  /** Words one after the other, each lowest byte first. */
  function Words(ws: seq<nat>): (b: seq<Byte>)
    ensures |b| == 4 * |ws|
  {
    if ws == [] then [] else Le32(ws[0]) + Words(ws[1..])
  }

  /** Magic, version, header size and the five fields. */
  function HeaderWords(h: Psf2Spec): seq<nat> {
    [0x864a_b572, 0, 32 + |h.extra|, h.flags, h.count, h.GlyphBytes(), h.height, h.width]
  }

  function Psf2Header(h: Psf2Spec): (b: seq<Byte>)
    ensures |b| == 32
  {
    Words(HeaderWords(h))
  }

  function Psf2File(h: Psf2Spec, bits: Bitmap, table: seq<Byte>): seq<Byte>
    requires h.width > 0 && h.height > 0
  {
    Psf2Header(h) + h.extra + Bitmaps(bits, h.width, h.height, h.count) + table
  }

  predicate HeaderSays(data: seq<Byte>, h: Psf2Spec) {
    && |data| >= 32 && U32(data, 0) == 0x864a_b572 && U32(data, 8) == 32 + |h.extra|
    && U32(data, 12) == h.flags && U32(data, 16) == h.count && U32(data, 20) == h.GlyphBytes()
    && U32(data, 24) == h.height && U32(data, 28) == h.width
  }

  lemma HeaderReads(h: Psf2Spec, rest: seq<Byte>)
    requires h.Ok()
    ensures HeaderSays(Psf2Header(h) + rest, h)
  {
    var ws := HeaderWords(h);
    forall i: nat | i < 8 ensures U32(Words(ws) + rest, 4 * i) == ws[i] { WordReads(ws, rest, i); }
    var d := Words(ws) + rest;
    assert U32(d, 4 * 0) == ws[0] && U32(d, 4 * 2) == ws[2] && U32(d, 4 * 3) == ws[3];
    assert U32(d, 4 * 4) == ws[4] && U32(d, 4 * 5) == ws[5] && U32(d, 4 * 6) == ws[6] && U32(d, 4 * 7) == ws[7];
  }

  lemma {:induction false} WordReads(ws: seq<nat>, rest: seq<Byte>, i: nat)
    requires i < |ws| && ws[i] < U32_LIMIT
    ensures U32(Words(ws) + rest, 4 * i) == ws[i]
  {
    var d, tail := Words(ws) + rest, Words(ws[1..]) + rest;
    assert d == Le32(ws[0]) + tail;
    if i == 0 {
      FourDigits(ws[0]);
    } else {
      WordReads(ws[1..], rest, i - 1);
      assert U32(d, 4 * i) == U32(tail, 4 * (i - 1));
    }
  }

  lemma FourDigits(v: nat)
    requires v < U32_LIMIT
    ensures v % 0x100 + 0x100 * (v / 0x100 % 0x100) + 0x1_0000 * (v / 0x1_0000 % 0x100)
          + 0x100_0000 * (v / 0x100_0000 % 0x100) == v
  {
  }

  lemma MagicLow(data: seq<Byte>)
    requires |data| >= 4 && U32(data, 0) == 0x864a_b572
    ensures WordOf(data) == 0xb572
  {
  }

  lemma ParsesPsf2(data: seq<Byte>, h: Psf2Spec, end: nat)
    requires h.Ok() && HeaderSays(data, h)
    requires 32 + |h.extra| + h.count * h.GlyphBytes() == end <= |data|
    ensures Parse(data)
         == ParseResult.Ok(Font(data, 2, h.width, h.height, RowBytes(h.width), h.count, h.GlyphBytes(), 32 + |h.extra|,
                                h.flags % 2 != 0, end))
  {
    MagicLow(data);
    MulMonotone(1, h.height, RowBytes(h.width));
    DivModUnique(h.GlyphBytes(), h.height, RowBytes(h.width), 0);
  }

  /** The font that parsing a PSF2 file gives. */
  function Psf2Of(h: Psf2Spec, bits: Bitmap, table: seq<Byte>): Font
    requires h.width > 0 && h.height > 0
  {
    Font(Psf2File(h, bits, table), 2, h.width, h.height, RowBytes(h.width), h.count, h.GlyphBytes(), 32 + |h.extra|,
         h.flags % 2 != 0, 32 + |h.extra| + |Bitmaps(bits, h.width, h.height, h.count)|)
  }

  lemma SizesAgree(count: nat, height: nat, rb: nat)
    ensures count * height * rb == count * (height * rb)
  {
  }

  lemma Psf2Parsed(h: Psf2Spec, bits: Bitmap, table: seq<Byte>)
    requires h.Ok()
    ensures Parse(Psf2File(h, bits, table)) == ParseResult.Ok(Psf2Of(h, bits, table))
  {
    var pixels, data := Bitmaps(bits, h.width, h.height, h.count), Psf2File(h, bits, table);
    assert data == Psf2Header(h) + (h.extra + pixels + table);
    HeaderReads(h, h.extra + pixels + table);
    SizesAgree(h.count, h.height, RowBytes(h.width));
    ParsesPsf2(data, h, 32 + |h.extra| + |pixels|);
  }

  lemma Psf2Fitting(h: Psf2Spec, bits: Bitmap, table: seq<Byte>)
    requires h.Ok()
    ensures var f := Psf2Of(h, bits, table); WellFormed(f) && Covers(f) && f.data[f.unicodeOffset..] == table
  {
    Psf2Parsed(h, bits, table);
    ParsedFontsFit(Psf2File(h, bits, table));
  }

  /** Parsing a PSF2 file gives back its geometry, its table and every pixel. */
  lemma Psf2RoundTrip(h: Psf2Spec, bits: Bitmap, table: seq<Byte>)
    requires h.Ok()
    ensures var r := Parse(Psf2File(h, bits, table));
            && r.Ok?
            && var f := r.font;
               && WellFormed(f) && Covers(f) && f.version == 2
               && f.width == h.width && f.height == h.height && f.glyphCount == h.count
               && f.hasUnicode == (h.flags % 2 == 1) && f.data[f.unicodeOffset..] == table
               && forall g: nat, x: nat, y: nat :: g < h.count && x < h.width && y < h.height ==>
                    GlyphPixel(f, g, x, y) == Some(bits(g, x, y))
  {
    var f := Psf2Of(h, bits, table);
    Psf2Parsed(h, bits, table);
    Psf2Fitting(h, bits, table);
    forall g: nat, x: nat, y: nat | g < h.count && x < h.width && y < h.height
      ensures GlyphPixel(f, g, x, y) == Some(bits(g, x, y))
    {
      PixelsReadBack(f, bits, Psf2Header(h) + h.extra, table, g, x, y);
    }
  }

  // ----- PSF1 -----

  /** Magic, mode and the byte size of a glyph, which is its height: the glyphs are 8 pixels wide. */
  function Psf1File(large: bool, unicode: bool, height: nat, bits: Bitmap, table: seq<Byte>): seq<Byte>
    requires 0 < height < 0x100
  {
    var mode := (if large then 1 else 0) + (if unicode then 2 else 0);
    [0x36, 0x04, mode, height] + Bitmaps(bits, 8, height, if large then 512 else 256) + table
  }

  /** Parsing a PSF1 file gives back its geometry, its table and every pixel. */
  lemma Psf1RoundTrip(large: bool, unicode: bool, height: nat, bits: Bitmap, table: seq<Byte>)
    requires 0 < height < 0x100
    ensures var r := Parse(Psf1File(large, unicode, height, bits, table));
            && r.Ok?
            && var f := r.font;
               && WellFormed(f) && Covers(f) && f.version == 1
               && f.width == 8 && f.height == height && f.glyphCount == (if large then 512 else 256)
               && f.hasUnicode == unicode && f.data[f.unicodeOffset..] == table
               && forall g: nat, x: nat, y: nat :: g < f.glyphCount && x < 8 && y < height ==>
                    GlyphPixel(f, g, x, y) == Some(bits(g, x, y))
  {
    var mode: Byte := (if large then 1 else 0) + (if unicode then 2 else 0);
    var count := if large then 512 else 256;
    var header, pixels := [0x36, 0x04, mode, height as Byte], Bitmaps(bits, 8, height, count);
    var data := Psf1File(large, unicode, height, bits, table);
    assert data == header + pixels + table;
    assert WordOf(data) == 0x0436;
    assert RowBytes(8) == 1;
    ParsedFontsFit(data);
    var f := Parse(data).font;
    assert f.unicodeOffset == |header| + |pixels|;
    assert data[f.unicodeOffset..] == table;
    forall g: nat, x: nat, y: nat | g < count && x < 8 && y < height
      ensures GlyphPixel(f, g, x, y) == Some(bits(g, x, y))
    {
      PixelsReadBack(f, bits, header, table, g, x, y);
    }
  }

  // ----- which files parse -----

  /** A PSF1 file: magic, mode, glyph size, and bitmaps for all of its 256 or 512 glyphs. */
  predicate IsPsf1(d: seq<Byte>) {
    && |d| >= 4 && d[0] == 0x36 && d[1] == 0x04
    && |d| >= 4 + d[3] as int * (if d[2] % 2 == 1 then 512 else 256)
  }

  /** A PSF2 file: magic, a header of at least 32 bytes, no empty dimension, and bitmaps for all glyphs. */
  predicate IsPsf2(d: seq<Byte>) {
    && |d| >= 32 && d[..4] == [0x72, 0xb5, 0x4a, 0x86]
    && U32(d, 8) >= 32 && U32(d, 16) > 0 && U32(d, 20) > 0 && U32(d, 24) > 0 && U32(d, 28) > 0
    && |d| >= U32(d, 8) + U32(d, 16) * U32(d, 20)
  }

  /** Exactly these parse; anything shorter than the header of its kind is too short, the rest is corrupt. */
  lemma ParsesExactly(d: seq<Byte>)
    ensures Parse(d).Ok? <==> IsPsf1(d) || IsPsf2(d)
    ensures Parse(d) == Err(TooShort) <==>
            || |d| < 2
            || (d[0] == 0x36 && d[1] == 0x04 && |d| < 4)
            || (4 <= |d| < 32 && d[..4] == [0x72, 0xb5, 0x4a, 0x86])
  {
    if |d| >= 4 { Magic(d); }
  }

  lemma Magic(d: seq<Byte>)
    requires |d| >= 4
    ensures U32(d, 0) == 0x864a_b572 <==> d[..4] == [0x72, 0xb5, 0x4a, 0x86]
  {
    if U32(d, 0) == 0x864a_b572 {
      assert d[0] == 0x72 && d[1] == 0xb5 && d[2] == 0x4a && d[3] == 0x86;
    }
  }
}
