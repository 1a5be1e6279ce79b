/** The framebuffer object: bytes in memory that behave as a map from pixels to words. */
module Surface {
  import opened Bits
  import opened BitFields
  import opened Options
  import opened Pixels

  function Offset(l: Layout, x: int, y: int): int {
    y * l.pitch + x * l.PixelBytes()
  }

  predicate InSurface(l: Layout, x: int, y: int) {
    0 <= x < l.width && 0 <= y < l.height
  }

  /** Cells of `n` bytes in rows of `pitch` bytes: a cell ends within its row, and rows follow each other. */
  lemma RowMajor(x: int, y: int, w: int, h: int, n: int, pitch: int)
    requires 0 <= x < w && 0 <= y < h && n >= 0 && w * n <= pitch
    ensures 0 <= y * pitch && 0 <= x * n && x * n + n <= pitch
    ensures y * pitch + x * n + n <= (y + 1) * pitch <= h * pitch
  {
    MulMonotone(0, y, pitch);
    MulMonotone(0, x, n);
    MulMonotone(x + 1, w, n);
    MulMonotone(y + 1, h, pitch);
  }

  /** Distinct cells do not overlap. */
  lemma CellsApart(x: int, y: int, x': int, y': int, w: int, h: int, n: int, pitch: int)
    requires 0 <= x < w && 0 <= y < h && 0 <= x' < w && 0 <= y' < h && n >= 0 && w * n <= pitch
    requires (x, y) != (x', y')
    ensures y * pitch + x * n + n <= y' * pitch + x' * n || y' * pitch + x' * n + n <= y * pitch + x * n
  {
    RowMajor(x, y, w, h, n, pitch);
    RowMajor(x', y', w, h, n, pitch);
    if y < y' { MulMonotone(y + 1, y', pitch); }
    else if y' < y { MulMonotone(y' + 1, y, pitch); }
    else if x < x' { MulMonotone(x + 1, x', n); }
    else { MulMonotone(x' + 1, x, n); }
  }

  /** A pixel's bytes lie inside the surface. */
  lemma OffsetInside(l: Layout, x: int, y: int)
    requires Accepts(l) && InSurface(l, x, y)
    ensures 0 <= Offset(l, x, y) && Offset(l, x, y) + l.PixelBytes() <= l.pitch * l.height
  {
    RowMajor(x, y, l.width, l.height, l.PixelBytes(), l.pitch);
  }

  /** Distinct pixels own disjoint byte ranges. */
  lemma OffsetsApart(l: Layout, x: int, y: int, x': int, y': int)
    requires Accepts(l) && InSurface(l, x, y) && InSurface(l, x', y') && (x, y) != (x', y')
    ensures Offset(l, x, y) + l.PixelBytes() <= Offset(l, x', y')
         || Offset(l, x', y') + l.PixelBytes() <= Offset(l, x, y)
  {
    CellsApart(x, y, x', y', l.width, l.height, l.PixelBytes(), l.pitch);
  }

  function Slice(s: seq<Byte>, at: int, n: nat): seq<Byte> {
    if 0 <= at && at + n <= |s| then s[at..at + n] else []
  }

  function PixelAt(s: seq<Byte>, l: Layout, x: int, y: int): nat {
    Assemble(Slice(s, Offset(l, x, y), l.PixelBytes()))
  }

  /** Whether byte `i` belongs to a pixel. */
  predicate Owns(l: Layout, x: int, y: int, i: int) {
    Offset(l, x, y) <= i < Offset(l, x, y) + l.PixelBytes()
  }

  /** A byte of padding, between the last pixel of a row and the next row. */
  ghost predicate Unowned(l: Layout, i: int) {
    forall x, y :: InSurface(l, x, y) ==> !Owns(l, x, y, i)
  }

  /** What the bytes of a surface show, pixel by pixel. */
  ghost function View(s: seq<Byte>, l: Layout): (m: map<(int, int), nat>)
    ensures forall x, y :: (x, y) in m <==> InSurface(l, x, y)
    ensures forall x, y :: (x, y) in m ==> m[(x, y)] == PixelAt(s, l, x, y)
  {
    map x: int, y: int | 0 <= x < l.width && 0 <= y < l.height :: (x, y) := PixelAt(s, l, x, y)
  }

  /** The bytes show the pixels of a map, and nothing but pixels has changed since the surface was captured. */
  ghost predicate Represents(l: Layout, pix: map<(int, int), nat>, s: seq<Byte>, captured: seq<Byte>) {
    && |s| == l.pitch * l.height == |captured|
    && (forall x, y :: (x, y) in pix <==> InSurface(l, x, y))
    && (forall x, y :: (x, y) in pix ==> pix[(x, y)] == PixelAt(s, l, x, y))
    && (forall i :: 0 <= i < |s| && Unowned(l, i) ==> s[i] == captured[i])
  }

  class FrameBuffer {
    const bytes: array<Byte>
    const layout: Layout
    /** What a reader of each pixel sees. */
    ghost var pix: map<(int, int), nat>
    /** The surface as it was captured; bytes that belong to no pixel never change. */
    ghost const captured: seq<Byte>

    ghost predicate Valid()
      reads this, bytes
    {
      Accepts(layout) && Represents(layout, pix, bytes[..], captured)
    }

    constructor (surface: array<Byte>, l: Layout)
      requires Accepts(l) && surface.Length == l.pitch * l.height
      ensures Valid() && layout == l && bytes == surface && captured == surface[..]
    {
      bytes, layout, captured := surface, l, surface[..];
      pix := View(surface[..], l);
    }

    /** The store itself: one wide store for 8, 4 and 2 bytes, byte by byte otherwise. */
    method StoreBytes(at: nat, n: nat, pixel: nat)
      requires at + n <= bytes.Length
      modifies bytes
      ensures bytes[..] == Stored(old(bytes[..]), at, LeBytes(pixel, n))
    {
      if n == 8 || n == 4 || n == 2 {
        forall i | 0 <= i < n {
          bytes[at + i] := ByteOf(pixel, i);
        }
      } else {
        for i := 0 to n
          invariant forall j :: 0 <= j < i ==> bytes[at + j] == ByteOf(pixel, j)
          invariant forall j :: 0 <= j < bytes.Length && !(at <= j < at + i) ==> bytes[j] == old(bytes[j])
        {
          bytes[at + i] := ByteOf(pixel, i);
        }
      }
    }

    method WriteUnchecked(x: nat, y: nat, pixel: nat)
      requires Valid() && InSurface(layout, x, y)
      modifies this`pix, bytes
      ensures Valid()
      ensures pix == old(pix)[(x, y) := Low(pixel, 8 * layout.PixelBytes())]
      ensures LowestFirst(bytes[..], y * layout.pitch + x * (layout.bpp / 8), layout.bpp / 8, pixel)
    {
      OffsetInside(layout, x, y);
      StoredLowestFirst(bytes[..], Offset(layout, x, y), layout.PixelBytes(), pixel);
      var n := layout.PixelBytes();
      var at := Offset(layout, x, y);
      StoreRepresents(layout, pix, bytes[..], captured, x, y, pixel);
      StoreBytes(at, n, pixel);
      pix := pix[(x, y) := Low(pixel, 8 * n)];
    }

    /** One entry of the pixel map takes the word, as far as a pixel is wide; outside the surface none does. */
    method WriteWord(x: nat, y: nat, word: nat) returns (ok: bool)
      requires Valid()
      modifies this`pix, bytes
      ensures Valid()
      ensures ok == InSurface(layout, x, y)
      ensures pix == if ok then old(pix)[(x, y) := Low(word, 8 * layout.PixelBytes())] else old(pix)
    {
      if x >= layout.width || y >= layout.height {
        return false;
      }
      WriteUnchecked(x, y, word);
      return true;
    }

    /** The map takes the colour on the whole rectangle, or, if any of it is outside, nowhere. */
    method FillRect(x: nat, y: nat, w: nat, h: nat, color: Rgb) returns (ok: bool)
      requires Valid()
      modifies this`pix, bytes
      ensures Valid()
      ensures ok == (w != 0 && h != 0 && x + w <= layout.width && y + h <= layout.height)
      ensures pix == if ok then Filled(old(pix), x, y, w, h, Encode(layout, color)) else old(pix)
    {
      if w == 0 || h == 0 || x + w > layout.width || y + h > layout.height {
        return false;
      }
      var pixel := Encode(layout, color);
      WordFits(layout, color);
      FilledNothing(pix, x, y, w, 0, pixel);
      for dy := 0 to h
        invariant Valid()
        invariant pix == Filled(old(pix), x, y, w, dy, pixel)
      {
        FilledRow(old(pix), x, y, w, dy, pixel);
        FillRow(x, y + dy, w, pixel);
      }
      return true;
    }

    /** One row of a filled rectangle. */
    method FillRow(x: nat, y: nat, w: nat, pixel: nat)
      requires Valid() && x + w <= layout.width && y < layout.height
      requires Low(pixel, 8 * layout.PixelBytes()) == pixel
      modifies this`pix, bytes
      ensures Valid()
      ensures pix == Filled(old(pix), x, y, w, 1, pixel)
    {
      FilledNothing(pix, x, y, 0, 1, pixel);
      for dx := 0 to w
        invariant Valid()
        invariant pix == Filled(old(pix), x, y, dx, 1, pixel)
      {
        FilledPixel(old(pix), x, y, dx, pixel);
        WriteUnchecked(x + dx, y, pixel);
      }
    }

    /** What the map holds at a pixel, put together from its bytes; none outside the surface. */
    method ReadRawPixel(x: nat, y: nat) returns (r: Option<nat>)
      requires Valid()
      ensures r == if InSurface(layout, x, y) then Some(pix[(x, y)]) else None
    {
      if x >= layout.width || y >= layout.height {
        return None;
      }
      OffsetInside(layout, x, y);
      var n := layout.PixelBytes();
      var at := Offset(layout, x, y);
      var pixel := 0;
      ghost var own := bytes[at..at + n];
      for i := 0 to n
        invariant pixel == Assemble(own[..i])
      {
        AssemblePrefix(own, i);
        pixel := Or(pixel, Shl(bytes[at + i], 8 * i));
      }
      assert own[..n] == own == Slice(bytes[..], at, n);
      assert (x, y) in pix;
      return Some(pixel);
    }
  }

  predicate InRect(x: int, y: int, w: int, h: int, px: int, py: int) {
    x <= px < x + w && y <= py < y + h
  }

  ghost function Filled(pix: map<(int, int), nat>, x: int, y: int, w: int, h: int, word: nat): map<(int, int), nat> {
    map p | p in pix :: if InRect(x, y, w, h, p.0, p.1) then word else pix[p]
  }

  lemma FilledNothing(pix: map<(int, int), nat>, x: int, y: int, w: int, h: int, word: nat)
    requires w == 0 || h == 0
    ensures Filled(pix, x, y, w, h, word) == pix
  {
  }

  lemma FilledPixel(pix: map<(int, int), nat>, x: int, y: int, w: nat, word: nat)
    requires (x + w, y) in pix
    ensures Filled(pix, x, y, w, 1, word)[(x + w, y) := word] == Filled(pix, x, y, w + 1, 1, word)
  {
  }

  lemma FilledRow(pix: map<(int, int), nat>, x: int, y: int, w: nat, h: nat, word: nat)
    ensures Filled(Filled(pix, x, y, w, h, word), x, y + h, w, 1, word) == Filled(pix, x, y, w, h + 1, word)
  {
  }

  /** An encoded colour survives the store's narrowing to the pixel's own width. */
  lemma WordFits(l: Layout, color: Rgb)
    requires Accepts(l)
    ensures Low(Encode(l, color), 8 * l.PixelBytes()) == Encode(l, color)
  {
    EncodeFits(l, color);
    LowSmall(Encode(l, color), l.bpp);
  }

  lemma SliceElsewhere(s: seq<Byte>, s': seq<Byte>, at: int, n: nat, o: int)
    requires 0 <= at && at + n <= |s| && |s'| == |s| && 0 <= o && o + n <= |s|
    requires forall i :: 0 <= i < |s| && !(at <= i < at + n) ==> s'[i] == s[i]
    requires at + n <= o || o + n <= at
    ensures Slice(s', o, n) == Slice(s, o, n)
  {
  }

  /** Storing one pixel's bytes leaves what every other pixel shows. */
  lemma StoreElsewhere(s: seq<Byte>, s': seq<Byte>, l: Layout, x: int, y: int, x': int, y': int)
    requires Accepts(l) && InSurface(l, x, y) && |s| == |s'| == l.pitch * l.height
    requires forall i :: 0 <= i < |s| && !(Offset(l, x, y) <= i < Offset(l, x, y) + l.PixelBytes()) ==> s'[i] == s[i]
    requires InSurface(l, x', y') && (x', y') != (x, y)
    ensures PixelAt(s', l, x', y') == PixelAt(s, l, x', y')
  {
    OffsetsApart(l, x, y, x', y');
    OffsetInside(l, x, y);
    OffsetInside(l, x', y');
    SliceElsewhere(s, s', Offset(l, x, y), l.PixelBytes(), Offset(l, x', y'));
  }

  lemma StoreHere(s': seq<Byte>, l: Layout, x: int, y: int, pixel: nat)
    requires Slice(s', Offset(l, x, y), l.PixelBytes()) == LeBytes(pixel, l.PixelBytes())
    ensures PixelAt(s', l, x, y) == Low(pixel, 8 * l.PixelBytes())
  {
    AssembleInverts(pixel, l.PixelBytes());
  }

  function Stored(s: seq<Byte>, at: nat, b: seq<Byte>): (r: seq<Byte>)
    requires at + |b| <= |s|
    ensures |r| == |s|
    ensures forall i :: 0 <= i < |s| ==> r[i] == if at <= i < at + |b| then b[i - at] else s[i]
  {
    s[..at] + b + s[at + |b|..]
  }

  lemma StorePixels(l: Layout, s: seq<Byte>, s': seq<Byte>, x: nat, y: nat, pixel: nat)
    requires Accepts(l) && InSurface(l, x, y) && |s| == l.pitch * l.height
    requires 0 <= Offset(l, x, y) && Offset(l, x, y) + l.PixelBytes() <= |s|
    requires s' == Stored(s, Offset(l, x, y), LeBytes(pixel, l.PixelBytes()))
    ensures PixelAt(s', l, x, y) == Low(pixel, 8 * l.PixelBytes())
    ensures forall x', y' :: InSurface(l, x', y') && (x', y') != (x, y) ==>
              PixelAt(s', l, x', y') == PixelAt(s, l, x', y')
  {
    assert Slice(s', Offset(l, x, y), l.PixelBytes()) == LeBytes(pixel, l.PixelBytes());
    StoreHere(s', l, x, y, pixel);
    forall x', y' | InSurface(l, x', y') && (x', y') != (x, y)
      ensures PixelAt(s', l, x', y') == PixelAt(s, l, x', y')
    {
      StoreElsewhere(s, s', l, x, y, x', y');
    }
  }

  /** From `at` on stand the `n` low bytes of a word, the lowest first. */
  ghost predicate LowestFirst(s: seq<Byte>, at: int, n: nat, word: nat) {
    0 <= at && at + n <= |s| && forall i: nat :: i < n ==> s[at + i] == word / Pow2(8 * i) % 256
  }

  lemma StoredLowestFirst(s: seq<Byte>, at: nat, n: nat, word: nat)
    requires at + n <= |s|
    ensures LowestFirst(Stored(s, at, LeBytes(word, n)), at, n, word)
  {
    forall i: nat | i < n ensures ByteOf(word, i) == word / Pow2(8 * i) % 256 { ByteOfIs(word, i); }
  }

  /** Storing the bytes of a word at a pixel's place changes that pixel of the map and no padding. */
  lemma StoreRepresents(l: Layout, pix: map<(int, int), nat>, s: seq<Byte>, captured: seq<Byte>,
                        x: nat, y: nat, pixel: nat)
    requires Accepts(l) && Represents(l, pix, s, captured) && InSurface(l, x, y)
    ensures 0 <= Offset(l, x, y) && Offset(l, x, y) + l.PixelBytes() <= |s|
    ensures var s' := Stored(s, Offset(l, x, y), LeBytes(pixel, l.PixelBytes()));
            Represents(l, pix[(x, y) := Low(pixel, 8 * l.PixelBytes())], s', captured)
  {
    OffsetInside(l, x, y);
    var s' := Stored(s, Offset(l, x, y), LeBytes(pixel, l.PixelBytes()));
    StorePixels(l, s, s', x, y, pixel);
    forall i | 0 <= i < |s| && Unowned(l, i) ensures s'[i] == captured[i] {
      assert !Owns(l, x, y, i);
    }
  }

  /** Captures a surface whose layout passes every check; null when it is rejected. */
  method FromLayout(surface: array<Byte>, l: Layout) returns (fb: FrameBuffer?)
    requires surface.Length == l.pitch * l.height
    ensures fb != null <==> Accepts(l)
    ensures fb != null ==> fresh(fb) && fb.Valid() && fb.layout == l && fb.bytes == surface
  {
    if !Accepts(l) {
      return null;
    }
    fb := new FrameBuffer(surface, l);
  }

  // ----- the boot-time colour bars -----

  const BAR_COLORS := [
    Rgb(255, 255, 255), Rgb(255, 255, 0), Rgb(0, 255, 255), Rgb(0, 255, 0),
    Rgb(255, 0, 255), Rgb(255, 0, 0), Rgb(0, 0, 255)]

  /** Where bar `index` begins; bar `index` ends where the next begins. */
  function BarStart(index: nat, width: nat): nat {
    width * index / 7
  }

  /** The bars tile the width in order, and all are non-empty exactly from seven pixels on. */
  lemma BarsPartition(width: nat)
    ensures BarStart(0, width) == 0 && BarStart(7, width) == width
    ensures forall i :: 0 <= i < 7 ==> BarStart(i, width) <= BarStart(i + 1, width)
    ensures (forall i :: 0 <= i < 7 ==> BarStart(i, width) < BarStart(i + 1, width)) <==> width >= 7
  {
    forall i | 0 <= i < 7 ensures BarStart(i, width) <= BarStart(i + 1, width) {}
    if width >= 7 {
      forall i | 0 <= i < 7 ensures BarStart(i, width) < BarStart(i + 1, width) {}
    } else {
      assert BarStart(0, width) == BarStart(1, width);
    }
  }

  /** All bars are equally wide, but for one pixel. */
  lemma BarsEven(width: nat, i: nat)
    requires i < 7
    ensures width / 7 <= BarStart(i + 1, width) - BarStart(i, width) <= width / 7 + 1
  {
    MulNext(width, i);
    NearlyEven(width * i, width);
  }

  lemma NearlyEven(from: int, width: nat)
    requires from >= 0
    ensures width / 7 <= (from + width) / 7 - from / 7 <= width / 7 + 1
  {
  }

  /** The samples stand at a quarter, a half and three quarters of the height. */
  lemma SamplesSpread(k: nat, height: nat)
    requires k < 3 && height >= 1
    ensures SampleRow(k, height) == (k + 1) * height / 4 < height
  {
  }

  predicate InBar(i: nat, width: nat, x: int) {
    BarStart(i, width) <= x < BarStart(i + 1, width)
  }

  /** Every column belongs to exactly one bar. */
  lemma ColumnInOneBar(width: nat, x: int) returns (i: nat)
    requires 0 <= x < width
    ensures i < 7 && InBar(i, width, x)
    ensures forall j: nat :: j < 7 && InBar(j, width, x) ==> j == i
  {
    i := 0;
    while x >= BarStart(i + 1, width)
      invariant i < 7 && BarStart(i, width) <= x
      decreases 7 - i
    {
      i := i + 1;
    }
    forall j: nat | j < 7 && InBar(j, width, x) ensures j == i {
      if j < i { BarsAscend(j + 1, i, width); } else if i < j { BarsAscend(i + 1, j, width); }
    }
  }

  lemma BarsAscend(i: nat, j: nat, width: nat)
    requires i <= j
    ensures BarStart(i, width) <= BarStart(j, width)
  {
    MulMonotone(i, j, width);
  }

  /** Pixels of the first `n` bars show their colours. */
  ghost predicate BarsShown(l: Layout, pix: map<(int, int), nat>, n: int) {
    forall i, x, y :: 0 <= i < n <= 7 && (x, y) in pix && InBar(i, l.width, x) ==>
      pix[(x, y)] == Encode(l, BAR_COLORS[i])
  }

  /** Filling the next bar leaves the earlier ones as they are. */
  lemma NextBarShown(l: Layout, pix: map<(int, int), nat>, n: nat)
    requires n < 7 && BarsShown(l, pix, n)
    requires forall x, y :: (x, y) in pix <==> InSurface(l, x, y)
    ensures var start := BarStart(n, l.width);
            var width := BarStart(n + 1, l.width) - start;
            BarsShown(l, Filled(pix, start, 0, width, l.height, Encode(l, BAR_COLORS[n])), n + 1)
  {
    var start, end := BarStart(n, l.width), BarStart(n + 1, l.width);
    var after := Filled(pix, start, 0, end - start, l.height, Encode(l, BAR_COLORS[n]));
    forall i: nat, x, y | i < n + 1 && (x, y) in after && InBar(i, l.width, x)
      ensures after[(x, y)] == Encode(l, BAR_COLORS[i])
    {
      assert (x, y) in pix;
      if i < n { BarsAscend(i + 1, n, l.width); }
    }
  }

  /** Paints the bars; fails exactly when some bar is empty. */
  method DrawColorBars(fb: FrameBuffer) returns (ok: bool)
    requires fb.Valid()
    modifies fb`pix, fb.bytes
    ensures fb.Valid()
    ensures ok <==> fb.layout.width >= 7 && fb.layout.height >= 1
    ensures ok ==> BarsShown(fb.layout, fb.pix, 7)
  {
    var width, height := fb.layout.width, fb.layout.height;
    BarsPartition(width);
    for index := 0 to 7
      invariant fb.Valid()
      invariant BarsShown(fb.layout, fb.pix, index)
      invariant index > 0 ==> height >= 1
      invariant forall i :: 0 <= i < index ==> BarStart(i, width) < BarStart(i + 1, width)
    {
      var start, end := BarStart(index, width), BarStart(index + 1, width);
      BarsAscend(index + 1, 7, width);
      BarsAscend(index, index + 1, width);
      NextBarShown(fb.layout, fb.pix, index);
      var filled := fb.FillRect(start, 0, end - start, height, BAR_COLORS[index]);
      if !filled {
        return false;
      }
    }
    return true;
  }

  /** The heights at which every bar is sampled. */
  function SampleRow(k: nat, height: nat): int
    requires height >= 1
  {
    var y := if k == 0 then height / 4 else if k == 1 then height / 2 else height * 3 / 4;
    if y < height - 1 then y else height - 1
  }

  function BarCenter(i: nat, width: nat): nat {
    BarsAscend(i, i + 1, width);
    BarStart(i, width) + (BarStart(i + 1, width) - BarStart(i, width)) / 2
  }

  lemma CenterInBar(i: nat, width: nat)
    requires i < 7 && width >= 7
    ensures InBar(i, width, BarCenter(i, width)) && BarCenter(i, width) < width
  {
    BarsPartition(width);
    BarsAscend(i + 1, 7, width);
  }

  ghost predicate Sampled(fb: FrameBuffer, i: nat, k: nat)
    requires i < 7 && fb.layout.height >= 1
    reads fb
  {
    var p := (BarCenter(i, fb.layout.width) as int, SampleRow(k, fb.layout.height));
    p in fb.pix && fb.pix[p] == Encode(fb.layout, BAR_COLORS[i])
  }

  method VerifyColorBars(fb: FrameBuffer) returns (ok: bool)
    requires fb.Valid() && fb.layout.height >= 1
    ensures ok <==> forall i: nat, k: nat :: i < 7 && k < 3 ==> Sampled(fb, i, k)
  {
    for index := 0 to 7
      invariant forall i: nat, k: nat :: i < index && k < 3 ==> Sampled(fb, i, k)
    {
      ok := VerifyBar(fb, index);
      if !ok {
        return;
      }
    }
    return true;
  }

  /** One bar, sampled at three heights. */
  method VerifyBar(fb: FrameBuffer, index: nat) returns (ok: bool)
    requires fb.Valid() && fb.layout.height >= 1 && index < 7
    ensures ok <==> forall k: nat :: k < 3 ==> Sampled(fb, index, k)
  {
    for k := 0 to 3
      invariant forall j: nat :: j < k ==> Sampled(fb, index, j)
    {
      var seen := fb.ReadRawPixel(BarCenter(index, fb.layout.width), SampleRow(k, fb.layout.height));
      if seen != Some(Encode(fb.layout, BAR_COLORS[index])) {
        assert !Sampled(fb, index, k);
        return false;
      }
      assert Sampled(fb, index, k);
    }
    return true;
  }

  /** Drawing the bars and reading them back succeeds on every surface of at least 7 by 1 pixels. */
  method RunColorBarSelfTest(fb: FrameBuffer) returns (ok: bool)
    requires fb.Valid()
    modifies fb`pix, fb.bytes
    ensures fb.Valid()
    ensures ok <==> fb.layout.width >= 7 && fb.layout.height >= 1
  {
    ok := DrawColorBars(fb);
    if ok {
      BarsPartition(fb.layout.width);
      forall i: nat, k: nat | i < 7 && k < 3 ensures Sampled(fb, i, k) {
        CenterInBar(i, fb.layout.width);
        assert (BarCenter(i, fb.layout.width) as int, SampleRow(k, fb.layout.height)) in fb.pix;
      }
      ok := VerifyColorBars(fb);
    }
  }
}
