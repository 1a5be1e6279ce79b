/** The linear framebuffer: which layouts are accepted, what a pixel word is, and bytes as a 2-D map of pixels. */
module Pixels {
  import opened Bits
  import opened BitFields

  datatype Rgb = Rgb(r: Byte, g: Byte, b: Byte)

  datatype Channel = Channel(size: nat, shift: nat)

  datatype Layout = Layout(
    width: nat, height: nat, pitch: nat, bpp: nat, red: Channel, green: Channel, blue: Channel)
  {
    function PixelBytes(): nat {
      bpp / 8
    }
  }

  predicate ChannelOk(c: Channel, bpp: nat) {
    c.size != 0 && c.shift + c.size <= bpp
  }

  /** `(1 << size) - 1` on 64-bit words in a build without overflow checks: only six bits of the amount count. */
  function Ones(size: nat): nat {
    Pow2(size % 64) - 1
  }

  function BitMask(c: Channel): nat {
    Shl(Ones(c.size), c.shift)
  }

  predicate NoCommonBit(c: Channel, d: Channel) {
    And(BitMask(c), BitMask(d)) == 0
  }

  predicate DepthOk(l: Layout) {
    l.bpp != 0 && l.bpp % 8 == 0 && l.bpp <= 64
  }

  predicate ChannelsOk(l: Layout) {
    ChannelOk(l.red, l.bpp) && ChannelOk(l.green, l.bpp) && ChannelOk(l.blue, l.bpp)
  }

  /** Rows do not overlap, and no offset wraps. */
  predicate RowsOk(l: Layout) {
    l.width * l.PixelBytes() <= l.pitch && l.pitch * l.height < WORD_LIMIT
  }

  /** The checks of `from_layout`. */
  predicate Accepts(l: Layout) {
    && DepthOk(l) && ChannelsOk(l) && RowsOk(l)
    && NoCommonBit(l.red, l.green) && NoCommonBit(l.green, l.blue) && NoCommonBit(l.blue, l.red)
  }

  predicate ChannelsApart(l: Layout) {
    && Apart(l.red.size, l.red.shift, l.green.size, l.green.shift)
    && Apart(l.green.size, l.green.shift, l.blue.size, l.blue.shift)
    && Apart(l.blue.size, l.blue.shift, l.red.size, l.red.shift)
  }

  predicate ApartOrWhole(c: Channel, d: Channel) {
    c.size == 64 || d.size == 64 || Apart(c.size, c.shift, d.size, d.shift)
  }

  predicate SizesAtMost(l: Layout, limit: nat) {
    l.red.size <= limit && l.green.size <= limit && l.blue.size <= limit
  }

  // ----- which layouts get through -----

  /** The mask test sees two channels as apart when they are, or when one takes the whole word: its mask is empty. */
  lemma NoCommonBitExactly(c: Channel, d: Channel)
    requires 1 <= c.size <= 64 && 1 <= d.size <= 64
    ensures NoCommonBit(c, d) <==> ApartOrWhole(c, d)
  {
    OnesSmall(c.size);
    OnesSmall(d.size);
    if c.size < 64 && d.size < 64 {
      MasksApartExactly(c.size, c.shift, d.size, d.shift);
    } else {
      ShlZero(c.shift);
      ShlZero(d.shift);
    }
  }

  /** Accepted are exactly the sound depths and rows whose channels are pairwise apart or take the whole word. */
  lemma AcceptsExactly(l: Layout)
    ensures Accepts(l) <==>
            && DepthOk(l) && ChannelsOk(l) && RowsOk(l)
            && ApartOrWhole(l.red, l.green) && ApartOrWhole(l.green, l.blue) && ApartOrWhole(l.blue, l.red)
  {
    if DepthOk(l) && ChannelsOk(l) {
      NoCommonBitExactly(l.red, l.green);
      NoCommonBitExactly(l.green, l.blue);
      NoCommonBitExactly(l.blue, l.red);
    }
  }

  /** The channels of an accepted layout are apart in the pixel exactly when each of them is below 64 bits. */
  lemma AcceptedApartExactly(l: Layout)
    requires Accepts(l)
    ensures ChannelsApart(l) <==> SizesAtMost(l, 63)
  {
    AcceptsExactly(l);
  }

  /** The usual 32-bit layout, blue lowest, is accepted at any size whose rows fit the pitch. */
  lemma BgrxAccepted(width: nat, height: nat, pitch: nat)
    requires 4 * width <= pitch && pitch * height < WORD_LIMIT
    ensures Accepts(Layout(width, height, pitch, 32, Channel(8, 16), Channel(8, 8), Channel(8, 0)))
  {
    AcceptsExactly(Layout(width, height, pitch, 32, Channel(8, 16), Channel(8, 8), Channel(8, 0)));
  }

  /** A red channel over the whole word gets through although green and blue lie inside it. */
  lemma OverlapAccepted(width: nat, height: nat, pitch: nat)
    requires 8 * width <= pitch && pitch * height < WORD_LIMIT
    ensures var l := Layout(width, height, pitch, 64, Channel(64, 0), Channel(8, 0), Channel(8, 8));
            Accepts(l) && !ChannelsApart(l)
  {
    AcceptsExactly(Layout(width, height, pitch, 64, Channel(64, 0), Channel(8, 0), Channel(8, 8)));
  }

  /** Channels too wide to be scaled exactly get through as well, up to the 62 bits that leave room for two others. */
  lemma WideAccepted(size: nat, width: nat, height: nat, pitch: nat)
    requires 57 <= size <= 62 && 8 * width <= pitch && pitch * height < WORD_LIMIT
    ensures var l := Layout(width, height, pitch, 64, Channel(size, 0), Channel(1, size), Channel(1, size + 1));
            Accepts(l) && ChannelsApart(l)
  {
    AcceptsExactly(Layout(width, height, pitch, 64, Channel(size, 0), Channel(1, size), Channel(1, size + 1)));
  }

  // ----- colours -----

  /** An 8-bit value scaled to a channel, in 64-bit arithmetic. */
  function Scaled(value: Byte, size: nat): nat {
    value * Ones(size) % WORD_LIMIT / 255
  }

  /** The same without any wrapping. */
  function Ideal(value: Byte, size: nat): nat {
    value * (Pow2(size) - 1) / 255
  }

  function EncodeChannel(c: Channel, value: Byte): nat {
    Shl(Scaled(value, c.size), c.shift)
  }

  function Encode(l: Layout, color: Rgb): nat {
    Or(Or(EncodeChannel(l.red, color.r), EncodeChannel(l.green, color.g)), EncodeChannel(l.blue, color.b))
  }

  lemma QuotientBelow(product: nat, max: nat)
    requires product <= 255 * max
    ensures product / 255 <= max
  {
  }

  lemma ScaledFits(value: Byte, size: nat)
    requires size <= 64
    ensures Scaled(value, size) < Pow2(size)
  {
    var max := Ones(size);
    ScaledAtMost(value, max);
    OnesSmall(size);
  }

  lemma OnesSmall(size: nat)
    requires size <= 64
    ensures Ones(size) < Pow2(size)
    ensures size < 64 ==> Ones(size) == Pow2(size) - 1
    ensures size == 64 ==> Ones(size) == 0
  {
    if size == 64 {
      Pow2Monotone(0, size);
    } else {
      ModSelf(size, 64);
    }
  }

  lemma ScaledAtMost(value: nat, max: nat)
    requires value <= 255
    ensures value * max % WORD_LIMIT / 255 <= max
  {
    MulMonotone(value, 255, max);
    RemainderBelow(value * max);
    QuotientBelow(value * max % WORD_LIMIT, max);
  }

  lemma RemainderBelow(product: int)
    requires product >= 0
    ensures 0 <= product % WORD_LIMIT <= product
    ensures product < WORD_LIMIT ==> product % WORD_LIMIT == product
  {
  }

  lemma WrapLoses(max: nat)
    requires max >= 0x1FF_FFFF_FFFF_FFFF
    ensures 255 * max % WORD_LIMIT / 255 < max == 255 * max / 255
  {
    assert 255 * max % WORD_LIMIT < WORD_LIMIT;
  }

  lemma SmallProduct(value: nat, max: nat)
    requires value <= 255 && max < 0x100_0000_0000_0000
    ensures value * max % WORD_LIMIT == value * max
  {
    MulMonotone(value, 255, max);
    RemainderBelow(value * max);
  }

  lemma ScaledExact(value: Byte, size: nat)
    requires size <= 56
    ensures Scaled(value, size) == Ideal(value, size)
  {
    Pow2OfBytes();
    Pow2Monotone(size, 56);
    OnesSmall(size);
    SmallProduct(value, Ones(size));
  }

  lemma ScaledLoses(size: nat)
    requires 57 <= size <= 64
    ensures Scaled(255, size) < Ideal(255, size)
  {
    Pow2OfBytes();
    Pow2Monotone(57, size);
    OnesSmall(size);
    WrapLoses(Pow2(size) - 1);
  }

  /** Of the sizes a layout can have, scaling is exact for every value exactly up to 56 bits. */
  lemma ScalingExactly(size: nat)
    requires size <= 64
    ensures size <= 56 <==> forall v: Byte :: Scaled(v, size) == Ideal(v, size)
  {
    if size <= 56 {
      forall v: Byte ensures Scaled(v, size) == Ideal(v, size) { ScaledExact(v, size); }
    } else {
      ScaledLoses(size);
      var full: Byte := 255;
      assert Scaled(full, size) != Ideal(full, size);
    }
  }

  /** Each scaled channel can be read out of the pixel word, untouched by the other two. */
  lemma ChannelsReadBack(l: Layout, color: Rgb)
    requires Accepts(l) && SizesAtMost(l, 63)
    ensures var w := Encode(l, color);
            && Field(w, l.red.shift, l.red.size) == Scaled(color.r, l.red.size)
            && Field(w, l.green.shift, l.green.size) == Scaled(color.g, l.green.size)
            && Field(w, l.blue.shift, l.blue.size) == Scaled(color.b, l.blue.size)
  {
    ScaledFits(color.r, l.red.size);
    ScaledFits(color.g, l.green.size);
    ScaledFits(color.b, l.blue.size);
    AcceptedApartExactly(l);
    OneChannel(l, color, l.red);
    OneChannel(l, color, l.green);
    OneChannel(l, color, l.blue);
  }

  /** Reading each channel out of a pixel word gives the colour, scaled without loss. */
  predicate ReadsAs(l: Layout, w: nat, color: Rgb) {
    && Field(w, l.red.shift, l.red.size) == Ideal(color.r, l.red.size)
    && Field(w, l.green.shift, l.green.size) == Ideal(color.g, l.green.size)
    && Field(w, l.blue.shift, l.blue.size) == Ideal(color.b, l.blue.size)
  }

  predicate ReadsBack(l: Layout, color: Rgb) {
    ReadsAs(l, Encode(l, color), color)
  }

  /** In an accepted layout every colour reads back from its pixel word exactly when no channel is over 56 bits. */
  lemma ChannelsExactly(l: Layout)
    requires Accepts(l)
    ensures (forall color :: ReadsBack(l, color)) <==> SizesAtMost(l, 56)
  {
    if SizesAtMost(l, 56) {
      forall color ensures ReadsBack(l, color) {
        ChannelsReadBack(l, color);
        ScaledExact(color.r, l.red.size);
        ScaledExact(color.g, l.green.size);
        ScaledExact(color.b, l.blue.size);
      }
    } else if SizesAtMost(l, 63) {
      WideReadsWrong(l);
    } else {
      WholeWordReadsWrong(l);
    }
  }

  /** Full intensity in a channel of 57 to 63 bits is lost, even with the other two dark. */
  lemma WideReadsWrong(l: Layout)
    requires Accepts(l) && SizesAtMost(l, 63) && !SizesAtMost(l, 56)
    ensures exists color :: !ReadsBack(l, color)
  {
    var color := Rgb(255, 255, 255);
    ChannelsReadBack(l, color);
    if l.red.size > 56 { ScaledLoses(l.red.size); }
    if l.green.size > 56 { ScaledLoses(l.green.size); }
    if l.blue.size > 56 { ScaledLoses(l.blue.size); }
    assert !ReadsBack(l, color);
  }

  /** A channel over the whole word is always written as zero. */
  lemma WholeWordReadsWrong(l: Layout)
    requires Accepts(l) && !SizesAtMost(l, 63)
    ensures exists color :: !ReadsBack(l, color)
  {
    var at := if l.red.size > 63 then l.red else if l.green.size > 63 then l.green else l.blue;
    var color :=
      if l.red.size > 63 then Rgb(255, 0, 0) else if l.green.size > 63 then Rgb(0, 255, 0) else Rgb(0, 0, 255);
    DarkWord(l, color);
    assert at.size == 64 && at.shift == 0;
    LowZero(64);
    ScaledLoses(64);
    assert Field(0, 0, 64) == 0;
    assert !ReadsBack(l, color);
  }

  lemma DarkWord(l: Layout, color: Rgb)
    requires color.r == 0 || l.red.size == 64
    requires color.g == 0 || l.green.size == 64
    requires color.b == 0 || l.blue.size == 64
    ensures Encode(l, color) == 0
  {
    DarkChannel(l.red, color.r);
    DarkChannel(l.green, color.g);
    DarkChannel(l.blue, color.b);
  }

  lemma DarkChannel(c: Channel, value: Byte)
    requires value == 0 || c.size == 64
    ensures EncodeChannel(c, value) == 0
  {
    assert Ones(64) == 0;
    assert value * Ones(c.size) == 0;
    ShlZero(c.shift);
  }

  lemma OneChannel(l: Layout, color: Rgb, at: Channel)
    requires SizesAtMost(l, 64)
    ensures Field(Encode(l, color), at.shift, at.size) ==
            Or(Or(Field(EncodeChannel(l.red, color.r), at.shift, at.size),
                  Field(EncodeChannel(l.green, color.g), at.shift, at.size)),
               Field(EncodeChannel(l.blue, color.b), at.shift, at.size))
    ensures at == l.red ==> Field(EncodeChannel(l.red, color.r), at.shift, at.size) == Scaled(color.r, at.size)
    ensures at == l.green ==> Field(EncodeChannel(l.green, color.g), at.shift, at.size) == Scaled(color.g, at.size)
    ensures at == l.blue ==> Field(EncodeChannel(l.blue, color.b), at.shift, at.size) == Scaled(color.b, at.size)
    ensures Apart(at.size, at.shift, l.red.size, l.red.shift) ==>
              Field(EncodeChannel(l.red, color.r), at.shift, at.size) == 0
    ensures Apart(at.size, at.shift, l.green.size, l.green.shift) ==>
              Field(EncodeChannel(l.green, color.g), at.shift, at.size) == 0
    ensures Apart(at.size, at.shift, l.blue.size, l.blue.shift) ==>
              Field(EncodeChannel(l.blue, color.b), at.shift, at.size) == 0
  {
    var r, g, b := EncodeChannel(l.red, color.r), EncodeChannel(l.green, color.g), EncodeChannel(l.blue, color.b);
    FieldOr(r, g, at.shift, at.size);
    FieldOr(Or(r, g), b, at.shift, at.size);
    ScaledFits(color.r, l.red.size);
    ScaledFits(color.g, l.green.size);
    ScaledFits(color.b, l.blue.size);
    FieldOfShifted(Scaled(color.r, l.red.size), l.red.size, l.red.shift, at.size, at.shift);
    FieldOfShifted(Scaled(color.g, l.green.size), l.green.size, l.green.shift, at.size, at.shift);
    FieldOfShifted(Scaled(color.b, l.blue.size), l.blue.size, l.blue.shift, at.size, at.shift);
  }

  lemma ChannelFits(c: Channel, value: Byte, bpp: nat)
    requires c.size <= 64 && c.shift + c.size <= bpp
    ensures EncodeChannel(c, value) < Pow2(bpp)
  {
    ScaledFits(value, c.size);
    ShlBelow(Scaled(value, c.size), c.size, c.shift);
    Pow2Monotone(c.size + c.shift, bpp);
  }

  lemma EncodeFits(l: Layout, color: Rgb)
    requires Accepts(l)
    ensures Encode(l, color) < Pow2(l.bpp)
  {
    ChannelFits(l.red, color.r, l.bpp);
    ChannelFits(l.green, color.g, l.bpp);
    ChannelFits(l.blue, color.b, l.bpp);
    OrBelow(EncodeChannel(l.red, color.r), EncodeChannel(l.green, color.g), l.bpp);
    OrBelow(Or(EncodeChannel(l.red, color.r), EncodeChannel(l.green, color.g)), EncodeChannel(l.blue, color.b), l.bpp);
  }

  // ----- words as bytes -----

  lemma {:induction false} LowBelow(v: nat, k: nat)
    ensures Low(v, k) < Pow2(k)
  {
    if k > 0 { LowBelow(v / 2, k - 1); }
  }

  /** Byte `i` of a little-endian word. */
  function ByteOf(v: nat, i: nat): Byte {
    LowBelow(Shr(v, 8 * i), 8);
    assert Pow2(8) == 256;
    Low(Shr(v, 8 * i), 8)
  }

  lemma {:induction false} ShrIsDiv(v: nat, k: nat)
    ensures Shr(v, k) == v / Pow2(k)
  {
    if k > 0 {
      ShrIsDiv(v / 2, k - 1);
      HalfThenDivide(v, Pow2(k - 1));
    }
  }

  lemma HalfThenDivide(v: nat, p: nat)
    requires p >= 1
    ensures v / 2 / p == v / (2 * p)
  {
    var h := v / 2;
    DivModUnique(v, 2 * p, h / p, 2 * (h % p) + v % 2) by {
      var q, r := h / p, h % p;
      assert h == p * q + r;
      assert 2 * (p * q) == (2 * p) * q;
    }
  }

  lemma ByteOfIs(v: nat, i: nat)
    ensures ByteOf(v, i) == v / Pow2(8 * i) % 256
  {
    ShrIsDiv(v, 8 * i);
    LowIsMod(Shr(v, 8 * i), 8);
    assert Pow2(8) == 256;
  }

  function LeBytes(v: nat, n: nat): (s: seq<Byte>)
    ensures |s| == n && forall i :: 0 <= i < n ==> s[i] == ByteOf(v, i)
  {
    if n == 0 then [] else LeBytes(v, n - 1) + [ByteOf(v, n - 1)]
  }

  /** The word read back byte by byte: each byte shifted into place and OR-ed in. */
  function Assemble(s: seq<Byte>): nat {
    if s == [] then 0 else Or(Assemble(s[..|s| - 1]), Shl(s[|s| - 1], 8 * (|s| - 1)))
  }

  lemma {:induction false} LowSplit(v: nat, a: nat, b: nat)
    ensures Low(v, a + b) == Low(v, a) + Shl(Low(Shr(v, a), b), a)
  {
    if a > 0 { LowSplit(v / 2, a - 1, b); }
  }

  lemma AssembleMore(s: seq<Byte>, b: Byte)
    ensures Assemble(s + [b]) == Or(Assemble(s), Shl(b, 8 * |s|))
  {
    assert (s + [b])[..|s|] == s;
  }

  lemma AssemblePrefix(s: seq<Byte>, i: nat)
    requires i < |s|
    ensures Assemble(s[..i + 1]) == Or(Assemble(s[..i]), Shl(s[i], 8 * i))
  {
    AssembleMore(s[..i], s[i]);
    assert s[..i + 1] == s[..i] + [s[i]];
  }

  lemma ByteAbove(v: nat, k: nat, i: nat)
    requires k == 8 * i
    ensures Low(v, k + 8) == Or(Low(v, k), Shl(ByteOf(v, i), k))
  {
    LowSplit(v, k, 8);
    LowBelow(v, k);
    OrIsSum(Low(v, k), ByteOf(v, i), k);
  }

  /** Reading the bytes of a word gives its low bits back. */
  lemma {:induction false} AssembleInverts(v: nat, n: nat)
    ensures Assemble(LeBytes(v, n)) == Low(v, 8 * n)
  {
    if n > 0 {
      var k := 8 * (n - 1);
      AssembleInverts(v, n - 1);
      AssembleMore(LeBytes(v, n - 1), ByteOf(v, n - 1));
      ByteAbove(v, k, n - 1);
      assert k + 8 == 8 * n;
    }
  }
}
