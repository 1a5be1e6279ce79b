/** The console on the framebuffer: full renders, partial repaints, and the edited line. */
module Console {
  import opened Options
  import opened Bits
  import opened Pixels
  import opened Surface
  import opened Psf
  import opened Grid
  import opened LineEditing
  import opened EditLines
  import Terminal

  /** A font the console can draw with. */
  predicate Drawable(f: Font) {
    WellFormed(f) && Covers(f) && f.width > 0 && f.height > 0
  }

  function GlyphOf(f: Font, c: char): nat
    requires WellFormed(f)
  {
    match GlyphIndexFor(f, c as int) case Some(g) => g case None => 0
  }

  predicate IsSet(f: Font, glyph: nat, gx: nat, gy: nat)
    requires Drawable(f)
  {
    match GlyphPixel(f, glyph, gx, gy) case Some(on) => on case None => false
  }

  /** The pixel word a cell puts at `(gx, gy)` of its rectangle. */
  function CellWord(l: Layout, f: Font, cell: Cell, gx: nat, gy: nat): nat
    requires Drawable(f)
  {
    if IsSet(f, GlyphOf(f, cell.glyph), gx, gy) then Encode(l, cell.fg) else Encode(l, cell.bg)
  }

  type PixelMap = map<(int, int), nat>

  // ----- cells as rectangles of pixels -----

  ghost predicate PixelShown(pix: PixelMap, l: Layout, f: Font, cell: Cell, row: int, col: int, gx: nat, gy: nat)
    requires Drawable(f)
  {
    var p := (Index(f.width, col, gx), Index(f.height, row, gy));
    p in pix && pix[p] == CellWord(l, f, cell, gx, gy)
  }

  ghost predicate CellShown(pix: PixelMap, l: Layout, f: Font, cell: Cell, row: int, col: int)
    requires Drawable(f)
  {
    forall gx: nat, gy: nat :: gx < f.width && gy < f.height ==> PixelShown(pix, l, f, cell, row, col, gx, gy)
  }

  /** The grid's part of the surface is what a full render of the cells would draw. */
  ghost predicate GridShown(pix: PixelMap, l: Layout, f: Font, cells: seq<Cell>, cols: nat, rows: nat)
    requires Drawable(f)
  {
    forall row, col {:trigger Index(cols, row, col)} :: 0 <= row < rows && 0 <= col < cols ==>
      0 <= Index(cols, row, col) < |cells| && CellShown(pix, l, f, cells[Index(cols, row, col)], row, col)
  }

  /**
   * What a cell's rectangle shows, bit by bit of the font's data: where the byte of glyph `g` that holds pixel
   * `(gx, gy)` packs the row `bits`, the pixel has the foreground if its bit is set and the background if not.
   */
  ghost predicate Draws(pix: PixelMap, l: Layout, f: Font, cell: Cell, row: int, col: int)
    requires WellFormed(f)
  {
    forall g: nat, gx: nat, gy: nat, bits: seq<bool> ::
      IsGlyph(f, cell.glyph, g) && Packs(f, g, gx, gy, bits) ==>
        PixelIs(pix, l, col * f.width + gx, row * f.height + gy, if bits[gx % 8] then cell.fg else cell.bg)
  }

  predicate PixelIs(pix: PixelMap, l: Layout, x: int, y: int, color: Rgb) {
    (x, y) in pix && HasColor(l, pix[(x, y)], color)
  }

  /** The glyph that the font gives a character, or glyph 0 when it has none. */
  predicate IsGlyph(f: Font, c: char, g: nat)
    requires WellFormed(f)
  {
    g < f.glyphCount && (GlyphIndexFor(f, c as int) == Some(g) || (GlyphIndexFor(f, c as int) == None && g == 0))
  }

  predicate Packs(f: Font, g: nat, gx: nat, gy: nat, bits: seq<bool>) {
    && gx < f.width && gy < f.height && |bits| == 8
    && var at := f.glyphDataOffset + g * f.glyphBytes + gy * f.bytesPerRow + gx / 8;
       at < |f.data| && f.data[at] == Pack(bits)
  }

  /** The word is the colour's, and reads back as the colour where no channel is too wide to be scaled. */
  predicate HasColor(l: Layout, word: nat, color: Rgb) {
    word == Encode(l, color) && (SizesAtMost(l, 56) ==> ReadsAs(l, word, color))
  }

  lemma ShownDraws(pix: PixelMap, l: Layout, f: Font, cell: Cell, row: int, col: int)
    requires Drawable(f) && Accepts(l) && CellShown(pix, l, f, cell, row, col)
    ensures Draws(pix, l, f, cell, row, col)
  {
    forall g: nat, gx: nat, gy: nat, bits: seq<bool> |
      IsGlyph(f, cell.glyph, g) && Packs(f, g, gx, gy, bits)
      ensures PixelIs(pix, l, col * f.width + gx, row * f.height + gy, if bits[gx % 8] then cell.fg else cell.bg)
    {
      assert PixelShown(pix, l, f, cell, row, col, gx, gy);
      PackedPixel(f, g, gx, gy, bits);
      BitWord(l, f, cell, g, gx, gy, bits[gx % 8]);
      EncodedHasColor(l, if bits[gx % 8] then cell.fg else cell.bg);
    }
  }

  /** The word of a pixel whose bit is known. */
  lemma BitWord(l: Layout, f: Font, cell: Cell, g: nat, gx: nat, gy: nat, lit: bool)
    requires Drawable(f) && IsGlyph(f, cell.glyph, g) && GlyphPixel(f, g, gx, gy) == Some(lit)
    ensures CellWord(l, f, cell, gx, gy) == Encode(l, if lit then cell.fg else cell.bg)
  {
  }

  lemma EncodedHasColor(l: Layout, color: Rgb)
    requires Accepts(l)
    ensures HasColor(l, Encode(l, color), color)
  {
    if SizesAtMost(l, 56) {
      ChannelsExactly(l);
      assert ReadsBack(l, color);
    }
  }

  /** A packed bit is what the font says of the pixel. */
  lemma PackedPixel(f: Font, g: nat, gx: nat, gy: nat, bits: seq<bool>)
    requires Drawable(f) && g < f.glyphCount && Packs(f, g, gx, gy, bits)
    ensures GlyphPixel(f, g, gx, gy) == Some(bits[gx % 8])
  {
    GlyphInside(f, g);
    PixelInside(f, g, gx, gy);
    GlyphPixelUnpacks(f, g, gx, gy, bits);
  }

  predicate InCell(f: Font, row: int, col: int, p: (int, int)) {
    InRect(Index(f.width, col, 0), Index(f.height, row, 0), f.width, f.height, p.0, p.1)
  }

  /** Nothing changed outside the rectangle of one cell. */
  ghost predicate OnlyCell(pix: PixelMap, pix': PixelMap, f: Font, row: int, col: int) {
    && (forall p :: p in pix <==> p in pix')
    && (forall p :: p in pix && !InCell(f, row, col, p) ==> pix'[p] == pix[p])
  }

  /** Rectangles of different cells have no pixel in common. */
  lemma CellsSeparate(f: Font, row: int, col: int, row': int, col': int, gx: nat, gy: nat)
    requires f.width > 0 && f.height > 0 && gx < f.width && gy < f.height && (row, col) != (row', col')
    ensures !InCell(f, row, col, (Index(f.width, col', gx), Index(f.height, row', gy)))
  {
    if col' < col { MulMonotone(col' + 1, col, f.width); }
    if col < col' { MulMonotone(col + 1, col', f.width); }
    if row' < row { MulMonotone(row' + 1, row, f.height); }
    if row < row' { MulMonotone(row + 1, row', f.height); }
  }

  lemma OtherCellKept(pix: PixelMap, pix': PixelMap, l: Layout, f: Font, row: int, col: int,
                      cell': Cell, row': int, col': int)
    requires Drawable(f) && OnlyCell(pix, pix', f, row, col) && (row, col) != (row', col')
    requires CellShown(pix, l, f, cell', row', col')
    ensures CellShown(pix', l, f, cell', row', col')
  {
    forall gx: nat, gy: nat | gx < f.width && gy < f.height
      ensures PixelShown(pix', l, f, cell', row', col', gx, gy)
    {
      assert PixelShown(pix, l, f, cell', row', col', gx, gy);
      CellsSeparate(f, row, col, row', col', gx, gy);
    }
  }

  /** The pixel rectangle of a grid cell lies inside a surface the grid fits. */
  lemma CellPixelsInside(f: Font, cols: int, rows: int, w: int, h: int, row: int, col: int, gx: nat, gy: nat)
    requires 0 <= row < rows && 0 <= col < cols && gx < f.width && gy < f.height
    requires cols * f.width <= w && rows * f.height <= h
    ensures 0 <= Index(f.width, col, gx) < w && 0 <= Index(f.height, row, gy) < h
  {
    MulMonotone(0, col, f.width);
    MulMonotone(col + 1, cols, f.width);
    MulMonotone(0, row, f.height);
    MulMonotone(row + 1, rows, f.height);
  }

  /** The pixels of a cell that a row-by-row blit has set by the time it reaches `(gx, gy)`. */
  ghost predicate PartShown(pix: PixelMap, l: Layout, f: Font, cell: Cell, row: int, col: int, gx: nat, gy: nat)
    requires Drawable(f)
  {
    forall x: nat, y: nat :: x < f.width && y < f.height && (y < gy || (y == gy && x < gx)) ==>
      PixelShown(pix, l, f, cell, row, col, x, y)
  }

  lemma OnePixelMore(pix: PixelMap, l: Layout, f: Font, cell: Cell, row: int, col: int, gx: nat, gy: nat)
    requires Drawable(f) && gx < f.width && gy < f.height && PartShown(pix, l, f, cell, row, col, gx, gy)
    requires (Index(f.width, col, gx), Index(f.height, row, gy)) in pix
    ensures var pix' := pix[(Index(f.width, col, gx), Index(f.height, row, gy)) := CellWord(l, f, cell, gx, gy)];
            PartShown(pix', l, f, cell, row, col, gx + 1, gy) && OnlyCell(pix, pix', f, row, col)
  {
    var pix' := pix[(Index(f.width, col, gx), Index(f.height, row, gy)) := CellWord(l, f, cell, gx, gy)];
    forall x: nat, y: nat | x < f.width && y < f.height && (y < gy || (y == gy && x < gx + 1))
      ensures PixelShown(pix', l, f, cell, row, col, x, y)
    {
      assert x != gx || y != gy ==> PixelShown(pix, l, f, cell, row, col, x, y);
    }
  }

  // ----- whole writes, on the console's fields as a value -----

  function KeptOf(c: Con): Terminal.Kept {
    Terminal.Kept(c.cells, c.cols, c.rows, c.cursorRow, c.cursorCol)
  }

  /** The grid that a write opens over the console's cells. */
  function Reopened(c: Con): Screen
    requires c.cols > 0 && c.rows > 0
  {
    Terminal.Reopen(KeptOf(c))
  }

  function Written(c: Con, text: seq<char>): Con
    requires c.cols > 0 && c.rows > 0
  {
    var k := Terminal.PutText(KeptOf(c), text, c.fg, c.bg);
    c.(cells := k.cells, cursorRow := k.row, cursorCol := k.col)
  }

  function Wiped(c: Con): Con {
    c.(cells := seq(|c.cells|, _ => Blank(c.fg, c.bg)), cursorRow := 0, cursorCol := 0, editedCells := 0)
  }

  lemma WrittenOk(c: Con, text: seq<char>)
    requires c.Ok()
    ensures var c' := Written(c, text);
            && c'.Ok() && |c'.cells| == |c.cells| && c'.cursorRow < c'.rows && c'.cursorCol <= c'.cols
            && (Terminal.NoTabs(text) ==> c'.cursorCol < c'.cols)
  {
    var s := Reopened(c);
    Terminal.KeepsGeometry(s, text, c.fg, c.bg);
    ParkedAtMost(s.col, s.cols, text);
    if Terminal.NoTabs(text) {
      Terminal.NoTabsLand(s.col, s.cols, text);
      Terminal.LandedCol(s.col, s.cols, text);
    }
  }

  // ----- the size of the grid -----

  const MAX_COLS := 256
  const MAX_ROWS := 128
  /** The cells of the console's fixed buffer. */
  const CELL_COUNT := MAX_COLS * MAX_ROWS

  /** The console before it has a geometry. */
  const NEW_CONSOLE :=
    Con(seq(CELL_COUNT, _ => Blank(DEFAULT_FG, DEFAULT_BG)), 0, 0, 0, 0, DEFAULT_FG, DEFAULT_BG, 0, 0, 0)

  // ----- the console object -----

  class Console {
    const cells: array<Cell>
    const font: Font
    var cols: nat
    var rows: nat
    var cursorRow: nat
    var cursorCol: nat
    var fg: Rgb
    var bg: Rgb
    var editRow: nat
    var editCol: nat
    var editedCells: nat

    function Now(): Con
      reads this, cells
    {
      Con(cells[..], cols, rows, cursorRow, cursorCol, fg, bg, editRow, editCol, editedCells)
    }

    ghost predicate Valid()
      reads this, cells
    {
      Drawable(font) && Now().Ok() && cursorRow < rows && cursorCol <= cols
    }

    /** No geometry yet, and blank cells in the default colours. */
    constructor (font: Font)
      requires Drawable(font)
      ensures this.font == font && fresh(cells) && cells.Length == CELL_COUNT
      ensures Now() == NEW_CONSOLE
    {
      this.font := font;
      cells := new Cell[CELL_COUNT](_ => Blank(DEFAULT_FG, DEFAULT_BG));
      cols, rows, cursorRow, cursorCol, fg, bg := 0, 0, 0, 0, DEFAULT_FG, DEFAULT_BG;
      editRow, editCol, editedCells := 0, 0, 0;
      new;
      assert cells[..] == NEW_CONSOLE.cells;
    }

    /** The grid fits the surface, as `set_geometry` arranges. */
    ghost predicate Fits(fb: FrameBuffer)
      reads this, fb, fb.bytes
    {
      && fb.Valid()
      && cols * font.width <= fb.layout.width && rows * font.height <= fb.layout.height
      && cells as object != fb.bytes as object
    }

    ghost predicate Shown(fb: FrameBuffer)
      requires Drawable(font)
      reads this, cells, fb
    {
      GridShown(fb.pix, fb.layout, font, cells[..], cols, rows)
    }

    method BlitCell(fb: FrameBuffer, row: nat, col: nat)
      requires Valid() && Fits(fb) && row < rows && col < cols
      modifies fb`pix, fb.bytes
      ensures Valid() && Fits(fb) && Now() == old(Now())
      ensures 0 <= Index(cols, row, col) < cells.Length
      ensures CellShown(fb.pix, fb.layout, font, cells[Index(cols, row, col)], row, col)
      ensures Draws(fb.pix, fb.layout, font, cells[Index(cols, row, col)], row, col)
      ensures OnlyCell(old(fb.pix), fb.pix, font, row, col)
    {
      IndexInside(cols, rows, row, col);
      var cell := cells[Index(cols, row, col)];
      var found := FindGlyph(font, cell.glyph as int);
      var glyph := if found.Some? then found.value else 0;
      var fgWord, bgWord := Encode(fb.layout, cell.fg), Encode(fb.layout, cell.bg);
      for gy := 0 to font.height
        invariant Fits(fb) && OnlyCell(old(fb.pix), fb.pix, font, row, col)
        invariant PartShown(fb.pix, fb.layout, font, cell, row, col, 0, gy)
      {
        for gx := 0 to font.width
          invariant Fits(fb) && OnlyCell(old(fb.pix), fb.pix, font, row, col)
          invariant PartShown(fb.pix, fb.layout, font, cell, row, col, gx, gy)
        {
          var lit := GlyphPixel(font, glyph, gx, gy);
          var word := if lit.Some? && lit.value then fgWord else bgWord;
          BlitPixel(fb, cell, row, col, gx, gy, word);
        }
      }
      ShownDraws(fb.pix, fb.layout, font, cell, row, col);
    }

    method BlitPixel(fb: FrameBuffer, ghost cell: Cell, row: nat, col: nat, gx: nat, gy: nat, word: nat)
      requires Valid() && Fits(fb) && row < rows && col < cols && gx < font.width && gy < font.height
      requires word == CellWord(fb.layout, font, cell, gx, gy)
      requires PartShown(fb.pix, fb.layout, font, cell, row, col, gx, gy)
      modifies fb`pix, fb.bytes
      ensures Valid() && Fits(fb) && Now() == old(Now())
      ensures PartShown(fb.pix, fb.layout, font, cell, row, col, gx + 1, gy)
      ensures OnlyCell(old(fb.pix), fb.pix, font, row, col)
    {
      CellPixelsInside(font, cols, rows, fb.layout.width, fb.layout.height, row, col, gx, gy);
      WordFits(fb.layout, cell.fg);
      WordFits(fb.layout, cell.bg);
      OnePixelMore(fb.pix, fb.layout, font, cell, row, col, gx, gy);
      var _ := fb.WriteWord(Index(font.width, col, gx), Index(font.height, row, gy), word);
    }

    /** The rectangle of cell `(row, col)` shows that cell. */
    ghost predicate CellOk(fb: FrameBuffer, row: int, col: int)
      requires Drawable(font)
      reads this, cells, fb
    {
      && 0 <= Index(cols, row, col) < cells.Length
      && CellShown(fb.pix, fb.layout, font, cells[Index(cols, row, col)], row, col)
    }

    predicate InGrid(row: int, col: int)
      reads this
    {
      0 <= row < rows && 0 <= col < cols
    }

    lemma ShownByCells(fb: FrameBuffer)
      requires Valid() && forall row, col :: InGrid(row, col) ==> CellOk(fb, row, col)
      ensures Shown(fb)
    {
      forall row, col | 0 <= row < rows && 0 <= col < cols
        ensures 0 <= Index(cols, row, col) < |cells[..]|
             && CellShown(fb.pix, fb.layout, font, cells[..][Index(cols, row, col)], row, col)
      {
        assert InGrid(row, col) && CellOk(fb, row, col);
      }
    }

    /** Blits one cell; every other cell that was right stays right. */
    method Reblit(fb: FrameBuffer, row: nat, col: nat)
      requires Valid() && Fits(fb) && InGrid(row, col)
      modifies fb`pix, fb.bytes
      ensures Valid() && Fits(fb) && Now() == old(Now())
      ensures CellOk(fb, row, col)
      ensures forall r, c :: old(CellOk(fb, r, c)) ==> CellOk(fb, r, c)
      ensures OnlyCell(old(fb.pix), fb.pix, font, row, col)
    {
      ghost var was := fb.pix;
      BlitCell(fb, row, col);
      forall r, c | old(CellOk(fb, r, c)) ensures CellOk(fb, r, c) {
        if r != row || c != col {
          OtherCellKept(was, fb.pix, fb.layout, font, row, col, cells[Index(cols, r, c)], r, c);
        }
      }
    }

    /** A surface that shows the console shows the bits of every cell's glyph in the cell's colours. */
    lemma ShownIsDrawn(fb: FrameBuffer, row: int, col: int)
      requires Valid() && Fits(fb) && Shown(fb) && InGrid(row, col)
      ensures 0 <= row * cols + col < cells.Length
      ensures Draws(fb.pix, fb.layout, font, cells[row * cols + col], row, col)
    {
      CellsShown(fb);
      assert CellOk(fb, row, col);
      ShownDraws(fb.pix, fb.layout, font, cells[Index(cols, row, col)], row, col);
    }

    /** Draws every cell. */
    method Render(fb: FrameBuffer)
      requires Valid() && Fits(fb)
      modifies fb`pix, fb.bytes
      ensures Valid() && Fits(fb) && Now() == old(Now())
      ensures Shown(fb)
      ensures forall row, col :: InGrid(row, col) ==>
                && 0 <= row * cols + col < cells.Length
                && Draws(fb.pix, fb.layout, font, cells[row * cols + col], row, col)
    {
      for row := 0 to rows
        invariant Valid() && Fits(fb) && Now() == old(Now())
        invariant forall r, c :: 0 <= r < row && 0 <= c < cols ==> CellOk(fb, r, c)
      {
        for col := 0 to cols
          invariant Valid() && Fits(fb) && Now() == old(Now())
          invariant forall r, c :: 0 <= r < row && 0 <= c < cols ==> CellOk(fb, r, c)
          invariant forall c :: 0 <= c < col ==> CellOk(fb, row, c)
        {
          Reblit(fb, row, col);
        }
      }
      ShownByCells(fb);
      forall row, col | InGrid(row, col)
        ensures 0 <= row * cols + col < cells.Length
        ensures Draws(fb.pix, fb.layout, font, cells[row * cols + col], row, col)
      {
        ShownIsDrawn(fb, row, col);
      }
    }

    /** Every cell of the clamped index range is right afterwards, and no cell becomes wrong. */
    method RenderRange(fb: FrameBuffer, first: nat, last: nat)
      requires Valid() && Fits(fb)
      modifies fb`pix, fb.bytes
      ensures Valid() && Fits(fb) && Now() == old(Now())
      ensures forall r, c :: InGrid(r, c) && (first <= Index(cols, r, c) <= last || old(CellOk(fb, r, c))) ==>
                CellOk(fb, r, c)
    {
      var total := rows * cols;
      var start, end := first, last;
      if start >= total || end >= total {
        start, end := Min(start, total - 1), Min(end, total - 1);
      }
      if start > end {
        return;
      }
      for index := start to end + 1
        invariant Valid() && Fits(fb) && Now() == old(Now())
        invariant forall r, c :: old(CellOk(fb, r, c)) ==> CellOk(fb, r, c)
        invariant forall r, c :: InGrid(r, c) && start <= Index(cols, r, c) < index ==> CellOk(fb, r, c)
      {
        ReblitIndex(fb, index);
      }
      IndicesBelow();
    }

    lemma IndicesBelow()
      requires Valid()
      ensures forall r, c :: InGrid(r, c) ==> 0 <= Index(cols, r, c) < rows * cols <= cells.Length
    {
      forall r, c | InGrid(r, c) ensures 0 <= Index(cols, r, c) < rows * cols { IndexBelow(cols, rows, r, c); }
      assert rows * cols == cols * rows;
    }

    method ReblitIndex(fb: FrameBuffer, index: nat)
      requires Valid() && Fits(fb) && index < rows * cols
      modifies fb`pix, fb.bytes
      ensures Valid() && Fits(fb) && Now() == old(Now())
      ensures forall r, c :: old(CellOk(fb, r, c)) ==> CellOk(fb, r, c)
      ensures forall r, c :: InGrid(r, c) && Index(cols, r, c) == index ==> CellOk(fb, r, c)
    {
      var row, col := RowCol(index);
      Reblit(fb, row, col);
      forall r, c | InGrid(r, c) && Index(cols, r, c) == index ensures CellOk(fb, r, c) {
        if r != row || c != col { IndexApart(cols, r, c, row, col); }
      }
    }

    // ----- the edited line -----

    /** Blanks the cells the editor drew before, as far as the grid reaches. */
    method BlankOld(grid: TextGrid)
      requires Valid() && grid.Valid() && grid.cells == cells && grid.cols == cols && grid.rows == rows
      modifies cells
      ensures cells[..] == Blanked(old(Now()))
    {
      var origin, total := Index(cols, editRow, editCol), rows * cols;
      OriginInside(Now());
      for off := 0 to editedCells
        invariant forall i :: 0 <= i < cells.Length ==>
                    cells[i] == if origin <= i < origin + off && i < total then Blank(fg, bg) else old(cells[i])
      {
        if origin + off >= total {
          break;
        }
        var row, col := RowCol(origin + off);
        grid.SetCell(row, col, Blank(fg, bg));
      }
    }

    /** Draws the line from the edit origin; says how often the grid scrolled. */
    method DrawLine(chars: seq<char>) returns (scrolled: nat)
      requires Valid() && Terminal.StaysInside(EditStart(Now()), chars, fg, bg)
      modifies this`cursorRow, this`cursorCol, this`editedCells, cells
      ensures var c, s := old(Now()), Drawn(old(Now()), chars);
              && scrolled == s.scrolls
              && Now() == c.(cells := s.cells, cursorRow := s.row, cursorCol := s.col,
                             editedCells := Monus(Index(c.cols, s.row, s.col), c.Origin()))
    {
      ghost var c := Now();
      var grid := Open(cells, cols, rows);
      BlankOld(grid);
      grid.SetCursor(editRow, editCol);
      assert grid.Now() == EditStart(c);
      PutAll(grid, chars);
      editedCells := Monus(Index(cols, grid.row, grid.col), Index(cols, editRow, editCol));
      cursorRow, cursorCol := grid.row, grid.col;
      scrolled := grid.scrollCount;
    }

    /** Emits a text at a grid's cursor in the console's colours. */
    method PutAll(grid: TextGrid, text: seq<char>)
      requires grid.Valid() && Terminal.StaysInside(grid.Now(), text, fg, bg)
      modifies grid, grid.cells
      ensures grid.Valid() && grid.Now() == AfterAll(old(grid.Now()), text, fg, bg)
    {
      for i := 0 to |text|
        invariant grid.Valid() && grid.Now() == AfterAll(old(grid.Now()), text[..i], fg, bg)
      {
        assert text[..i + 1][..i] == text[..i];
        Terminal.PrefixStays(old(grid.Now()), text[..i + 1], text, fg, bg);
        grid.Put(text[i], fg, bg);
      }
      assert text[..|text|] == text;
    }

    /** Cells that a repaint left alone still show on the surface. */
    lemma UnchangedOk(fb: FrameBuffer, c: Con)
      requires Valid() && cols == c.cols && rows == c.rows && |c.cells| == cells.Length
      requires GridShown(fb.pix, fb.layout, font, c.cells, cols, rows)
      ensures forall row, col :: InGrid(row, col) && Untouched(c, row, col) ==> CellOk(fb, row, col)
    {
      forall row, col | InGrid(row, col) && Untouched(c, row, col) ensures CellOk(fb, row, col) {
        IndexInside(cols, rows, row, col);
        assert CellShown(fb.pix, fb.layout, font, c.cells[Index(cols, row, col)], row, col);
      }
    }

    /** The cell is as it was in an earlier state of the console. */
    ghost predicate Untouched(c: Con, row: int, col: int)
      reads this, cells
    {
      var i := Index(cols, row, col);
      0 <= i < cells.Length == |c.cells| && cells[i] == c.cells[i]
    }

    /** The cell lies in the range that a repaint blits. */
    predicate Dirty(c: Con, row: int, col: int)
      reads this
    {
      c.Origin() <= Index(cols, row, col) < Max(c.Origin() + c.editedCells, c.Origin() + editedCells)
    }

    /**
     * Repaints the in-progress line: only its own range, or everything once a scroll moved the grid. Afterwards
     * every cell shows that was blitted or left alone; for a line that moves forward that is all of them.
     */
    method SetEditLine(fb: FrameBuffer, chars: seq<char>)
      requires cols != 0 && rows != 0 ==> Valid() && Fits(fb) && Shown(fb)
      // no character may miss the buffer, which only one printed from a cursor parked in the bottom row can
      requires cols != 0 && rows != 0 ==> Terminal.StaysInside(EditStart(Now()), chars, fg, bg)
      modifies this, cells, fb`pix, fb.bytes
      ensures Now() == if old(cols != 0 && rows != 0) then EditLine(old(Now()), chars) else old(Now())
      ensures old(cols != 0 && rows != 0) ==> Valid() && Fits(fb)
      ensures old(cols != 0 && rows != 0) ==>
                var c := old(Now());
                forall row, col :: InGrid(row, col) && (Dirty(c, row, col) || Untouched(c, row, col)) ==>
                  CellOk(fb, row, col)
      ensures old(cols != 0 && rows != 0) && Forward(old(Now()), chars) ==> Shown(fb)
    {
      if cols == 0 || rows == 0 {
        return;
      }
      ghost var c := Now();
      EditLineOk(c, chars);
      OriginInside(c);
      var origin, oldCells := Index(cols, editRow, editCol), editedCells;
      if chars == [] && oldCells == 0 {
        UnchangedOk(fb, c);
        return;
      }
      var scrolled := DrawLine(chars);
      if scrolled > 0 {
        editRow := Monus(editRow, scrolled);
        Render(fb);
        CellsShown(fb);
      } else {
        RenderDirty(fb, origin, oldCells, c);
        if Forward(c, chars) {
          ForwardCovers(c, chars);
          CoveredOk(fb, c);
        }
      }
    }

    /** Blits what the old and the new line cover; everything left alone was right before. */
    method RenderDirty(fb: FrameBuffer, origin: nat, oldCells: nat, ghost c: Con)
      requires Valid() && Fits(fb) && cols == c.cols && rows == c.rows && |c.cells| == cells.Length
      requires GridShown(fb.pix, fb.layout, font, c.cells, cols, rows)
      requires origin == c.Origin() && oldCells == c.editedCells
      modifies fb`pix, fb.bytes
      ensures Valid() && Fits(fb) && Now() == old(Now())
      ensures forall row, col :: InGrid(row, col) && (Dirty(c, row, col) || Untouched(c, row, col)) ==>
                CellOk(fb, row, col)
    {
      UnchangedOk(fb, c);
      RenderRange(fb, origin, Monus(Max(origin + oldCells, origin + editedCells), 1));
    }

    lemma CoveredOk(fb: FrameBuffer, c: Con)
      requires Valid() && cols == c.cols && rows == c.rows && |c.cells| == cells.Length
      requires forall row, col :: InGrid(row, col) && (Dirty(c, row, col) || Untouched(c, row, col)) ==>
                 CellOk(fb, row, col)
      requires forall i :: 0 <= i < |c.cells| && !Covered(c, Now(), i) ==> cells[i] == c.cells[i]
      ensures Shown(fb)
    {
      IndicesBelow();
      forall row, col | InGrid(row, col) ensures CellOk(fb, row, col) {
        assert Dirty(c, row, col) || Untouched(c, row, col);
      }
      ShownByCells(fb);
    }

    lemma CellsShown(fb: FrameBuffer)
      requires Valid() && Shown(fb)
      ensures forall row, col :: InGrid(row, col) ==> CellOk(fb, row, col)
    {
      forall row, col | InGrid(row, col) ensures CellOk(fb, row, col) {
        assert 0 <= Index(cols, row, col) < |cells[..]|;
      }
    }

    /** Fits the grid to the surface in whole glyphs, whether or not the cell buffer can hold it. */
    method SetGeometry(fb: FrameBuffer)
      requires Drawable(font)
      modifies this`cols, this`rows
      ensures Now() == old(Now()).(cols := cols, rows := rows)
      ensures cols == fb.layout.width / font.width && rows == fb.layout.height / font.height
      ensures cols * font.width <= fb.layout.width < (cols + 1) * font.width
      ensures rows * font.height <= fb.layout.height < (rows + 1) * font.height
    {
      cols := fb.layout.width / font.width;
      rows := fb.layout.height / font.height;
      WholeFits(fb.layout.width, font.width);
      WholeFits(fb.layout.height, font.height);
    }

    /** A line of output goes to the surface with its newline; other text waits for the next render. */
    method WriteStr(fb: FrameBuffer, text: seq<char>)
      requires Valid() && Fits(fb)
      requires Terminal.StaysInside(Reopened(Now()), text, fg, bg)
      modifies this`cursorRow, this`cursorCol, cells, fb`pix, fb.bytes
      ensures Valid() && Fits(fb) && Now() == Written(old(Now()), text)
      ensures text != [] && text[|text| - 1] == '\n' ==> Shown(fb)
    {
      WrittenOk(Now(), text);
      var _ := PutText(text);
      if text != [] && text[|text| - 1] == '\n' {
        Render(fb);
      }
    }

    /** The cells, the cursor and the surface after a `clear`. */
    method ClearScreen(fb: FrameBuffer)
      requires Valid() && Fits(fb)
      modifies this`cursorRow, this`cursorCol, this`editedCells, cells, fb`pix, fb.bytes
      ensures Valid() && Fits(fb) && Now() == Wiped(old(Now()))
      ensures Shown(fb)
    {
      var grid := Open(cells, cols, rows);
      grid.Clear(fg, bg);
      cursorRow, cursorCol, editedCells := 0, 0, 0;
      Render(fb);
    }

    method EndEdit()
      modifies this`editedCells
      ensures Now() == old(Now()).(editedCells := 0)
    {
      editedCells := 0;
    }

    method BeginEdit()
      modifies this`editRow, this`editCol, this`editedCells
      ensures editRow == cursorRow && editCol == cursorCol && editedCells == 0
    {
      editRow, editCol, editedCells := cursorRow, cursorCol, 0;
    }

    /**
     * Writes a text at the cursor, unless there is no geometry; `ok` is false where the code panics because
     * the grid does not fit the buffer.
     */
    method PutText(text: seq<char>) returns (ok: bool)
      // no character may miss the buffer, which only one printed from a cursor parked in the bottom row can
      requires Now().Sized() ==> Terminal.StaysInside(Reopened(Now()), text, fg, bg)
      modifies this`cursorRow, this`cursorCol, cells
      ensures ok <==> cols * rows <= cells.Length
      ensures Now() == if old(Now()).Sized() then Written(old(Now()), text) else old(Now())
    {
      if cols == 0 || rows == 0 {
        return true;
      }
      var grid := Open(cells, cols, rows);
      if grid == null {
        return false;
      }
      grid.SetCursor(cursorRow, cursorCol);
      PutAll(grid, text);
      cursorRow, cursorCol := grid.row, grid.col;
      return true;
    }

    // ----- repairing a rectangle -----

    ghost predicate PixelOk(pix: PixelMap, l: Layout, row: int, col: int, gx: nat, gy: nat)
      requires Drawable(font)
      reads this, cells
    {
      && 0 <= Index(cols, row, col) < cells.Length
      && PixelShown(pix, l, font, cells[Index(cols, row, col)], row, col, gx, gy)
    }

    /** Whether pixel `(gx, gy)` of a grid cell lies outside a rectangle. */
    predicate CellPixelOutside(x: int, y: int, w: int, h: int, row: int, col: int, gx: nat, gy: nat)
      reads this
    {
      && InGrid(row, col) && gx < font.width && gy < font.height
      && !InRect(x, y, w, h, Index(font.width, col, gx), Index(font.height, row, gy))
    }

    /** All of the grid's pixels outside a rectangle show their cells. */
    ghost predicate ShownOutside(pix: PixelMap, l: Layout, x: int, y: int, w: int, h: int)
      requires Drawable(font)
      reads this, cells
    {
      forall row, col, gx: nat, gy: nat ::
        CellPixelOutside(x, y, w, h, row, col, gx, gy) ==> PixelOk(pix, l, row, col, gx, gy)
    }

    /** Whether a pixel lies in the strips right of and below the grid. */
    predicate OffGrid(p: (int, int))
      reads this
    {
      p.0 >= cols * font.width || p.1 >= rows * font.height
    }

    /**
     * Repairs the surface where a window was: background over the rectangle, then every cell it touches.
     * A rectangle that leaves the surface is not filled, but its cells are drawn all the same.
     */
    method RepaintRect(fb: FrameBuffer, x: nat, y: nat, w: nat, h: nat)
      requires cols != 0 && rows != 0 ==> Valid() && Fits(fb) && ShownOutside(fb.pix, fb.layout, x, y, w, h)
      modifies fb`pix, fb.bytes
      ensures cols != 0 && rows != 0 && w != 0 && h != 0 ==> Valid() && Fits(fb) && Shown(fb)
      ensures cols != 0 && rows != 0 && w != 0 && h != 0 ==>
                var filled := x + w <= fb.layout.width && y + h <= fb.layout.height;
                forall p :: p in fb.pix && OffGrid(p) ==>
                  && p in old(fb.pix)
                  && fb.pix[p] ==
                     if filled && InRect(x, y, w, h, p.0, p.1) then Encode(fb.layout, bg) else old(fb.pix)[p]
      ensures cols == 0 || rows == 0 || w == 0 || h == 0 ==> fb.pix == old(fb.pix)
    {
      if cols == 0 || rows == 0 || w == 0 || h == 0 {
        return;
      }
      var row0, row1 := TouchedRange(y, h, font.height, rows);
      var col0, col1 := TouchedRange(x, w, font.width, cols);
      ghost var was := fb.pix;
      var _ := fb.FillRect(x, y, w, h, bg);
      ghost var filled := fb.pix;
      UntouchedCellsOk(fb, was, x, y, w, h, row0, row1, col0, col1);
      ReblitBlock(fb, row0, row1, col0, col1, filled);
      ShownByCells(fb);
    }

    predicate InBlock(row0: int, row1: int, col0: int, col1: int, row: int, col: int) {
      row0 <= row <= row1 && col0 <= col <= col1
    }

    /** Blits a block of cells; with all others right before, the whole grid is right afterwards. */
    method ReblitBlock(fb: FrameBuffer, row0: nat, row1: nat, col0: nat, col1: nat, ghost filled: PixelMap)
      requires Valid() && Fits(fb) && row0 <= row1 < rows && col0 <= col1 < cols
      requires forall r, c :: InGrid(r, c) && !InBlock(row0, row1, col0, col1, r, c) ==> CellOk(fb, r, c)
      requires StripsKept(fb, filled)
      modifies fb`pix, fb.bytes
      ensures Valid() && Fits(fb) && Now() == old(Now())
      ensures forall r, c :: InGrid(r, c) ==> CellOk(fb, r, c)
      ensures StripsKept(fb, filled)
    {
      for row := row0 to row1 + 1
        invariant Valid() && Fits(fb) && Now() == old(Now())
        invariant forall r, c :: InGrid(r, c) && !InBlock(row, row1, col0, col1, r, c) ==> CellOk(fb, r, c)
        invariant StripsKept(fb, filled)
      {
        ReblitSpan(fb, row, col0, col1, filled);
      }
    }

    method ReblitSpan(fb: FrameBuffer, row: nat, col0: nat, col1: nat, ghost filled: PixelMap)
      requires Valid() && Fits(fb) && row < rows && col0 <= col1 < cols
      requires StripsKept(fb, filled)
      modifies fb`pix, fb.bytes
      ensures Valid() && Fits(fb) && Now() == old(Now())
      ensures forall r, c :: old(CellOk(fb, r, c)) ==> CellOk(fb, r, c)
      ensures forall c :: col0 <= c <= col1 ==> CellOk(fb, row, c)
      ensures StripsKept(fb, filled)
    {
      for col := col0 to col1 + 1
        invariant Valid() && Fits(fb) && Now() == old(Now())
        invariant forall r, c :: old(CellOk(fb, r, c)) ==> CellOk(fb, r, c)
        invariant forall c :: col0 <= c < col ==> CellOk(fb, row, c)
        invariant StripsKept(fb, filled)
      {
        ghost var before := fb.pix;
        Reblit(fb, row, col);
        OffGridKept(fb, before, row, col, filled);
      }
    }

    /** The strips right of and below the grid hold what they held once the rectangle was filled. */
    ghost predicate StripsKept(fb: FrameBuffer, filled: PixelMap)
      reads this, fb
    {
      forall p :: p in fb.pix && OffGrid(p) ==> p in filled && fb.pix[p] == filled[p]
    }

    lemma OffGridKept(fb: FrameBuffer, before: PixelMap, row: nat, col: nat, filled: PixelMap)
      requires InGrid(row, col) && OnlyCell(before, fb.pix, font, row, col)
      requires forall p :: p in before && OffGrid(p) ==> p in filled && before[p] == filled[p]
      ensures StripsKept(fb, filled)
    {
      UnitInside(font.width, col, cols);
      UnitInside(font.height, row, rows);
    }

    /** Cells whose row or column the rectangle does not touch still show after it was filled. */
    lemma UntouchedCellsOk(fb: FrameBuffer, was: PixelMap, x: nat, y: nat, w: nat, h: nat,
                           row0: nat, row1: nat, col0: nat, col1: nat)
      requires Valid() && fb.Valid()
      requires forall p :: p in was ==> p in fb.pix && (InRect(x, y, w, h, p.0, p.1) || fb.pix[p] == was[p])
      requires forall row: nat, gy: nat :: row < rows && gy < font.height && !(row0 <= row <= row1) ==>
                 !(y <= Index(font.height, row, gy) < y + h)
      requires forall col: nat, gx: nat :: col < cols && gx < font.width && !(col0 <= col <= col1) ==>
                 !(x <= Index(font.width, col, gx) < x + w)
      requires ShownOutside(was, fb.layout, x, y, w, h)
      ensures forall r, c :: InGrid(r, c) && !InBlock(row0, row1, col0, col1, r, c) ==> CellOk(fb, r, c)
    {
      IndicesBelow();
      forall r, c | InGrid(r, c) && !InBlock(row0, row1, col0, col1, r, c) ensures CellOk(fb, r, c) {
        var cell := cells[Index(cols, r, c)];
        forall gx: nat, gy: nat | gx < font.width && gy < font.height
          ensures PixelShown(fb.pix, fb.layout, font, cell, r, c, gx, gy)
        {
          assert CellPixelOutside(x, y, w, h, r, c, gx, gy);
          assert PixelOk(was, fb.layout, r, c, gx, gy);
        }
      }
    }

    /** The grid rows (or columns) of `unit` pixels that `[at, at + span)` can touch, clamped to the grid. */
    method TouchedRange(at: nat, span: nat, unit: nat, count: nat) returns (first: nat, last: nat)
      requires unit > 0 && span > 0 && count > 0
      ensures first <= last < count
      ensures forall k: nat, g: nat :: k < count && g < unit && !(first <= k <= last) ==>
                !(at <= Index(unit, k, g) < at + span)
    {
      first := Min(at / unit, count - 1);
      last := Min((at + span - 1) / unit, count - 1);
      TouchedOnly(at, span, unit, count);
    }

    method RowCol(index: nat) returns (row: nat, col: nat)
      requires cols > 0 && index < rows * cols
      ensures InGrid(row, col) && Index(cols, row, col) == index
    {
      RowColOf(cols, rows, index);
      row, col := index / cols, index % cols;
    }
  }

  /** Unit `k` of `count` ends no later than the last. */
  lemma UnitInside(unit: nat, k: nat, count: nat)
    requires k < count
    ensures Index(unit, k, 0) + unit <= count * unit
  {
    MulMonotone(k + 1, count, unit);
  }

  lemma UnitBefore(unit: nat, k: nat, g: nat, at: nat)
    requires unit > 0 && g < unit && k < at / unit
    ensures Index(unit, k, g) < at
  {
    WholeFits(at, unit);
    MulMonotone(k + 1, at / unit, unit);
  }

  lemma UnitAfter(unit: nat, k: nat, g: nat, at: nat)
    requires unit > 0 && at / unit < k
    ensures Index(unit, k, g) > at
  {
    WholeFits(at, unit);
    MulMonotone(at / unit + 1, k, unit);
  }

  lemma DivMonotone(a: nat, b: nat, unit: nat)
    requires unit > 0 && a <= b
    ensures a / unit <= b / unit
  {
    if b / unit < a / unit { UnitBefore(unit, b / unit, b % unit, a); }
  }

  lemma TouchedOnly(at: nat, span: nat, unit: nat, count: nat)
    requires unit > 0 && span > 0 && count > 0
    ensures var first, last := Min(at / unit, count - 1), Min((at + span - 1) / unit, count - 1);
            first <= last &&
            forall k: nat, g: nat :: k < count && g < unit && !(first <= k <= last) ==>
              !(at <= Index(unit, k, g) < at + span)
  {
    var q, r := at / unit, (at + span - 1) / unit;
    DivMonotone(at, at + span - 1, unit);
    forall k: nat, g: nat | k < count && g < unit && !(Min(q, count - 1) <= k <= Min(r, count - 1))
      ensures !(at <= Index(unit, k, g) < at + span)
    {
      if k < q { UnitBefore(unit, k, g, at); } else { UnitAfter(unit, k, g, at + span - 1); }
    }
  }

  lemma IndexBelow(cols: int, rows: int, row: int, col: int)
    requires 0 <= row < rows && 0 <= col < cols
    ensures 0 <= Index(cols, row, col) < rows * cols
  {
    MulMonotone(0, row, cols);
    MulMonotone(row + 1, rows, cols);
  }

  lemma WholeFits(total: nat, unit: nat)
    requires unit > 0
    ensures total / unit * unit <= total < (total / unit + 1) * unit
  {
  }

  /** Division gives the row and column of an index. */
  lemma RowColOf(cols: nat, rows: nat, index: nat)
    requires cols > 0 && index < rows * cols
    ensures index / cols < rows && index % cols < cols
    ensures Index(cols, index / cols, index % cols) == index
  {
    if index / cols >= rows { MulMonotone(rows, index / cols, cols); }
  }
}
