/** The scrolling text grid over a caller's cell buffer. */
module Grid {
  import opened Bits
  import opened Pixels

  datatype Cell = Cell(glyph: char, fg: Rgb, bg: Rgb)

  function Blank(fg: Rgb, bg: Rgb): Cell {
    Cell(' ', fg, bg)
  }

  const TAB_WIDTH := 8
  const DEFAULT_FG := Rgb(0xC0, 0xC0, 0xC0)
  const DEFAULT_BG := Rgb(0, 0, 0)

  /** A grid's buffer, geometry, cursor, fill cell and scroll count as a value. */
  datatype Screen = Screen(cells: seq<Cell>, cols: nat, rows: nat, row: nat, col: nat, blank: Cell, scrolls: nat) {

    predicate Sized() {
      cols > 0 && rows > 0 && cols * rows <= |cells|
    }

    /** The cursor is in the grid, or parked right of its last column by a tab. */
    predicate Cursored() {
      row < rows && col <= cols
    }

    predicate Ok() {
      Sized() && Cursored()
    }
  }

  /** The cell index of `(row, col)` in row-major order. */
  function Index(cols: int, row: int, col: int): int {
    row * cols + col
  }

  lemma IndexInside(cols: int, rows: int, row: int, col: int)
    requires 0 <= row < rows && 0 <= col < cols
    ensures 0 <= Index(cols, row, col) < cols * rows
    ensures Index(cols, row, col) + cols == Index(cols, row + 1, col)
    ensures row + 1 < rows ==> Index(cols, row + 1, col) < cols * rows
    ensures row == rows - 1 <==> (rows - 1) * cols <= Index(cols, row, col)
  {
    MulMonotone(0, row, cols);
    MulMonotone(row + 1, rows, cols);
    if row < rows - 1 { MulMonotone(row + 1, rows - 1, cols); }
    if row + 1 < rows { MulMonotone(row + 2, rows, cols); }
  }

  lemma IndexApart(cols: int, row: int, col: int, row': int, col': int)
    requires 0 <= col < cols && 0 <= col' < cols && 0 <= row && 0 <= row' && (row, col) != (row', col')
    ensures Index(cols, row, col) != Index(cols, row', col')
  {
    if row < row' { MulMonotone(row + 1, row', cols); }
    else if row' < row { MulMonotone(row' + 1, row, cols); }
  }

  function Min(a: nat, b: nat): nat {
    if a < b then a else b
  }

  // ----- what the operations do to the buffer -----

  /** The buffer moved up by one row, the grid's bottom row blanked. */
  function ScrolledCells(cells: seq<Cell>, cols: nat, rows: nat, blank: Cell): (r: seq<Cell>)
    ensures |r| == |cells|
  {
    seq(|cells|, i requires 0 <= i < |cells| =>
      if (rows - 1) * cols <= i < rows * cols then blank
      else if i + cols < |cells| then cells[i + cols] else cells[i])
  }

  /** A buffer copied from `d` on to its front. */
  function Copied(cells: seq<Cell>, d: nat): (r: seq<Cell>)
    ensures |r| == |cells|
  {
    seq(|cells|, i requires 0 <= i < |cells| => if i + d < |cells| then cells[i + d] else cells[i])
  }

  lemma CopiedCells(was: seq<Cell>, now: seq<Cell>, d: nat)
    requires |now| == |was| && d <= |was|
    requires forall j :: 0 <= j < |was| - d ==> now[j] == was[j + d]
    requires forall j :: |was| - d <= j < |was| ==> now[j] == was[j]
    ensures now == Copied(was, d)
  {
  }

  function Overwritten(cells: seq<Cell>, start: nat, n: nat, blank: Cell): (r: seq<Cell>)
    ensures |r| == |cells|
  {
    seq(|cells|, i requires 0 <= i < |cells| => if start <= i < start + n then blank else cells[i])
  }

  /** Copying and blanking in turn is one scroll. */
  lemma CopiedAndBlanked(cells: seq<Cell>, start: nat, cols: nat, rows: nat, blank: Cell)
    requires rows > 0 && start == (rows - 1) * cols
    ensures Overwritten(Copied(cells, cols), start, cols, blank) == ScrolledCells(cells, cols, rows, blank)
  {
    assert rows * cols == start + cols;
  }

  function AfterScroll(s: Screen): Screen {
    s.(cells := ScrolledCells(s.cells, s.cols, s.rows, s.blank), scrolls := s.scrolls + 1)
  }

  function AfterLinefeed(s: Screen): Screen {
    if s.row + 1 >= s.rows then AfterScroll(s.(col := 0)) else s.(col := 0, row := s.row + 1)
  }

  function TabStop(col: nat): nat {
    (col / TAB_WIDTH + 1) * TAB_WIDTH
  }

  /** A tab goes to the least multiple of 8 to the right of the column. */
  lemma TabStopLeast(col: nat)
    ensures col < TabStop(col) && TabStop(col) % 8 == 0
    ensures forall stop: nat :: col < stop && stop % 8 == 0 ==> TabStop(col) <= stop
  {
  }

  function PutCell(s: Screen, at: int, cell: Cell): Screen {
    if 0 <= at < |s.cells| then s.(cells := s.cells[at := cell]) else s
  }

  function AfterPut(s: Screen, c: char, fg: Rgb, bg: Rgb): Screen {
    if c == '\n' then AfterLinefeed(s)
    else if c == '\r' then s.(col := 0)
    else if c == '\t' then s.(col := Min(TabStop(s.col), s.cols))
    else
      var s1 := PutCell(s, Index(s.cols, s.row, s.col), Cell(c, fg, bg)).(col := s.col + 1);
      if s1.col >= s1.cols then AfterLinefeed(s1) else s1
  }

  function AfterAll(s: Screen, text: seq<char>, fg: Rgb, bg: Rgb): Screen {
    if text == [] then s else AfterPut(AfterAll(s, text[..|text| - 1], fg, bg), text[|text| - 1], fg, bg)
  }

  /** Whether writing at the cursor stays inside the buffer; a parked cursor on the last row may not. */
  predicate Writable(s: Screen, c: char) {
    c == '\n' || c == '\r' || c == '\t' || Index(s.cols, s.row, s.col) < |s.cells|
  }

  /** A character misses the buffer only from a cursor parked in the bottom row of a grid that fills it. */
  lemma WritableExactly(s: Screen, c: char)
    requires s.Ok()
    ensures Writable(s, c) <==>
            c == '\n' || c == '\r' || c == '\t'
            || s.col < s.cols || s.row + 1 < s.rows || s.cols * s.rows < |s.cells|
  {
    if s.col < s.cols {
      IndexInside(s.cols, s.rows, s.row, s.col);
    } else {
      RowEnd(s.cols, s.rows, s.row);
    }
  }

  /** The index just past a row lies in the grid unless the row is the last. */
  lemma RowEnd(cols: nat, rows: nat, row: nat)
    requires row < rows && cols > 0
    ensures Index(cols, row, cols) <= cols * rows
    ensures Index(cols, row, cols) < cols * rows <==> row + 1 < rows
  {
    MulNext(cols, row);
    MulMonotone(row + 1, rows, cols);
    if row + 1 < rows { MulMonotone(row + 2, rows, cols); }
  }

  class TextGrid {
    const cells: array<Cell>
    const cols: nat
    const rows: nat
    var row: nat
    var col: nat
    var defaultFg: Rgb
    var defaultBg: Rgb
    var scrollCount: nat

    function Now(): Screen
      reads this, cells
    {
      Screen(cells[..], cols, rows, row, col, Blank(defaultFg, defaultBg), scrollCount)
    }

    predicate Valid()
      reads this
    {
      cols > 0 && rows > 0 && cols * rows <= cells.Length && row < rows && col <= cols
    }

    /** A grid over the first cells of a buffer, whose contents it takes as they are. */
    constructor (cells: array<Cell>, cols: nat, rows: nat)
      requires cols > 0 && rows > 0 && cols * rows <= cells.Length
      ensures Valid() && this.cells == cells
      ensures Now() == Screen(cells[..], cols, rows, 0, 0, Blank(DEFAULT_FG, DEFAULT_BG), 0)
    {
      this.cells, this.cols, this.rows := cells, cols, rows;
      row, col, defaultFg, defaultBg, scrollCount := 0, 0, DEFAULT_FG, DEFAULT_BG, 0;
    }

    /** The colours given here also fill the rows that later scrolls open. */
    method Clear(fg: Rgb, bg: Rgb)
      requires Valid()
      modifies this, cells
      ensures Valid()
      ensures Now() == Cleared(old(Now()), fg, bg)
    {
      defaultFg, defaultBg := fg, bg;
      for i := 0 to cells.Length
        invariant defaultFg == fg && defaultBg == bg
        invariant forall j :: 0 <= j < i ==> cells[j] == Blank(fg, bg)
      {
        cells[i] := Blank(fg, bg);
      }
      row, col, scrollCount := 0, 0, 0;
      assert cells[..] == Cleared(old(Now()), fg, bg).cells;
    }

    method SetCursor(row: nat, col: nat)
      requires Valid()
      modifies this`row, this`col
      ensures Valid()
      ensures Now() == old(Now()).(row := Min(row, rows - 1), col := Min(col, cols - 1))
    {
      this.row := Min(row, rows - 1);
      this.col := Min(col, cols - 1);
    }

    method SetCell(row: nat, col: nat, value: Cell)
      requires Valid()
      modifies cells
      ensures Now()
           == if row < rows && col < cols then PutCell(old(Now()), Index(cols, row, col), value) else old(Now())
    {
      if row < rows && col < cols {
        IndexInside(cols, rows, row, col);
        cells[Index(cols, row, col)] := value;
      }
    }

    /** `AfterPut` done in place; a character has to find a cell in the buffer. */
    method Put(c: char, fg: Rgb, bg: Rgb)
      requires Valid() && Writable(Now(), c)
      modifies this, cells
      ensures Valid()
      ensures Now() == AfterPut(old(Now()), c, fg, bg)
    {
      if c == '\n' {
        Linefeed();
      } else if c == '\r' {
        col := 0;
      } else if c == '\t' {
        var next := (col / TAB_WIDTH + 1) * TAB_WIDTH;
        col := Min(next, cols);
      } else {
        MulMonotone(0, row, cols);
        cells[Index(cols, row, col)] := Cell(c, fg, bg);
        col := col + 1;
        if col >= cols {
          Linefeed();
        }
      }
    }

    method Linefeed()
      requires cols > 0 && rows > 0 && cols * rows <= cells.Length && row < rows
      modifies this, cells
      ensures Valid()
      ensures Now() == AfterLinefeed(old(Now()))
    {
      col := 0;
      if row + 1 >= rows {
        ScrollUp();
      } else {
        row := row + 1;
      }
    }

    /** The copy takes the whole buffer along, so cells past the grid move too; the grid's last row is then blanked. */
    method ScrollUp()
      requires Valid()
      modifies this`scrollCount, cells
      ensures Valid()
      ensures Now() == AfterScroll(old(Now()))
    {
      ghost var was := cells[..];
      var start := (rows - 1) * cols;
      IndexInside(cols, rows, rows - 1, 0);
      CopyDown(cols);
      BlankRange(start, cols);
      scrollCount := scrollCount + 1;
      CopiedAndBlanked(was, start, cols, rows, Blank(defaultFg, defaultBg));
    }

    /** Copies the buffer from `d` on to its front; the last `d` cells keep their contents. */
    method CopyDown(d: nat)
      requires d <= cells.Length
      modifies cells
      ensures cells[..] == Copied(old(cells[..]), d)
    {
      ghost var was := cells[..];
      for i := 0 to cells.Length - d
        invariant forall j :: 0 <= j < i ==> cells[j] == was[j + d]
        invariant forall j :: i <= j < cells.Length ==> cells[j] == was[j]
      {
        cells[i] := cells[i + d];
      }
      CopiedCells(was, cells[..], d);
    }

    method BlankRange(start: nat, n: nat)
      requires start + n <= cells.Length
      modifies cells
      ensures cells[..] == Overwritten(old(cells[..]), start, n, Blank(defaultFg, defaultBg))
    {
      for k := start to start + n
        invariant forall j :: 0 <= j < cells.Length ==>
                    cells[j] == if start <= j < k then Blank(defaultFg, defaultBg) else old(cells[j])
      {
        cells[k] := Blank(defaultFg, defaultBg);
      }
    }
  }

  /** Opens a grid over a buffer; null when there is no cell to show or the buffer is too small. */
  method Open(cells: array<Cell>, cols: nat, rows: nat) returns (grid: TextGrid?)
    ensures grid != null <==> cols > 0 && rows > 0 && cols * rows <= cells.Length
    ensures grid != null ==>
              && fresh(grid) && grid.Valid() && grid.cells == cells
              && grid.Now() == Screen(cells[..], cols, rows, 0, 0, Blank(DEFAULT_FG, DEFAULT_BG), 0)
  {
    var needed := cols * rows;
    if cols == 0 || rows == 0 || needed > cells.Length {
      return null;
    }
    grid := new TextGrid(cells, cols, rows);
  }

  function Cleared(s: Screen, fg: Rgb, bg: Rgb): Screen {
    Screen(seq(|s.cells|, _ => Blank(fg, bg)), s.cols, s.rows, 0, 0, Blank(fg, bg), 0)
  }
}
