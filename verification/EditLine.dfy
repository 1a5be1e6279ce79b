/** The console's in-progress line: what one repaint of it does to the cells, and whole editing histories. */
module EditLines {
  import opened Bits
  import opened Pixels
  import opened Grid
  import opened Terminal
  import opened Keys
  import opened LineEditing

  /** The console's fields as a value. */
  datatype Con = Con(
    cells: seq<Cell>, cols: nat, rows: nat, cursorRow: nat, cursorCol: nat, fg: Rgb, bg: Rgb,
    editRow: nat, editCol: nat, editedCells: nat)
  {
    /** There is a grid, and the buffer holds it. */
    predicate Sized() {
      cols > 0 && rows > 0 && cols * rows <= |cells|
    }

    predicate Ok() {
      Sized() && editRow < rows && editCol < cols
    }

    function Origin(): int {
      Index(cols, editRow, editCol)
    }

    function Total(): int {
      rows * cols
    }
  }

  /** The cells the editor drew before, blanked. */
  function Blanked(c: Con): (r: seq<Cell>)
    ensures |r| == |c.cells|
  {
    seq(|c.cells|, i requires 0 <= i < |c.cells| =>
      if c.Origin() <= i < c.Origin() + c.editedCells && i < c.Total() then Blank(c.fg, c.bg) else c.cells[i])
  }

  /** The grid before the line is drawn: the old cells blanked, the cursor at the edit's origin. */
  function EditStart(c: Con): Screen {
    Screen(Blanked(c), c.cols, c.rows, c.editRow, c.editCol, Blank(DEFAULT_FG, DEFAULT_BG), 0)
  }

  /** The grid once the line was drawn from the edit origin. */
  function Drawn(c: Con, chars: seq<char>): Screen {
    AfterAll(EditStart(c), chars, c.fg, c.bg)
  }

  function Monus(a: int, b: int): nat {
    if a > b then a - b else 0
  }

  /** One call of `set_edit_line`. */
  function EditLine(c: Con, chars: seq<char>): Con {
    if chars == [] && c.editedCells == 0 then c
    else
      var s := Drawn(c, chars);
      c.(cells := s.cells, cursorRow := s.row, cursorCol := s.col,
         editedCells := Monus(Index(c.cols, s.row, s.col), c.Origin()),
         editRow := if s.scrolls > 0 then Monus(c.editRow, s.scrolls) else c.editRow)
  }

  // ----- typed characters only move forward -----

  function Overlay(cells: seq<Cell>, at: int, chars: seq<char>, fg: Rgb, bg: Rgb): (r: seq<Cell>)
    ensures |r| == |cells|
  {
    seq(|cells|, i requires 0 <= i < |cells| =>
      if at <= i < at + |chars| then Cell(chars[i - at], fg, bg) else cells[i])
  }

  lemma OverlayMore(cells: seq<Cell>, at: int, chars: seq<char>, fg: Rgb, bg: Rgb)
    requires chars != [] && 0 <= at && at + |chars| <= |cells|
    ensures var n := |chars| - 1;
            Overlay(cells, at, chars, fg, bg)
            == Overlay(cells, at, chars[..n], fg, bg)[at + n := Cell(chars[n], fg, bg)]
  {
  }

  /** Where the cursor stands, counting scrolled-away rows. */
  function Travelled(s: Screen): int {
    Index(s.cols, s.row, s.col) + s.cols * s.scrolls
  }

  lemma PutTyped(s: Screen, c: char, fg: Rgb, bg: Rgb)
    requires s.Ok() && s.col < s.cols && IsTyped(c)
    ensures var s', at := AfterPut(s, c, fg, bg), Index(s.cols, s.row, s.col);
            && s'.Ok() && s'.col < s'.cols && s'.cols == s.cols && s'.rows == s.rows
            && 0 <= at < s.cols * s.rows
            && Travelled(s') == Travelled(s) + 1
            && (at + 1 < s.cols * s.rows ==> s'.scrolls == s.scrolls && s'.cells == s.cells[at := Cell(c, fg, bg)])
            && (at + 1 == s.cols * s.rows ==>
                  && s'.scrolls == s.scrolls + 1
                  && s' == AfterScroll(s.(cells := s.cells[at := Cell(c, fg, bg)], col := 0)))
  {
    IndexInside(s.cols, s.rows, s.row, s.col);
    if s.col + 1 >= s.cols {
      if s.row + 1 < s.rows {
        IndexInside(s.cols, s.rows, s.row + 1, 0);
      } else {
        assert Index(s.cols, s.rows - 1, s.cols - 1) == s.cols * s.rows - 1;
      }
    } else {
      IndexInside(s.cols, s.rows, s.row, s.col + 1);
    }
    assert s.cols * (s.scrolls + 1) == s.cols * s.scrolls + s.cols;
  }

  /** A typed text that does not reach the grid's end is overlaid where the cursor was; any other scrolls. */
  lemma {:induction false} TypedRun(s: Screen, chars: seq<char>, fg: Rgb, bg: Rgb)
    requires s.Ok() && s.col < s.cols && AllTyped(chars)
    ensures var s', at := AfterAll(s, chars, fg, bg), Index(s.cols, s.row, s.col);
            && s'.Ok() && s'.col < s'.cols && s'.cols == s.cols && s'.rows == s.rows
            && Travelled(s') == Travelled(s) + |chars|
            && s'.scrolls >= s.scrolls
            && (s'.scrolls == s.scrolls <==> at + |chars| < s.cols * s.rows)
            && (at + |chars| < s.cols * s.rows ==> 0 <= at && s'.cells == Overlay(s.cells, at, chars, fg, bg))
  {
    IndexInside(s.cols, s.rows, s.row, s.col);
    var at := Index(s.cols, s.row, s.col);
    if chars == [] {
      assert s.cells == Overlay(s.cells, at, [], fg, bg);
    } else {
      var n := |chars| - 1;
      TypedRun(s, chars[..n], fg, bg);
      var s1 := AfterAll(s, chars[..n], fg, bg);
      PutTyped(s1, chars[n], fg, bg);
      if at + |chars| <= s.cols * s.rows {
        OverlayMore(s.cells, at, chars, fg, bg);
      }
    }
  }

  // ----- one repaint -----

  lemma OriginInside(c: Con)
    requires c.Ok()
    ensures 0 <= c.Origin() < c.Total() <= |c.cells|
  {
    IndexInside(c.cols, c.rows, c.editRow, c.editCol);
    assert c.rows * c.cols == c.cols * c.rows;
  }

  /** A repaint that does not scroll: the old line blanked, the new one overlaid, and counted. */
  lemma EditLineQuiet(c: Con, chars: seq<char>)
    requires c.Ok() && AllTyped(chars) && c.Origin() + |chars| < c.Total()
    ensures var c' := EditLine(c, chars);
            && c'.cells == Overlay(Blanked(c), c.Origin(), chars, c.fg, c.bg)
            && c'.editedCells == |chars|
            && c' == c.(cells := c'.cells, editedCells := |chars|,
                        cursorRow := c'.cursorRow, cursorCol := c'.cursorCol)
  {
    OriginInside(c);
    if chars == [] && c.editedCells == 0 {
      assert Overlay(Blanked(c), c.Origin(), chars, c.fg, c.bg) == c.cells;
    } else {
      TypedRun(EditStart(c), chars, c.fg, c.bg);
      assert Drawn(c, chars).scrolls == 0;
      assert c.cols * 0 == 0;
    }
  }

  /** The console counts exactly the cells of the line it drew when the line ends before the grid does. */
  lemma EditedCellsExactly(c: Con, chars: seq<char>)
    requires c.Ok() && AllTyped(chars)
    ensures EditLine(c, chars).editedCells == |chars| <==> c.Origin() + |chars| < c.Total()
  {
    OriginInside(c);
    if c.Origin() + |chars| < c.Total() {
      EditLineQuiet(c, chars);
    } else {
      TypedRun(EditStart(c), chars, c.fg, c.bg);
      var s := Drawn(c, chars);
      MulMonotone(1, s.scrolls, s.cols);
      assert c.cols * 0 == 0;
    }
  }

  /** What every repaint keeps, scrolling or not. */
  lemma EditLineOk(c: Con, chars: seq<char>)
    requires c.Ok()
    ensures var c' := EditLine(c, chars);
            && c'.Ok() && |c'.cells| == |c.cells| && c'.cols == c.cols && c'.rows == c.rows
            && c'.fg == c.fg && c'.bg == c.bg && c'.editCol == c.editCol
            && (c.cursorRow < c.rows && c.cursorCol <= c.cols ==> c'.cursorRow < c.rows && c'.cursorCol <= c.cols)
            && (c.cursorCol < c.cols && AllTyped(chars) ==> c'.cursorCol < c.cols)
  {
    var s := EditStart(c);
    KeepsGeometry(s, chars, c.fg, c.bg);
    ParkedAtMost(c.editCol, c.cols, chars);
    if AllTyped(chars) { TypedRun(s, chars, c.fg, c.bg); }
  }

  lemma {:induction false} ParkedAtMost(col: nat, cols: nat, text: seq<char>)
    requires col <= cols
    ensures ColAfter(col, cols, text) <= cols
  {
    if text != [] { ParkedAtMost(col, cols, text[..|text| - 1]); }
  }

  // ----- any line that only moves forward -----

  /** No carriage return, and nothing printed from a parked cursor: the cursor and the writes only move forward. */
  predicate Forward(c: Con, chars: seq<char>) {
    '\r' !in chars && PrintsInside(c.editCol, c.cols, chars)
  }

  lemma PutForward(s: Screen, c: char, fg: Rgb, bg: Rgb)
    requires s.Ok() && c != '\r' && (IsPrinting(c) ==> s.col < s.cols)
    ensures var s', at := AfterPut(s, c, fg, bg), Index(s.cols, s.row, s.col);
            && s'.Ok() && |s'.cells| == |s.cells| && s'.scrolls >= s.scrolls
            && (s'.scrolls == s.scrolls ==>
                  && at <= Index(s.cols, s'.row, s'.col)
                  && forall i :: 0 <= i < |s.cells| && !(at <= i < Index(s.cols, s'.row, s'.col)) ==>
                       s'.cells[i] == s.cells[i])
  {
    MulNext(s.cols, s.row);
  }

  /** Without a scroll, only cells between the first and the last cursor position differ. */
  lemma {:induction false} ForwardRun(s: Screen, chars: seq<char>, fg: Rgb, bg: Rgb)
    requires s.Ok() && '\r' !in chars && PrintsInside(s.col, s.cols, chars)
    ensures var s', at := AfterAll(s, chars, fg, bg), Index(s.cols, s.row, s.col);
            && s'.Ok() && |s'.cells| == |s.cells| && s'.cols == s.cols && s'.scrolls >= s.scrolls
            && (s'.scrolls == s.scrolls ==>
                  && at <= Index(s.cols, s'.row, s'.col)
                  && forall i :: 0 <= i < |s.cells| && !(at <= i < Index(s.cols, s'.row, s'.col)) ==>
                       s'.cells[i] == s.cells[i])
  {
    if chars != [] {
      var n := |chars| - 1;
      ForwardRun(s, chars[..n], fg, bg);
      KeepsGeometry(s, chars[..n], fg, bg);
      PutForward(AfterAll(s, chars[..n], fg, bg), chars[n], fg, bg);
    }
  }

  /** A repaint of a forward line that does not scroll changes nothing but what the old and the new line cover. */
  lemma ForwardCovers(c: Con, chars: seq<char>)
    requires c.Ok() && Forward(c, chars) && Drawn(c, chars).scrolls == 0
    ensures var c' := EditLine(c, chars);
            && |c'.cells| == |c.cells|
            && forall i :: 0 <= i < |c.cells| && !Covered(c, c', i) ==> c'.cells[i] == c.cells[i]
  {
    ForwardRun(EditStart(c), chars, c.fg, c.bg);
  }

  /** Whether the line drawn before or the new one covers cell `i`. */
  predicate Covered(c: Con, c': Con, i: int) {
    c.Origin() <= i < c.Origin() + c.editedCells || c.Origin() <= i < c.Origin() + c'.editedCells
  }

  lemma ForwardStays(c: Con, chars: seq<char>)
    requires c.Ok() && Forward(c, chars)
    ensures StaysInside(EditStart(c), chars, c.fg, c.bg)
  {
    PrintsStayInside(EditStart(c), chars, c.fg, c.bg);
  }

  /** A typed line moves forward. */
  lemma TypedForward(c: Con, chars: seq<char>)
    requires c.Ok() && AllTyped(chars)
    ensures Forward(c, chars)
  {
    assert forall i :: 0 <= i < |chars| ==> IsTyped(chars[i]);
    NoTabsLand(c.editCol, c.cols, chars);
    LandedPrintsInside(c.editCol, c.cols, chars);
  }

  // ----- whole histories -----

  ghost predicate BlankFrom(c: Con) {
    forall i :: c.Origin() <= i < c.Total() && 0 <= i < |c.cells| ==> c.cells[i] == Blank(c.fg, c.bg)
  }

  /** The console as `begin_edit` left it, overlaid with the line drawn since. */
  ghost predicate Overlaid(c0: Con, c: Con, line: seq<char>) {
    && c.cells == Overlay(c0.cells, c0.Origin(), line, c0.fg, c0.bg)
    && c.editedCells == |line|
    && c == c0.(cells := c.cells, editedCells := |line|, cursorRow := c.cursorRow, cursorCol := c.cursorCol)
  }

  lemma OverlaidNext(c0: Con, c: Con, line: seq<char>, chars: seq<char>)
    requires c0.Ok() && BlankFrom(c0) && Overlaid(c0, c, line)
    requires AllTyped(chars) && c0.Origin() + |line| < c0.Total() && c0.Origin() + |chars| < c0.Total()
    ensures Overlaid(c0, EditLine(c, chars), chars)
  {
    OriginInside(c0);
    EditLineQuiet(c, chars);
    OverlaidBlanks(c0, c, line);
  }

  /** Blanking the drawn line restores the snapshot. */
  lemma OverlaidBlanks(c0: Con, c: Con, line: seq<char>)
    requires c0.Ok() && BlankFrom(c0) && Overlaid(c0, c, line) && c0.Origin() + |line| < c0.Total()
    ensures c.Ok() && Blanked(c) == c0.cells
  {
    OriginInside(c0);
    assert c.Origin() == c0.Origin() && c.Total() == c0.Total();
    forall i | 0 <= i < |c0.cells| ensures Blanked(c)[i] == c0.cells[i] {
      assert c.cells[i] == Overlay(c0.cells, c0.Origin(), line, c0.fg, c0.bg)[i];
    }
  }

  /** What the shell does with one key event: the editor's line changes and the console repaints it. */
  function KeyStep(c: Con, line: seq<char>, event: KeyEvent): Con {
    match ActionFor(line, event)
    case Inserted => EditLine(c, LineAfter(line, event))
    case Erased => EditLine(c, LineAfter(line, event))
    case _ => c
  }

  function KeyRun(c: Con, events: seq<KeyEvent>): Con {
    if events == [] then c
    else
      var n := |events| - 1;
      KeyStep(KeyRun(c, events[..n]), LineOf([], events[..n]), events[n])
  }

  lemma {:induction false} LineIsTyped(events: seq<KeyEvent>)
    ensures AllTyped(LineOf([], events)) && |LineOf([], events)| <= MAX_LINE_CHARS
  {
    if events != [] { LineIsTyped(events[..|events| - 1]); }
  }

  /** Whether a line drawn from where the edit began reaches the end of the grid. */
  predicate Full(c0: Con, line: seq<char>) {
    c0.Origin() + |line| >= c0.Total()
  }

  /** Whether any line of a history reached the end of the grid. */
  predicate EverFull(c0: Con, events: seq<KeyEvent>) {
    Full(c0, LineOf([], events)) || (events != [] && EverFull(c0, events[..|events| - 1]))
  }

  /**
   * However a line was typed, the cells are the snapshot taken when the edit began, overlaid with the line
   * now in the editor: two histories that leave the same line leave the same screen.
   */
  lemma {:induction false} HistoryIndependent(c0: Con, events: seq<KeyEvent>)
    requires c0.Ok() && c0.editedCells == 0 && BlankFrom(c0) && !EverFull(c0, events)
    ensures Overlaid(c0, KeyRun(c0, events), LineOf([], events))
  {
    if events == [] {
      assert Overlay(c0.cells, c0.Origin(), [], c0.fg, c0.bg) == c0.cells;
    } else {
      var n := |events| - 1;
      var before := events[..n];
      HistoryIndependent(c0, before);
      var line := LineOf([], before);
      LineIsTyped(before);
      LineIsTyped(events);
      if ActionFor(line, events[n]).Inserted? || ActionFor(line, events[n]).Erased? {
        OverlaidNext(c0, KeyRun(c0, before), line, LineAfter(line, events[n]));
      } else {
        ActionTellsChange(line, events[n]);
      }
    }
  }

  /** A line that scrolls and is then shortened leaves a stale character behind. */
  lemma ScrollLeavesStale(fg: Rgb, bg: Rgb)
    ensures var b := Blank(fg, bg);
            var c := Con([b, b, b, b], 2, 2, 1, 0, fg, bg, 1, 0, 0);
            var c2 := EditLine(EditLine(c, "ab"), "a");
            c2.editRow == 0 && c2.editedCells == 1
            && |c2.cells| == 4 && c2.cells[0] == Cell('a', fg, bg) && c2.cells[1] == Cell('b', fg, bg)
  {
    var b := Blank(fg, bg);
    var c := Con([b, b, b, b], 2, 2, 1, 0, fg, bg, 1, 0, 0);
    var d := Blank(DEFAULT_FG, DEFAULT_BG);
    var s0 := Screen([b, b, b, b], 2, 2, 1, 0, d, 0);
    assert Blanked(c) == [b, b, b, b];
    assert "ab"[..1] == "a" && "a"[..0] == "";
    var s1 := AfterPut(s0, 'a', fg, bg);
    assert s1 == Screen([b, b, Cell('a', fg, bg), b], 2, 2, 1, 1, d, 0);
    var s2 := AfterPut(s1, 'b', fg, bg);
    assert s2.cells == [Cell('a', fg, bg), Cell('b', fg, bg), d, d];
    assert AfterAll(s0, "a", fg, bg) == s1;
    assert Drawn(c, "ab") == s2;
    var c1 := EditLine(c, "ab");
    assert c1.editedCells == 0 && c1.editRow == 0;
    assert Blanked(c1) == s2.cells;
    var s2' := Screen(s2.cells, 2, 2, 0, 0, d, 0);
    var s3 := AfterPut(s2', 'a', fg, bg);
    assert AfterAll(s2', "a"[..0], fg, bg) == s2';
    assert AfterAll(s2', "a", fg, bg) == s3;
    assert Drawn(c1, "a") == s3;
    assert s3.cells == [Cell('a', fg, bg), Cell('b', fg, bg), d, d];
  }
}
