/** Histories of an edited line to the end of the grid and past it: exactly when the screen keeps showing the line. */
module EditHistories {
  import opened Bits
  import opened Grid
  import opened Terminal
  import opened Keys
  import opened LineEditing
  import opened EditLines

  // ----- what can be seen of a line that fills the grid -----

  const DARK := Blank(DEFAULT_FG, DEFAULT_BG)

  /** Every cell of the grid shows the snapshot overlaid with the line. */
  ghost predicate ShowsLine(c0: Con, c: Con, line: seq<char>) {
    && |c.cells| == |c0.cells|
    && forall i :: 0 <= i < c0.Total() && i < |c0.cells| ==>
         c.cells[i] == Overlay(c0.cells, c0.Origin(), line, c0.fg, c0.bg)[i]
  }

  /** It has done so after every event of a history. */
  ghost predicate ShowsThroughout(c0: Con, events: seq<KeyEvent>) {
    && ShowsLine(c0, KeyRun(c0, events), LineOf([], events))
    && (events == [] || ShowsThroughout(c0, events[..|events| - 1]))
  }

  /** The whole grid is blank, in the colours in which a scroll blanks a row. */
  predicate Dark(c: Con) {
    && c.fg == DEFAULT_FG && c.bg == DEFAULT_BG
    && forall i :: 0 <= i < c.Total() && i < |c.cells| ==> c.cells[i] == DARK
  }

  /** In a grid of one row, a character typed into the last column of a later page scrolls away at once. */
  predicate GoneAtOnce(c0: Con, j: int)
    requires c0.cols > 0
  {
    c0.rows == 1 && c0.Origin() + j >= c0.cols && (c0.Origin() + j) % c0.cols == c0.cols - 1
  }

  /** The line has nothing to show: only spaces, and characters gone at once. */
  predicate NothingSeen(c0: Con, line: seq<char>)
    requires c0.cols > 0
  {
    forall j :: 0 <= j < |line| ==> line[j] == ' ' || GoneAtOnce(c0, j)
  }

  /**
   * Whether the end of the grid matters to the present line: below the top row any earlier line that filled
   * the grid has moved the edit's origin for good; in the top row the origin cannot move.
   */
  predicate Reached(c0: Con, events: seq<KeyEvent>) {
    if c0.editRow > 0 then EverFull(c0, events) else Full(c0, LineOf([], events))
  }

  /** Whenever the end of the grid matters, the screen is dark and the line has nothing to show. */
  predicate Harmless(c0: Con, events: seq<KeyEvent>)
    requires c0.cols > 0
  {
    && (Reached(c0, events) ==> Dark(c0) && NothingSeen(c0, LineOf([], events)))
    && (events == [] || Harmless(c0, events[..|events| - 1]))
  }

  lemma ScrolledIndex(s: Screen, i: int)
    requires s.Sized() && 0 <= i < s.cols * s.rows
    ensures AfterScroll(s).cells[i] == if i + s.cols < s.cols * s.rows then s.cells[i + s.cols] else s.blank
  {
    assert (s.rows - 1) * s.cols == s.cols * s.rows - s.cols;
    assert s.rows * s.cols == s.cols * s.rows;
  }

  /** The character at place `i` of an endless dark row on which `chars` stand from `at` on. */
  function TapeAt(at: int, chars: seq<char>, i: int): char {
    if at <= i < at + |chars| then chars[i - at] else ' '
  }

  /** The grid shows a tape, scrolled along by `d` places. */
  ghost predicate ShowsTape(s: Screen, at: int, chars: seq<char>, d: int) {
    forall i :: 0 <= i < s.cols * s.rows && i < |s.cells| ==>
      s.cells[i] == Cell(TapeAt(at, chars, i + d), DEFAULT_FG, DEFAULT_BG)
  }

  lemma TapeMore(s: Screen, at: int, chars: seq<char>, d: int)
    requires s.Ok() && s.col < s.cols && s.blank == DARK && chars != [] && IsTyped(chars[|chars| - 1])
    requires ShowsTape(s, at, chars[..|chars| - 1], d) && Index(s.cols, s.row, s.col) + d == at + |chars| - 1
    ensures var s' := AfterPut(s, chars[|chars| - 1], DEFAULT_FG, DEFAULT_BG);
            ShowsTape(s', at, chars, if s'.scrolls == s.scrolls then d else d + s.cols)
  {
    var c := chars[|chars| - 1];
    var s' := AfterPut(s, c, DEFAULT_FG, DEFAULT_BG);
    var place := Index(s.cols, s.row, s.col);
    PutTyped(s, c, DEFAULT_FG, DEFAULT_BG);
    if place + 1 == s.cols * s.rows {
      var s1 := s.(cells := s.cells[place := Cell(c, DEFAULT_FG, DEFAULT_BG)], col := 0);
      forall i | 0 <= i < s.cols * s.rows
        ensures s'.cells[i] == Cell(TapeAt(at, chars, i + d + s.cols), DEFAULT_FG, DEFAULT_BG)
      {
        ScrolledIndex(s1, i);
      }
    }
  }

  lemma TapeStep(s: Screen, at: int, chars: seq<char>)
    requires s.Ok() && s.col < s.cols && s.blank == DARK && chars != [] && IsTyped(chars[|chars| - 1])
    requires ShowsTape(s, at, chars[..|chars| - 1], s.cols * s.scrolls) && Travelled(s) == at + |chars| - 1
    requires s.scrolls > 0 ==> s.row == s.rows - 1
    ensures var s' := AfterPut(s, chars[|chars| - 1], DEFAULT_FG, DEFAULT_BG);
            ShowsTape(s', at, chars, s'.cols * s'.scrolls) && (s'.scrolls > 0 ==> s'.row == s'.rows - 1)
  {
    var s', d := AfterPut(s, chars[|chars| - 1], DEFAULT_FG, DEFAULT_BG), s.cols * s.scrolls;
    TapeMore(s, at, chars, d);
    MulNext(s.cols, s.scrolls);
    if s'.scrolls != s.scrolls { assert s'.scrolls == s.scrolls + 1; }
  }

  /** Typing on a dark grid: a scrolled grid shows the last page, with the cursor in its bottom row. */
  lemma {:induction false} DarkRun(s: Screen, chars: seq<char>)
    requires s.Ok() && s.col < s.cols && s.scrolls == 0 && s.blank == DARK && AllTyped(chars)
    requires forall i :: 0 <= i < s.cols * s.rows ==> s.cells[i] == DARK
    ensures var s', at := AfterAll(s, chars, DEFAULT_FG, DEFAULT_BG), Index(s.cols, s.row, s.col);
            && ShowsTape(s', at, chars, s.cols * s'.scrolls)
            && (s'.scrolls > 0 ==> s'.row == s.rows - 1)
  {
    TypedRun(s, chars, DEFAULT_FG, DEFAULT_BG);
    if chars != [] {
      var n := |chars| - 1;
      var s1 := AfterAll(s, chars[..n], DEFAULT_FG, DEFAULT_BG);
      DarkRun(s, chars[..n]);
      TypedRun(s, chars[..n], DEFAULT_FG, DEFAULT_BG);
      KeepsGeometry(s, chars[..n], DEFAULT_FG, DEFAULT_BG);
      TapeStep(s1, Index(s.cols, s.row, s.col), chars);
    }
  }

  /** Blanking what the editor drew leaves the grid dark. */
  ghost predicate Clears(c: Con) {
    && c.fg == DEFAULT_FG && c.bg == DEFAULT_BG
    && forall i :: 0 <= i < c.Total() && i < |c.cells| ==> Blanked(c)[i] == DARK
  }

  /** One repaint on a grid that it first makes dark. */
  lemma DarkDraw(c: Con, chars: seq<char>) returns (scrolls: nat, place: int)
    requires c.Ok() && Clears(c) && AllTyped(chars)
    ensures var c' := EditLine(c, chars);
            && 0 <= place < c.Total() && place + c.cols * scrolls == c.Origin() + |chars|
            && (scrolls > 0 ==> place >= c.Total() - c.cols)
            && (scrolls > 0 <==> c.Origin() + |chars| >= c.Total())
            && |c'.cells| == |c.cells|
            && c'.editRow == Monus(c.editRow, scrolls)
            && (forall i :: 0 <= i < c.Total() && i < |c'.cells| ==>
                  c'.cells[i] == Cell(TapeAt(c.Origin(), chars, i + c.cols * scrolls), DEFAULT_FG, DEFAULT_BG))
            && (scrolls == 0 ==> c'.editedCells == |chars|)
  {
    OriginInside(c);
    var s := Screen(Blanked(c), c.cols, c.rows, c.editRow, c.editCol, DARK, 0);
    TypedRun(s, chars, c.fg, c.bg);
    DarkRun(s, chars);
    KeepsGeometry(s, chars, c.fg, c.bg);
    var s' := Drawn(c, chars);
    scrolls, place := s'.scrolls, Index(c.cols, s'.row, s'.col);
    IndexInside(c.cols, c.rows, s'.row, s'.col);
    assert c.cols * 0 == 0;
    if chars == [] && c.editedCells == 0 { assert Blanked(c) == c.cells; }
  }

  // ----- tapes that look the same -----

  /** The page `d` places along the tape from `at` looks like the first page of the tape from `at0`. */
  ghost predicate SamePage(at0: int, at: int, d: int, total: int, chars: seq<char>) {
    forall i :: 0 <= i < total ==> TapeAt(at, chars, i + d) == TapeAt(at0, chars, i)
  }

  lemma {:induction false} PeriodBlank(at: int, chars: seq<char>, total: int, cols: int, i: int)
    requires cols > 0 && 0 <= at && at + |chars| <= total && SamePage(at, at, cols, total, chars)
    ensures TapeAt(at, chars, i) == ' '
    decreases total - i
  {
    if 0 <= i < total { PeriodBlank(at, chars, total, cols, i + cols); }
  }

  ghost predicate Spaces(chars: seq<char>) {
    forall j :: 0 <= j < |chars| ==> chars[j] == ' '
  }

  /** A line that fills the grid to the last cell scrolls by one row: nothing changes only if it is all spaces. */
  lemma JustFull(at: int, chars: seq<char>, total: int, cols: int)
    requires cols > 0 && 0 <= at && at + |chars| == total
    ensures SamePage(at, at, cols, total, chars) <==> Spaces(chars)
  {
    if SamePage(at, at, cols, total, chars) {
      forall j | 0 <= j < |chars| ensures chars[j] == ' ' {
        PeriodBlank(at, chars, total, cols, at + j);
        assert TapeAt(at, chars, at + j) == chars[j];
      }
    }
  }

  /** From an origin further up, a line of spaces but for its last character looks right only if that is one too. */
  lemma MovedPage(at0: int, at: int, d: int, total: int, chars: seq<char>)
    requires 0 <= at < at0 && 0 <= d && chars != [] && Spaces(chars[..|chars| - 1])
    requires 1 <= at + |chars| - d <= total
    ensures SamePage(at0, at, d, total, chars) <==> Spaces(chars)
  {
    var n := |chars| - 1;
    assert forall j :: 0 <= j < n ==> chars[..n][j] == chars[j];
    if SamePage(at0, at, d, total, chars) {
      var i := at + n - d;
      assert TapeAt(at, chars, i + d) == chars[n];
      assert TapeAt(at0, chars, i) == ' ';
    }
  }

  lemma LastColumn(p: int, cols: int, page: int, place: int)
    requires cols > 0 && 0 <= place < cols && p == cols * page + place
    ensures p % cols == place
  {
    DivModUnique(p, cols, page, place);
  }

  /** Past the first page: with nothing seen so far, the pages agree exactly when the last character is unseen too. */
  lemma LaterPage(c0: Con, chars: seq<char>, scrolls: nat, place: int)
    requires chars != [] && c0.Ok() && c0.Origin() + |chars| > c0.Total() && NothingSeen(c0, chars[..|chars| - 1])
    requires scrolls > 0 && 0 <= place < c0.Total() && place >= c0.Total() - c0.cols
    requires place + c0.cols * scrolls == c0.Origin() + |chars|
    ensures SamePage(c0.Origin(), c0.Origin(), c0.cols * scrolls, c0.Total(), chars) <==> NothingSeen(c0, chars)
  {
    var at, n, d, total := c0.Origin(), |chars| - 1, c0.cols * scrolls, c0.Total();
    OriginInside(c0);
    FirstPageSpaces(c0, chars[..n]);
    assert forall j :: 0 <= j < n ==> chars[..n][j] == chars[j];
    RowsApart(c0);
    if SamePage(at, at, d, total, chars) {
      LastUnseen(c0, chars, scrolls, place);
    }
    if NothingSeen(c0, chars) {
      forall i | 0 <= i < total ensures TapeAt(at, chars, i + d) == TapeAt(at, chars, i) {
        if c0.rows == 1 { LastColumn(i + d, c0.cols, scrolls, i); }
      }
    }
  }

  /** One row is the whole grid; two or more leave room above the bottom row. */
  lemma RowsApart(c0: Con)
    requires c0.Ok()
    ensures c0.rows == 1 ==> c0.Total() == c0.cols
    ensures c0.rows > 1 ==> c0.Total() >= 2 * c0.cols
  {
    if c0.rows > 1 { MulMonotone(2, c0.rows, c0.cols); }
  }

  lemma FirstPageSpaces(c0: Con, line: seq<char>)
    requires c0.Ok() && NothingSeen(c0, line)
    ensures forall j :: 0 <= j < |line| && c0.Origin() + j < c0.Total() ==> line[j] == ' '
  {
    RowsApart(c0);
  }

  lemma GoneLast(c0: Con, n: nat, page: nat)
    requires c0.cols > 0 && c0.rows == 1 && c0.Origin() + n >= c0.cols
    requires page > 0 && c0.cols * page == c0.Origin() + n + 1
    ensures GoneAtOnce(c0, n)
  {
    var p, cols := c0.Origin() + n, c0.cols;
    assert cols * (page - 1) == cols * page - cols;
    LastColumn(p, cols, page - 1, cols - 1);
  }

  lemma LastUnseen(c0: Con, chars: seq<char>, scrolls: nat, place: int)
    requires chars != [] && c0.Ok() && c0.Origin() + |chars| > c0.Total() && NothingSeen(c0, chars[..|chars| - 1])
    requires scrolls > 0 && 0 <= place < c0.Total() && place >= c0.Total() - c0.cols
    requires place + c0.cols * scrolls == c0.Origin() + |chars|
    requires SamePage(c0.Origin(), c0.Origin(), c0.cols * scrolls, c0.Total(), chars)
    ensures NothingSeen(c0, chars)
  {
    var at, n, d := c0.Origin(), |chars| - 1, c0.cols * scrolls;
    OriginInside(c0);
    RowsApart(c0);
    FirstPageSpaces(c0, chars[..n]);
    assert forall j :: 0 <= j < n ==> chars[..n][j] == chars[j];
    if place > 0 {
      assert TapeAt(at, chars, place - 1 + d) == chars[n];
      assert TapeAt(at, chars, place - 1) == ' ';
    } else {
      GoneLast(c0, n, scrolls);
    }
  }

  // ----- one key on a dark screen -----

  /** Where an edit stands that began as `c0`: the same but for cells, cursor, count and, once moved up, its row. */
  ghost predicate Follows(c0: Con, c: Con) {
    && |c.cells| == |c0.cells| && c.cols == c0.cols && c.rows == c0.rows && c.fg == c0.fg && c.bg == c0.bg
    && c.editCol == c0.editCol && (c.editRow == c0.editRow || c.editRow < c0.editRow)
  }

  /** Whether the end of the grid matters to a line drawn from where the edit now stands. */
  predicate Matters(c0: Con, c: Con, line: seq<char>) {
    c.editRow < c0.editRow || Full(c0, line)
  }

  /** The line but for its last character, if the end of the grid matters to it, has nothing to show. */
  predicate SoFarUnseen(c0: Con, c: Con, line: seq<char>)
    requires c0.cols > 0
  {
    line == [] || (Matters(c0, c, line[..|line| - 1]) ==> NothingSeen(c0, line[..|line| - 1]))
  }

  lemma RowMoved(c0: Con, c: Con)
    requires c0.Ok() && Follows(c0, c) && c.editRow < c0.editRow
    ensures c.Origin() < c0.Origin() && c0.rows > 1
  {
    MulMonotone(c.editRow + 1, c0.editRow, c0.cols);
  }

  lemma ScrollDistance(cols: nat, scrolls: nat)
    ensures scrolls == 0 ==> cols * scrolls == 0
    ensures scrolls > 0 ==> cols * scrolls >= cols
  {
    if scrolls > 0 { MulMonotone(1, scrolls, cols); }
  }

  /** Once the origin has moved up. */
  lemma MovedAgree(c0: Con, c: Con, line: seq<char>, d: nat, place: int)
    requires c0.Ok() && c.Ok() && Follows(c0, c) && c.editRow < c0.editRow && SoFarUnseen(c0, c, line)
    requires 0 <= c.Origin() && 0 <= place < c0.Total() && place + d == c.Origin() + |line|
    requires d > 0 ==> place >= c0.Total() - c0.cols
    ensures SamePage(c0.Origin(), c.Origin(), d, c0.Total(), line) <==> NothingSeen(c0, line)
  {
    RowMoved(c0, c);
    RowsApart(c0);
    if line != [] { MovedPage(c0.Origin(), c.Origin(), d, c0.Total(), line); }
  }

  lemma FirstPageUnseen(c0: Con, line: seq<char>)
    requires c0.Ok() && c0.Origin() + |line| <= c0.Total()
    ensures NothingSeen(c0, line) <==> Spaces(line)
  {
    if NothingSeen(c0, line) { FirstPageSpaces(c0, line); }
  }

  /** While the origin stays, a line that reaches the end of the grid. */
  lemma FullAgree(c0: Con, line: seq<char>, scrolls: nat, d: int, place: int)
    requires c0.Ok() && line != [] && 0 <= c0.Origin() && c0.Origin() + |line| >= c0.Total() > c0.Origin()
    requires Full(c0, line[..|line| - 1]) ==> NothingSeen(c0, line[..|line| - 1])
    requires scrolls > 0 && d == c0.cols * scrolls && d >= c0.cols
    requires 0 <= place < c0.Total() && place + d == c0.Origin() + |line| && place >= c0.Total() - c0.cols
    ensures SamePage(c0.Origin(), c0.Origin(), d, c0.Total(), line) <==> NothingSeen(c0, line)
  {
    if c0.Origin() + |line| == c0.Total() {
      assert d == c0.cols;
      JustFull(c0.Origin(), line, c0.Total(), c0.cols);
      FirstPageUnseen(c0, line);
    } else {
      LaterPage(c0, line, scrolls, place);
    }
  }

  lemma PagesAgree(c0: Con, c: Con, line: seq<char>, scrolls: nat, place: int)
    requires c0.Ok() && c.Ok() && Follows(c0, c) && SoFarUnseen(c0, c, line)
    requires 0 <= place < c0.Total() && place + c0.cols * scrolls == c.Origin() + |line|
    requires scrolls > 0 ==> place >= c0.Total() - c0.cols
    requires scrolls > 0 <==> c.Origin() + |line| >= c0.Total()
    ensures SamePage(c0.Origin(), c.Origin(), c0.cols * scrolls, c0.Total(), line)
       <==> (Matters(c0, c, line) ==> NothingSeen(c0, line))
  {
    var d := c0.cols * scrolls;
    OriginInside(c0);
    OriginInside(c);
    ScrollDistance(c0.cols, scrolls);
    if c.editRow < c0.editRow {
      MovedAgree(c0, c, line, d, place);
    } else if scrolls > 0 {
      FullAgree(c0, line, scrolls, d, place);
    }
  }

  /**
   * A repaint on a screen that was dark when the edit began shows the new line exactly when the end of the grid
   * does not matter to it or it has nothing to show; and then the next repaint starts from a dark screen again.
   */
  lemma DarkKey(c0: Con, c: Con, line: seq<char>)
    requires c0.Ok() && c.Ok() && Dark(c0) && Follows(c0, c) && Clears(c)
    requires AllTyped(line) && SoFarUnseen(c0, c, line)
    ensures var c' := EditLine(c, line);
            && (ShowsLine(c0, c', line) <==> (Matters(c0, c, line) ==> NothingSeen(c0, line)))
            && (ShowsLine(c0, c', line) ==> Clears(c'))
            && c'.Ok() && Follows(c0, c')
            && (c'.editRow == c.editRow || (c'.editRow < c.editRow && Full(c0, line)))
            && (Full(c0, line) && c.editRow == c0.editRow > 0 ==> c'.editRow < c0.editRow)
  {
    var c' := EditLine(c, line);
    var scrolls, place := DarkDraw(c, line);
    EditLineOk(c, line);
    OriginInside(c0);
    OriginInside(c);
    PagesAgree(c0, c, line, scrolls, place);
    var d := c0.cols * scrolls;
    assert ShowsLine(c0, c', line) <==> SamePage(c0.Origin(), c.Origin(), d, c0.Total(), line) by {
      ShownIsPage(c0, c, c', line, d);
    }
    if c.editRow < c0.editRow { RowMoved(c0, c); }
    if ShowsLine(c0, c', line) { StaysClear(c0, c, c', line, scrolls); }
  }

  lemma ShownIsPage(c0: Con, c: Con, c': Con, line: seq<char>, d: int)
    requires c0.Ok() && Dark(c0) && c0.Total() <= |c0.cells| == |c'.cells|
    requires forall i :: 0 <= i < c0.Total() ==>
               c'.cells[i] == Cell(TapeAt(c.Origin(), line, i + d), DEFAULT_FG, DEFAULT_BG)
    ensures ShowsLine(c0, c', line) <==> SamePage(c0.Origin(), c.Origin(), d, c0.Total(), line)
  {
    forall i | 0 <= i < c0.Total()
      ensures Overlay(c0.cells, c0.Origin(), line, c0.fg, c0.bg)[i]
           == Cell(TapeAt(c0.Origin(), line, i), DEFAULT_FG, DEFAULT_BG)
    {
    }
    if SamePage(c0.Origin(), c.Origin(), d, c0.Total(), line) {
      forall i | 0 <= i < c0.Total() ensures c'.cells[i] == Overlay(c0.cells, c0.Origin(), line, c0.fg, c0.bg)[i] {
        assert TapeAt(c.Origin(), line, i + d) == TapeAt(c0.Origin(), line, i);
      }
    }
    if ShowsLine(c0, c', line) {
      forall i | 0 <= i < c0.Total() ensures TapeAt(c.Origin(), line, i + d) == TapeAt(c0.Origin(), line, i) {
        assert c'.cells[i] == Overlay(c0.cells, c0.Origin(), line, c0.fg, c0.bg)[i];
      }
    }
  }

  lemma StaysClear(c0: Con, c: Con, c': Con, line: seq<char>, scrolls: nat)
    requires c0.Ok() && Dark(c0) && Follows(c0, c) && c0.Total() <= |c0.cells|
    requires ShowsLine(c0, c', line) && (Matters(c0, c, line) ==> NothingSeen(c0, line))
    requires scrolls > 0 <==> c.Origin() + |line| >= c0.Total()
    requires scrolls == 0 ==> c'.editRow == c.editRow && c'.editedCells == |line|
    requires Follows(c0, c')
    ensures Clears(c')
  {
    if Matters(c0, c, line) {
      FirstPageSpaces(c0, line);
      forall i | 0 <= i < c0.Total() ensures c'.cells[i] == DARK {
        assert c'.cells[i] == Overlay(c0.cells, c0.Origin(), line, c0.fg, c0.bg)[i];
      }
    } else {
      assert c'.Origin() == c0.Origin() && c'.Total() == c0.Total() && c'.editedCells == |line|;
      assert Blank(c'.fg, c'.bg) == DARK;
      forall i | 0 <= i < c0.Total() ensures Blanked(c')[i] == DARK {
        assert c'.cells[i] == Overlay(c0.cells, c0.Origin(), line, c0.fg, c0.bg)[i];
      }
    }
  }

  // ----- whole histories, to the end of the grid and past it -----

  ghost predicate LikeNextRow(cells: seq<Cell>, total: int, cols: nat, j: int)
    requires 0 <= j < total <= |cells|
  {
    cells[j] == if j + cols < total then cells[j + cols] else DARK
  }

  lemma {:induction false} EndOfRows(cells: seq<Cell>, total: int, cols: nat, i: int)
    requires cols > 0 && total <= |cells| && 0 <= i < total
    requires forall j :: 0 <= j < total ==> LikeNextRow(cells, total, cols, j)
    ensures cells[i] == DARK
    decreases total - i
  {
    assert LikeNextRow(cells, total, cols, i);
    if i + cols < total { EndOfRows(cells, total, cols, i + cols); }
  }

  /** A line that fills the grid to the last cell is overlaid and then scrolled by one row. */
  lemma FillDraws(c0: Con, c: Con, line: seq<char>)
    requires c0.Ok() && BlankFrom(c0) && AllTyped(line) && line != []
    requires Overlaid(c0, c, line[..|line| - 1]) && c0.Origin() + |line| == c0.Total() <= |c0.cells|
    ensures var o, c' := Overlay(c0.cells, c0.Origin(), line, c0.fg, c0.bg), EditLine(c, line);
            && |c'.cells| == |o|
            && forall j :: 0 <= j < c0.Total() ==>
                 c'.cells[j] == if j + c0.cols < c0.Total() then o[j + c0.cols] else DARK
  {
    var n, at, total := |line| - 1, c0.Origin(), c0.Total();
    OriginInside(c0);
    OverlaidBlanks(c0, c, line[..n]);
    var s0 := Screen(c0.cells, c0.cols, c0.rows, c0.editRow, c0.editCol, DARK, 0);
    TypedRun(s0, line[..n], c0.fg, c0.bg);
    KeepsGeometry(s0, line[..n], c0.fg, c0.bg);
    var s1 := AfterAll(s0, line[..n], c0.fg, c0.bg);
    var o := Overlay(c0.cells, at, line, c0.fg, c0.bg);
    LastCell(s1, c0, line);
    assert EditLine(c, line).cells == AfterScroll(s1.(cells := o, col := 0)).cells;
    forall j | 0 <= j < total
      ensures EditLine(c, line).cells[j] == if j + c0.cols < total then o[j + c0.cols] else DARK
    {
      ScrolledIndex(s1.(cells := o, col := 0), j);
    }
  }

  lemma LastCell(s1: Screen, c0: Con, line: seq<char>)
    requires c0.Ok() && s1.Ok() && s1.col < s1.cols && s1.cols == c0.cols && s1.rows == c0.rows
    requires line != [] && IsTyped(line[|line| - 1]) && s1.scrolls == 0
    requires 0 <= c0.Origin() && c0.Origin() + |line| == c0.Total() <= |c0.cells|
    requires Travelled(s1) == c0.Origin() + |line| - 1
    requires s1.cells == Overlay(c0.cells, c0.Origin(), line[..|line| - 1], c0.fg, c0.bg)
    ensures AfterPut(s1, line[|line| - 1], c0.fg, c0.bg)
         == AfterScroll(s1.(cells := Overlay(c0.cells, c0.Origin(), line, c0.fg, c0.bg), col := 0))
  {
    assert c0.cols * 0 == 0;
    PutTyped(s1, line[|line| - 1], c0.fg, c0.bg);
    OverlayMore(c0.cells, c0.Origin(), line, c0.fg, c0.bg);
  }

  /** The key that fills the last cell scrolls a row away; that goes unseen only on a dark screen. */
  lemma FillSeen(c0: Con, c: Con, line: seq<char>)
    requires c0.Ok() && BlankFrom(c0) && AllTyped(line) && line != []
    requires Overlaid(c0, c, line[..|line| - 1]) && c0.Origin() + |line| == c0.Total()
    requires ShowsLine(c0, EditLine(c, line), line)
    ensures Dark(c0)
  {
    var n, at, total := |line| - 1, c0.Origin(), c0.Total();
    OriginInside(c0);
    var o := Overlay(c0.cells, at, line, c0.fg, c0.bg);
    FillDraws(c0, c, line);
    forall j | 0 <= j < total ensures LikeNextRow(o, total, c0.cols, j) {
      assert EditLine(c, line).cells[j] == o[j];
    }
    forall i | 0 <= i < total ensures o[i] == DARK { EndOfRows(o, total, c0.cols, i); }
    assert o[at + n] == Cell(line[n], c0.fg, c0.bg);
    assert forall i :: 0 <= i < at ==> c0.cells[i] == o[i];
  }

  /** What a history that has shown its lines leaves behind. */
  ghost predicate Leaves(c0: Con, c: Con, events: seq<KeyEvent>)
    requires c0.cols > 0
  {
    if !EverFull(c0, events) then Overlaid(c0, c, LineOf([], events))
    else
      && Dark(c0) && c.Ok() && Follows(c0, c) && Clears(c)
      && (c.editRow < c0.editRow <==> c0.editRow > 0)
  }

  lemma PrefixUnseen(c0: Con, line: seq<char>, n: nat)
    requires c0.cols > 0 && NothingSeen(c0, line) && n <= |line|
    ensures NothingSeen(c0, line[..n])
  {
    forall j | 0 <= j < n ensures line[..n][j] == ' ' || GoneAtOnce(c0, j) { assert line[..n][j] == line[j]; }
  }

  /** One key, after a history that has shown its lines and was harmless. */
  lemma OneKey(c0: Con, events: seq<KeyEvent>, event: KeyEvent)
    requires c0.Ok() && BlankFrom(c0)
    requires Harmless(c0, events) && Leaves(c0, KeyRun(c0, events), events)
    requires ShowsLine(c0, KeyRun(c0, events), LineOf([], events))
    ensures var all := events + [event];
            && (ShowsLine(c0, KeyRun(c0, all), LineOf([], all)) <==>
                  (Reached(c0, all) ==> Dark(c0) && NothingSeen(c0, LineOf([], all))))
            && (ShowsLine(c0, KeyRun(c0, all), LineOf([], all)) ==> Leaves(c0, KeyRun(c0, all), all))
  {
    var all, c, line := events + [event], KeyRun(c0, events), LineOf([], events);
    assert all[..|events|] == events;
    var line' := LineAfter(line, event);
    LineIsTyped(events);
    LineIsTyped(all);
    ActionTellsChange(line, event);
    if line' != line {
      KeyOnLine(c0, c, events, event);
    }
  }

  lemma KeyOnLine(c0: Con, c: Con, events: seq<KeyEvent>, event: KeyEvent)
    requires c0.Ok() && BlankFrom(c0) && Harmless(c0, events) && Leaves(c0, c, events)
    requires LineAfter(LineOf([], events), event) != LineOf([], events)
    requires AllTyped(LineAfter(LineOf([], events), event))
    ensures var all, line' := events + [event], LineAfter(LineOf([], events), event);
            && LineOf([], all) == line'
            && (ShowsLine(c0, EditLine(c, line'), line') <==>
                  (Reached(c0, all) ==> Dark(c0) && NothingSeen(c0, line')))
            && (ShowsLine(c0, EditLine(c, line'), line') ==> Leaves(c0, EditLine(c, line'), all))
  {
    var all, line := events + [event], LineOf([], events);
    var line' := LineAfter(line, event);
    assert all[..|events|] == events;
    if EverFull(c0, events) {
      LaterKey(c0, c, events, line, line');
    } else if Full(c0, line') {
      assert line'[..|line'| - 1] == line;
      FirstFull(c0, c, line');
    } else {
      QuietKey(c0, c, line, line');
    }
  }

  lemma QuietKey(c0: Con, c: Con, line: seq<char>, line': seq<char>)
    requires c0.Ok() && BlankFrom(c0) && Overlaid(c0, c, line) && AllTyped(line')
    requires !Full(c0, line) && !Full(c0, line')
    ensures ShowsLine(c0, EditLine(c, line'), line') && Overlaid(c0, EditLine(c, line'), line')
  {
    OverlaidNext(c0, c, line, line');
  }

  /** A key after some line has reached the end of the grid without being seen. */
  lemma LaterKey(c0: Con, c: Con, events: seq<KeyEvent>, line: seq<char>, line': seq<char>)
    requires c0.Ok() && EverFull(c0, events) && Harmless(c0, events) && Leaves(c0, c, events)
    requires line == LineOf([], events) && AllTyped(line')
    requires (line' != [] && line'[..|line'| - 1] == line) || (line != [] && line' == line[..|line| - 1])
    ensures var reached := if c0.editRow > 0 then true else Full(c0, line');
            && (ShowsLine(c0, EditLine(c, line'), line') <==> (reached ==> NothingSeen(c0, line')))
            && (ShowsLine(c0, EditLine(c, line'), line') ==>
                  var c' := EditLine(c, line');
                  c'.Ok() && Follows(c0, c') && Clears(c') && (c'.editRow < c0.editRow <==> c0.editRow > 0))
  {
    if line' != [] && line'[..|line'| - 1] != line && Reached(c0, events) {
      assert line'[..|line'| - 1] == line[..|line'| - 1];
      PrefixUnseen(c0, line, |line'| - 1);
    }
    DarkKey(c0, c, line');
  }

  /** The key that makes a line reach the end of the grid for the first time. */
  lemma FirstFull(c0: Con, c: Con, line: seq<char>)
    requires c0.Ok() && BlankFrom(c0) && AllTyped(line) && line != []
    requires Overlaid(c0, c, line[..|line| - 1]) && c0.Origin() + |line| == c0.Total()
    ensures var c' := EditLine(c, line);
            && (ShowsLine(c0, c', line) <==> Dark(c0) && NothingSeen(c0, line))
            && (ShowsLine(c0, c', line) ==>
                  c'.Ok() && Follows(c0, c') && Clears(c') && (c'.editRow < c0.editRow <==> c0.editRow > 0))
  {
    OriginInside(c0);
    if ShowsLine(c0, EditLine(c, line), line) { FillSeen(c0, c, line); }
    if Dark(c0) {
      OverlaidBlanks(c0, c, line[..|line| - 1]);
      assert Clears(c) by { assert c.Total() == c0.Total(); }
      DarkKey(c0, c, line);
    }
  }

  /**
   * Through a whole history the screen is the snapshot overlaid with the line in the editor, exactly when at
   * every point the end of the grid does not matter yet, or the screen is dark and the line has nothing to show.
   */
  lemma {:induction false} HistoryIndependentExactly(c0: Con, events: seq<KeyEvent>)
    requires c0.Ok() && c0.editedCells == 0 && BlankFrom(c0)
    ensures ShowsThroughout(c0, events) <==> Harmless(c0, events)
    ensures ShowsThroughout(c0, events) ==> Leaves(c0, KeyRun(c0, events), events)
  {
    OriginInside(c0);
    if events == [] {
      assert Overlay(c0.cells, c0.Origin(), [], c0.fg, c0.bg) == c0.cells;
    } else {
      var n := |events| - 1;
      HistoryIndependentExactly(c0, events[..n]);
      if ShowsThroughout(c0, events[..n]) {
        assert events == events[..n] + [events[n]];
        OneKey(c0, events[..n], events[n]);
      }
    }
  }

  /** With anything to be seen before the edit, or colours of its own, no line may reach the end of the grid. */
  lemma {:induction false} LitScreenExactly(c0: Con, events: seq<KeyEvent>)
    requires c0.Ok() && c0.editedCells == 0 && BlankFrom(c0) && !Dark(c0)
    ensures ShowsThroughout(c0, events) <==> !EverFull(c0, events)
  {
    HistoryIndependentExactly(c0, events);
    NeverReached(c0, events);
  }

  lemma {:induction false} NeverReached(c0: Con, events: seq<KeyEvent>)
    requires c0.cols > 0 && !Dark(c0)
    ensures Harmless(c0, events) <==> !EverFull(c0, events)
  {
    if events != [] { NeverReached(c0, events[..|events| - 1]); }
  }
}
