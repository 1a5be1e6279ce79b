/** The grid as a window on a terminal of unbounded height, and chunked writes. */
module Terminal {
  import opened Pixels
  import opened Grid

  /** A character in its colours. */
  datatype Ink = Ink(c: char, fg: Rgb, bg: Rgb)

  predicate IsPrinting(c: char) {
    c != '\n' && c != '\r' && c != '\t'
  }

  /** A terminal that never scrolls: what was written where, and the cursor. */
  datatype Paper = Paper(written: map<(int, int), Cell>, row: nat, col: nat)

  const FRESH := Paper(map[], 0, 0)

  function CellAt(t: Paper, row: int, col: int, blank: Cell): Cell {
    if (row, col) in t.written then t.written[(row, col)] else blank
  }

  function NewLine(t: Paper): Paper {
    t.(row := t.row + 1, col := 0)
  }

  /** A character always lands inside a row: one typed past the end opens the next row. */
  function TypeOn(t: Paper, cols: nat, ink: Ink): Paper {
    if ink.c == '\n' then NewLine(t)
    else if ink.c == '\r' then t.(col := 0)
    else if ink.c == '\t' then t.(col := TabStop(t.col))
    else
      var t0 := if t.col >= cols then NewLine(t) else t;
      var cell := Cell(ink.c, ink.fg, ink.bg);
      var t1 := t0.(written := t0.written[(t0.row as int, t0.col as int) := cell], col := t0.col + 1);
      if t1.col >= cols then NewLine(t1) else t1
  }

  function TypeAll(t: Paper, cols: nat, text: seq<Ink>): Paper {
    if text == [] then t else TypeOn(TypeAll(t, cols, text[..|text| - 1]), cols, text[|text| - 1])
  }

  /** The grid after a text of which every character has its own colours. */
  function AfterInks(s: Screen, text: seq<Ink>): Screen {
    if text == [] then s
    else
      var last := text[|text| - 1];
      AfterPut(AfterInks(s, text[..|text| - 1]), last.c, last.fg, last.bg)
  }

  function Inked(text: seq<char>, fg: Rgb, bg: Rgb): (r: seq<Ink>)
    ensures |r| == |text|
  {
    seq(|text|, i requires 0 <= i < |text| => Ink(text[i], fg, bg))
  }

  /** A text in one pair of colours is a coloured text. */
  lemma {:induction false} OneColour(s: Screen, text: seq<char>, fg: Rgb, bg: Rgb)
    ensures AfterAll(s, text, fg, bg) == AfterInks(s, Inked(text, fg, bg))
  {
    if text != [] {
      var n := |text| - 1;
      OneColour(s, text[..n], fg, bg);
      assert Inked(text, fg, bg)[..n] == Inked(text[..n], fg, bg);
    }
  }

  // ----- tabs -----

  /** The column after one character, as the grid moves it. */
  function NextCol(col: nat, cols: nat, c: char): nat {
    if c == '\n' || c == '\r' then 0
    else if c == '\t' then Min(TabStop(col), cols)
    else if col + 1 >= cols then 0 else col + 1
  }

  function ColAfter(col: nat, cols: nat, text: seq<char>): nat {
    if text == [] then col else NextCol(ColAfter(col, cols, text[..|text| - 1]), cols, text[|text| - 1])
  }

  /** Every tab of the text moves to a stop inside the row. */
  predicate TabsLand(col: nat, cols: nat, text: seq<char>) {
    text == [] ||
    (var n := |text| - 1;
     TabsLand(col, cols, text[..n]) && (text[n] == '\t' ==> TabStop(ColAfter(col, cols, text[..n])) < cols))
  }

  /** Nothing of the text is printed from a cursor that a tab has parked past the end of the row. */
  predicate PrintsInside(col: nat, cols: nat, text: seq<char>) {
    text == [] ||
    (var n := |text| - 1;
     PrintsInside(col, cols, text[..n]) && (IsPrinting(text[n]) ==> ColAfter(col, cols, text[..n]) < cols))
  }

  /** Every character of a text finds a cell of the buffer. */
  predicate StaysInside(s: Screen, text: seq<char>, fg: Rgb, bg: Rgb) {
    text == [] ||
    (var n := |text| - 1;
     StaysInside(s, text[..n], fg, bg) && Writable(AfterAll(s, text[..n], fg, bg), text[n]))
  }

  lemma {:induction false} PrefixStays(s: Screen, u: seq<char>, text: seq<char>, fg: Rgb, bg: Rgb)
    requires StaysInside(s, text, fg, bg) && u <= text
    ensures StaysInside(s, u, fg, bg)
  {
    if u != text {
      assert u <= text[..|text| - 1];
      PrefixStays(s, u, text[..|text| - 1], fg, bg);
    } else {
      assert u == text;
    }
  }

  /** What is printed inside its row stays inside the buffer. */
  lemma {:induction false} PrintsStayInside(s: Screen, text: seq<char>, fg: Rgb, bg: Rgb)
    requires s.Ok() && PrintsInside(s.col, s.cols, text)
    ensures StaysInside(s, text, fg, bg) && AfterAll(s, text, fg, bg).Ok()
  {
    if text != [] {
      var n := |text| - 1;
      PrintsStayInside(s, text[..n], fg, bg);
      KeepsGeometry(s, text[..n], fg, bg);
      WritableExactly(AfterAll(s, text[..n], fg, bg), text[n]);
    }
  }

  predicate NoTabs(text: seq<char>) {
    forall i :: 0 <= i < |text| ==> text[i] != '\t'
  }

  lemma {:induction false} NoTabsLand(col: nat, cols: nat, text: seq<char>)
    requires NoTabs(text)
    ensures TabsLand(col, cols, text)
  {
    if text != [] { NoTabsLand(col, cols, text[..|text| - 1]); }
  }

  lemma {:induction false} LandedPrintsInside(col: nat, cols: nat, text: seq<char>)
    requires col < cols && TabsLand(col, cols, text)
    ensures PrintsInside(col, cols, text)
  {
    if text != [] {
      LandedPrintsInside(col, cols, text[..|text| - 1]);
      LandedCol(col, cols, text[..|text| - 1]);
    }
  }

  /** The column after a coloured text that starts at the left. */
  function InkCol(cols: nat, text: seq<Ink>): nat {
    if text == [] then 0 else NextCol(InkCol(cols, text[..|text| - 1]), cols, text[|text| - 1].c)
  }

  /** A tab may go as far as the end of the row, but nothing may be printed or tabbed from there. */
  predicate Steady(col: nat, cols: nat, c: char) {
    (c == '\t' ==> TabStop(col) <= cols) && (IsPrinting(c) ==> col < cols)
  }

  /**
   * No tab has its stop past the end of the row, and one that stops right there is the last character or is
   * followed by a newline or a carriage return.
   */
  predicate TabsSettle(cols: nat, text: seq<Ink>) {
    text == [] ||
    (var n := |text| - 1; TabsSettle(cols, text[..n]) && Steady(InkCol(cols, text[..n]), cols, text[n].c))
  }

  // ----- the window -----

  ghost predicate ShownAt(s: Screen, t: Paper, row: int, col: int) {
    var at := Index(s.cols, row, col);
    0 <= at < |s.cells| && s.cells[at] == CellAt(t, s.scrolls + row, col, s.blank)
  }

  /** What can be seen: every cell of the grid and the cursor are those of the terminal from row `scrolls` on. */
  ghost predicate Shows(s: Screen, t: Paper) {
    && t.row == s.scrolls + s.row && t.col == s.col
    && (forall row, col :: 0 <= row < s.rows && 0 <= col < s.cols ==> ShownAt(s, t, row, col))
  }

  /** Nothing was written outside the rows, or below the cursor's row. */
  ghost predicate Ruled(t: Paper, cols: nat) {
    forall row, col :: (row, col) in t.written ==> 0 <= row <= t.row && 0 <= col < cols
  }

  ghost predicate Window(s: Screen, t: Paper) {
    s.Ok() && Shows(s, t) && Ruled(t, s.cols)
  }

  lemma ScrolledAt(s: Screen, row: int, col: int)
    requires s.Sized() && 0 <= row < s.rows && 0 <= col < s.cols
    ensures var at := Index(s.cols, row, col);
            && 0 <= at < |s.cells|
            && (row + 1 == s.rows ==> AfterScroll(s).cells[at] == s.blank)
            && (row + 1 < s.rows ==> Index(s.cols, row + 1, col) < |s.cells|)
            && (row + 1 < s.rows ==> AfterScroll(s).cells[at] == s.cells[Index(s.cols, row + 1, col)])
  {
    IndexInside(s.cols, s.rows, row, col);
    assert s.cols * s.rows == s.rows * s.cols;
  }

  lemma NewLineWindow(s: Screen, t: Paper)
    requires s.Ok() && t.row == s.scrolls + s.row && Ruled(t, s.cols)
    requires forall row, col :: 0 <= row < s.rows && 0 <= col < s.cols ==> ShownAt(s, t, row, col)
    ensures Window(AfterLinefeed(s), NewLine(t))
  {
    var s', t' := AfterLinefeed(s), NewLine(t);
    forall row, col | 0 <= row < s.rows && 0 <= col < s.cols ensures ShownAt(s', t', row, col) {
      assert ShownAt(s, t, row, col);
      if s.row + 1 >= s.rows {
        ScrolledAt(s.(col := 0), row, col);
        if row + 1 < s.rows {
          assert ShownAt(s, t, row + 1, col);
        }
      }
    }
  }

  lemma WriteWindow(s: Screen, t: Paper, cell: Cell)
    requires Window(s, t) && s.col < s.cols
    ensures var s1 := PutCell(s, Index(s.cols, s.row, s.col), cell);
            var t1 := t.(written := t.written[(t.row as int, t.col as int) := cell]);
            && s1.Ok() && Ruled(t1, s.cols)
            && (forall row, col :: 0 <= row < s.rows && 0 <= col < s.cols ==> ShownAt(s1, t1, row, col))
  {
    var s1 := PutCell(s, Index(s.cols, s.row, s.col), cell);
    var t1 := t.(written := t.written[(t.row as int, t.col as int) := cell]);
    IndexInside(s.cols, s.rows, s.row, s.col);
    forall row, col | 0 <= row < s.rows && 0 <= col < s.cols ensures ShownAt(s1, t1, row, col) {
      assert ShownAt(s, t, row, col);
      if row != s.row || col != s.col { IndexApart(s.cols, row, col, s.row, s.col); }
    }
  }

  lemma WindowIgnoresCol(s: Screen, t: Paper, s1: Screen, t1: Paper)
    requires s1 == s.(col := s1.col) && t1 == t.(col := t1.col)
    requires forall row, col :: 0 <= row < s.rows && 0 <= col < s.cols ==> ShownAt(s, t, row, col)
    ensures forall row, col :: 0 <= row < s1.rows && 0 <= col < s1.cols ==> ShownAt(s1, t1, row, col)
  {
    forall row, col | 0 <= row < s1.rows && 0 <= col < s1.cols ensures ShownAt(s1, t1, row, col) {
      assert ShownAt(s, t, row, col);
    }
  }

  lemma PrintWindow(s: Screen, t: Paper, ink: Ink)
    requires Window(s, t) && IsPrinting(ink.c) && s.col < s.cols
    ensures Window(AfterPut(s, ink.c, ink.fg, ink.bg), TypeOn(t, s.cols, ink))
  {
    var cell := Cell(ink.c, ink.fg, ink.bg);
    WriteWindow(s, t, cell);
    var s1 := PutCell(s, Index(s.cols, s.row, s.col), cell).(col := s.col + 1);
    var t1 := t.(written := t.written[(t.row as int, t.col as int) := cell], col := t.col + 1);
    WindowIgnoresCol(PutCell(s, Index(s.cols, s.row, s.col), cell), t1.(col := t.col), s1, t1);
    if s1.col >= s1.cols { NewLineWindow(s1, t1); }
  }

  /** A steady character keeps the window, and any other one can be seen to break it. */
  lemma PutWindow(s: Screen, t: Paper, ink: Ink)
    requires Window(s, t)
    ensures Steady(s.col, s.cols, ink.c) ==> Window(AfterPut(s, ink.c, ink.fg, ink.bg), TypeOn(t, s.cols, ink))
    ensures !Steady(s.col, s.cols, ink.c) ==> !Shows(AfterPut(s, ink.c, ink.fg, ink.bg), TypeOn(t, s.cols, ink))
  {
    if ink.c == '\n' {
      NewLineWindow(s, t);
    } else if ink.c == '\r' || ink.c == '\t' {
      WindowIgnoresCol(s, t, AfterPut(s, ink.c, ink.fg, ink.bg), TypeOn(t, s.cols, ink));
    } else if s.col < s.cols {
      PrintWindow(s, t, ink);
    }
  }

  lemma ClearedWindow(s: Screen, fg: Rgb, bg: Rgb)
    requires s.Sized()
    ensures Window(Cleared(s, fg, bg), FRESH)
  {
    var s' := Cleared(s, fg, bg);
    forall row, col | 0 <= row < s'.rows && 0 <= col < s'.cols ensures ShownAt(s', FRESH, row, col) {
      IndexInside(s'.cols, s'.rows, row, col);
    }
  }

  lemma {:induction false} InksKeep(s: Screen, text: seq<Ink>)
    requires s.col == 0
    ensures var s' := AfterInks(s, text); s'.cols == s.cols && s'.rows == s.rows && s'.col == InkCol(s.cols, text)
  {
    if text != [] { InksKeep(s, text[..|text| - 1]); }
  }

  /** Through a whole text the grid, cleared in colours of its own, has shown the terminal. */
  ghost predicate ShowsThroughout(s: Screen, text: seq<Ink>) {
    forall n :: 0 <= n <= |text| ==> ShowsAfter(s, text[..n])
  }

  ghost predicate ShowsAfter(s: Screen, text: seq<Ink>) {
    Shows(AfterInks(s, text), TypeAll(FRESH, s.cols, text))
  }

  lemma ShowsPrefix(s: Screen, text: seq<Ink>)
    requires text != []
    ensures ShowsThroughout(s, text) <==> ShowsThroughout(s, text[..|text| - 1]) && ShowsAfter(s, text)
  {
    var front := text[..|text| - 1];
    assert text[..|text|] == text;
    assert forall n :: 0 <= n <= |front| ==> front[..n] == text[..n];
    if ShowsThroughout(s, text) {
      forall n | 0 <= n <= |front| ensures ShowsAfter(s, front[..n]) { assert ShowsAfter(s, text[..n]); }
    }
    if ShowsThroughout(s, front) && ShowsAfter(s, text) {
      forall n | 0 <= n <= |text| ensures ShowsAfter(s, text[..n]) {
        if n <= |front| { assert ShowsAfter(s, front[..n]); }
      }
    }
  }

  lemma {:induction false} SettledWindow(s: Screen, text: seq<Ink>)
    requires Window(s, FRESH) && s.col == 0
    ensures TabsSettle(s.cols, text) ==> Window(AfterInks(s, text), TypeAll(FRESH, s.cols, text))
    ensures TabsSettle(s.cols, text) <==> ShowsThroughout(s, text)
  {
    if text == [] {
      assert text[..0] == text && ShowsAfter(s, text);
    } else {
      var n := |text| - 1;
      SettledWindow(s, text[..n]);
      ShowsPrefix(s, text);
      InksKeep(s, text[..n]);
      if TabsSettle(s.cols, text[..n]) {
        PutWindow(AfterInks(s, text[..n]), TypeAll(FRESH, s.cols, text[..n]), text[n]);
      }
    }
  }

  /**
   * After a clear, at every point of a text the grid is the window at offset `scrolls` on the unbounded
   * terminal that wraps at `cols`, cell by cell and cursor included, exactly when no tab has its stop past
   * the end of the row and only a newline or a carriage return follows one that stops right there.
   */
  lemma GridIsWindowExactly(s: Screen, fg: Rgb, bg: Rgb, text: seq<Ink>)
    requires s.Sized()
    ensures ShowsThroughout(Cleared(s, fg, bg), text) <==> TabsSettle(s.cols, text)
  {
    ClearedWindow(s, fg, bg);
    SettledWindow(Cleared(s, fg, bg), text);
  }

  // ----- from any window on -----

  lemma {:induction false} TypeConcat(t: Paper, cols: nat, u: seq<Ink>, v: seq<Ink>)
    ensures TypeAll(t, cols, u + v) == TypeAll(TypeAll(t, cols, u), cols, v)
  {
    if v == [] {
      assert u + v == u;
    } else {
      var n := |v| - 1;
      assert (u + v)[..|u + v| - 1] == u + v[..n] && (u + v)[|u + v| - 1] == v[n];
      TypeConcat(t, cols, u, v[..n]);
    }
  }

  lemma InkedConcat(u: seq<char>, v: seq<char>, fg: Rgb, bg: Rgb)
    ensures Inked(u + v, fg, bg) == Inked(u, fg, bg) + Inked(v, fg, bg)
  {
  }

  /** A text without tabs keeps any window whose cursor is inside the row. */
  lemma {:induction false} PlainWindow(s: Screen, t: Paper, text: seq<char>, fg: Rgb, bg: Rgb)
    requires Window(s, t) && s.col < s.cols && NoTabs(text)
    ensures var s' := AfterAll(s, text, fg, bg);
            Window(s', TypeAll(t, s.cols, Inked(text, fg, bg))) && s'.col < s'.cols && s'.cols == s.cols
  {
    if text == [] {
      assert Inked(text, fg, bg) == [];
    } else {
      var n := |text| - 1;
      PlainWindow(s, t, text[..n], fg, bg);
      assert Inked(text, fg, bg)[..n] == Inked(text[..n], fg, bg);
      PutWindow(AfterAll(s, text[..n], fg, bg), TypeAll(t, s.cols, Inked(text[..n], fg, bg)), Ink(text[n], fg, bg));
    }
  }

  // ----- writing in chunks -----

  /** What the console keeps between writes: the buffer and the cursor. */
  datatype Kept = Kept(cells: seq<Cell>, cols: nat, rows: nat, row: nat, col: nat) {
    predicate Ok() {
      cols > 0 && rows > 0 && cols * rows <= |cells| && row < rows && col < cols
    }
  }

  /** The grid rebuilt over the buffer, its cursor clamped into the grid. */
  function Reopen(k: Kept): Screen
    requires k.cols > 0 && k.rows > 0
  {
    Screen(k.cells, k.cols, k.rows, Min(k.row, k.rows - 1), Min(k.col, k.cols - 1), Blank(DEFAULT_FG, DEFAULT_BG), 0)
  }

  function Keep(s: Screen): Kept {
    Kept(s.cells, s.cols, s.rows, s.row, s.col)
  }

  function PutText(k: Kept, text: seq<char>, fg: Rgb, bg: Rgb): (r: Kept)
    requires k.cols > 0 && k.rows > 0
    ensures r.cols == k.cols && r.rows == k.rows
  {
    KeepsGeometry(Reopen(k), text, fg, bg);
    Keep(AfterAll(Reopen(k), text, fg, bg))
  }

  lemma {:induction false} KeepsGeometry(s: Screen, text: seq<char>, fg: Rgb, bg: Rgb)
    ensures var s' := AfterAll(s, text, fg, bg);
            && s'.cols == s.cols && s'.rows == s.rows && s'.blank == s.blank && |s'.cells| == |s.cells|
            && (s.row < s.rows ==> s'.row < s'.rows)
            && s'.col == ColAfter(s.col, s.cols, text)
  {
    if text != [] { KeepsGeometry(s, text[..|text| - 1], fg, bg); }
  }

  lemma {:induction false} AfterConcat(s: Screen, u: seq<char>, v: seq<char>, fg: Rgb, bg: Rgb)
    ensures AfterAll(s, u + v, fg, bg) == AfterAll(AfterAll(s, u, fg, bg), v, fg, bg)
  {
    if v == [] {
      assert u + v == u;
    } else {
      var n := |v| - 1;
      assert (u + v)[..|u + v| - 1] == u + v[..n] && (u + v)[|u + v| - 1] == v[n];
      AfterConcat(s, u, v[..n], fg, bg);
    }
  }

  /** The scroll count is only a counter. */
  lemma {:induction false} CountAside(s: Screen, k: nat, text: seq<char>, fg: Rgb, bg: Rgb)
    ensures Keep(AfterAll(s.(scrolls := k), text, fg, bg)) == Keep(AfterAll(s, text, fg, bg))
    ensures AfterAll(s.(scrolls := k), text, fg, bg).blank == AfterAll(s, text, fg, bg).blank
  {
    if text != [] { CountAside(s, k, text[..|text| - 1], fg, bg); }
  }

  lemma {:induction false} LandedCol(col: nat, cols: nat, text: seq<char>)
    requires col < cols && TabsLand(col, cols, text)
    ensures ColAfter(col, cols, text) < cols
  {
    if text != [] { LandedCol(col, cols, text[..|text| - 1]); }
  }

  lemma {:induction false} PrefixLands(col: nat, cols: nat, u: seq<char>, text: seq<char>)
    requires TabsLand(col, cols, text) && u <= text
    ensures TabsLand(col, cols, u)
  {
    if u != text {
      var n := |text| - 1;
      assert u <= text[..n];
      PrefixLands(col, cols, u, text[..n]);
    } else {
      assert u == text;
    }
  }

  lemma TwoChunks(k: Kept, u: seq<char>, v: seq<char>, fg: Rgb, bg: Rgb)
    requires k.Ok() && TabsLand(k.col, k.cols, u)
    ensures PutText(PutText(k, u, fg, bg), v, fg, bg) == PutText(k, u + v, fg, bg)
  {
    var s := Reopen(k);
    var s1 := AfterAll(s, u, fg, bg);
    KeepsGeometry(s, u, fg, bg);
    LandedCol(k.col, k.cols, u);
    assert Reopen(Keep(s1)) == s1.(scrolls := 0);
    CountAside(s1, 0, v, fg, bg);
    AfterConcat(s, u, v, fg, bg);
  }

  lemma ParkedCursorMoves(k: Kept, text: seq<char>, fg: Rgb, bg: Rgb)
    requires k.Ok() && text != [] && text[|text| - 1] == '\t'
    requires TabStop(ColAfter(k.col, k.cols, text[..|text| - 1])) >= k.cols
    ensures PutText(PutText(k, text, fg, bg), [], fg, bg) != PutText(k, text + [], fg, bg)
  {
    KeepsGeometry(Reopen(k), text, fg, bg);
    assert text + [] == text;
    assert PutText(k, text, fg, bg).col == k.cols;
  }

  /**
   * Splitting any prefix of a text in two writes leaves the same cells and cursor as one write, for every
   * split, exactly when every tab of the text lands inside the row.
   */
  lemma {:induction false} SplittingInvisibleExactly(k: Kept, text: seq<char>, fg: Rgb, bg: Rgb)
    requires k.Ok()
    ensures TabsLand(k.col, k.cols, text) <==>
            forall u, v :: u + v <= text ==> PutText(PutText(k, u, fg, bg), v, fg, bg) == PutText(k, u + v, fg, bg)
  {
    if TabsLand(k.col, k.cols, text) {
      forall u, v | u + v <= text ensures PutText(PutText(k, u, fg, bg), v, fg, bg) == PutText(k, u + v, fg, bg) {
        assert u <= u + v;
        PrefixLands(k.col, k.cols, u, text);
        TwoChunks(k, u, v, fg, bg);
      }
    } else {
      var n := |text| - 1;
      if TabsLand(k.col, k.cols, text[..n]) {
        ParkedCursorMoves(k, text, fg, bg);
        assert text + [] <= text;
      } else {
        SplittingInvisibleExactly(k, text[..n], fg, bg);
        var u, v :| u + v <= text[..n] && PutText(PutText(k, u, fg, bg), v, fg, bg) != PutText(k, u + v, fg, bg);
        assert u + v <= text;
      }
    }
  }

  function Joined(chunks: seq<seq<char>>): seq<char> {
    if chunks == [] then [] else Joined(chunks[..|chunks| - 1]) + chunks[|chunks| - 1]
  }

  function PutChunks(k: Kept, chunks: seq<seq<char>>, fg: Rgb, bg: Rgb): (r: Kept)
    requires k.cols > 0 && k.rows > 0
    ensures r.cols == k.cols && r.rows == k.rows
  {
    if chunks == [] then k else PutText(PutChunks(k, chunks[..|chunks| - 1], fg, bg), chunks[|chunks| - 1], fg, bg)
  }

  /** Any chunking of a text whose tabs land gives what one write gives. */
  lemma {:induction false} ChunkingInvisible(k: Kept, chunks: seq<seq<char>>, fg: Rgb, bg: Rgb)
    requires k.Ok() && TabsLand(k.col, k.cols, Joined(chunks))
    ensures PutChunks(k, chunks, fg, bg) == PutText(k, Joined(chunks), fg, bg)
  {
    if chunks == [] {
      assert Reopen(k).cells == k.cells;
    } else {
      var n := |chunks| - 1;
      var u := Joined(chunks[..n]);
      assert u <= Joined(chunks);
      PrefixLands(k.col, k.cols, u, Joined(chunks));
      ChunkingInvisible(k, chunks[..n], fg, bg);
      TwoChunks(k, u, chunks[n], fg, bg);
    }
  }
}
