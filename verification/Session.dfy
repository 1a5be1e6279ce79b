/** Whole shell sessions: as long as no line fills the grid, the screen is the last prompt's with the line after it. */
module Sessions {
  import opened Bits
  import opened Pixels
  import opened Psf
  import opened Surface
  import opened Grid
  import opened Terminal
  import opened Keys
  import opened LineEditing
  import opened EditLines
  import opened EditHistories
  import opened Console
  import opened Shell

  // ----- what lies behind the cursor -----

  /** Every cell from `at` to the end of the grid is dark. */
  ghost predicate DarkFrom(cells: seq<Cell>, at: int, total: int) {
    forall i :: at <= i < total ==> 0 <= i < |cells| && cells[i] == DARK
  }

  /** From the cursor on every cell of the grid is dark, and so are the rows that scrolls open. */
  ghost predicate DarkBehind(s: Screen) {
    s.Ok() && s.col < s.cols && s.blank == DARK && DarkFrom(s.cells, Index(s.cols, s.row, s.col), s.cols * s.rows)
  }

  /** Neither a tab nor a carriage return: the text never moves the cursor past or back over cells. */
  predicate Steps(text: seq<char>) {
    NoTabs(text) && forall i :: 0 <= i < |text| ==> text[i] != '\r'
  }

  lemma NewLineBehind(s: Screen)
    requires s.Sized() && s.row < s.rows && s.blank == DARK
    requires DarkFrom(s.cells, Index(s.cols, s.row + 1, 0), s.cols * s.rows)
    ensures DarkBehind(AfterLinefeed(s))
  {
    if s.row + 1 >= s.rows { BottomDark(s.(col := 0)); }
  }

  /** A scroll leaves the bottom row dark. */
  lemma BottomDark(s: Screen)
    requires s.Sized() && s.row + 1 == s.rows && s.blank == DARK
    ensures DarkFrom(AfterScroll(s).cells, Index(s.cols, s.row, 0), s.cols * s.rows)
  {
    IndexInside(s.cols, s.rows, s.row, 0);
    MulNext(s.cols, s.row);
    forall i | Index(s.cols, s.row, 0) <= i < s.cols * s.rows ensures AfterScroll(s).cells[i] == DARK {
      ScrolledIndex(s, i);
    }
  }

  lemma PutBehind(s: Screen, c: char, fg: Rgb, bg: Rgb)
    requires DarkBehind(s) && c != '\t' && c != '\r'
    ensures DarkBehind(AfterPut(s, c, fg, bg))
  {
    IndexInside(s.cols, s.rows, s.row, s.col);
    MulNext(s.cols, s.row);
    if c == '\n' {
      NewLineBehind(s);
    } else {
      var s1 := PutCell(s, Index(s.cols, s.row, s.col), Cell(c, fg, bg)).(col := s.col + 1);
      if s1.col >= s1.cols { NewLineBehind(s1); }
    }
  }

  lemma {:induction false} AllBehind(s: Screen, text: seq<char>, fg: Rgb, bg: Rgb)
    requires DarkBehind(s) && Steps(text)
    ensures DarkBehind(AfterAll(s, text, fg, bg))
  {
    if text != [] {
      var n := |text| - 1;
      AllBehind(s, text[..n], fg, bg);
      PutBehind(AfterAll(s, text[..n], fg, bg), text[n], fg, bg);
    }
  }

  // ----- consoles between lines -----

  /** The cursor is in the grid, the colours are those of a scrolled row, and nothing lies behind the cursor. */
  ghost predicate Clean(c: Con) {
    && c.Ok() && c.fg == DEFAULT_FG && c.bg == DEFAULT_BG && c.cursorRow < c.rows && c.cursorCol < c.cols
    && DarkBehind(Reopened(c))
  }

  lemma WrittenClean(c: Con, text: seq<char>)
    requires Clean(c) && Steps(text)
    ensures Clean(Written(c, text))
  {
    WrittenOk(c, text);
    AllBehind(Reopened(c), text, c.fg, c.bg);
    KeepsGeometry(Reopened(c), text, c.fg, c.bg);
    var s := AfterAll(Reopened(c), text, c.fg, c.bg);
    assert Reopened(Written(c, text)) == s.(scrolls := 0);
    CountIgnored(s);
  }

  lemma CountIgnored(s: Screen)
    requires DarkBehind(s)
    ensures DarkBehind(s.(scrolls := 0))
  {
    var s' := s.(scrolls := 0);
    assert s'.cols * s'.rows == s.cols * s.rows;
  }

  /** A dark grid is clean wherever its cursor stands. */
  lemma DarkClean(c: Con)
    requires c.Ok() && c.fg == DEFAULT_FG && c.bg == DEFAULT_BG && c.cursorRow < c.rows && c.cursorCol < c.cols
    requires forall i :: 0 <= i < c.cols * c.rows ==> c.cells[i] == DARK
    ensures Clean(c)
  {
    var s := Reopened(c);
    IndexInside(s.cols, s.rows, s.row, s.col);
    assert s.cells == c.cells && s.cols * s.rows == c.cols * c.rows;
  }

  lemma WipedClean(c: Con)
    requires Clean(c)
    ensures Clean(Wiped(c))
  {
    DarkClean(Wiped(c));
  }

  ghost predicate RepliesStep(replies: seq<Reply>) {
    forall i :: 0 <= i < |replies| && replies[i].Say? ==> Steps(replies[i].text)
  }

  lemma {:induction false} RepliesClean(c: Con, replies: seq<Reply>)
    requires Clean(c) && RepliesStep(replies)
    ensures Clean(AfterReplies(c, replies))
  {
    if replies != [] {
      var n := |replies| - 1;
      var before := AfterReplies(c, replies[..n]);
      RepliesClean(c, replies[..n]);
      match replies[n] {
        case Say(text) => WrittenClean(before, text);
        case ClearScreen => WipedClean(before);
      }
    }
  }

  /** A console at a prompt: the edit starts at the cursor, with blank cells from there on. */
  ghost predicate Ready(c: Con) {
    && Clean(c) && c.editedCells == 0 && c.editRow == c.cursorRow && c.editCol == c.cursorCol
    && BlankFrom(c)
  }

  lemma PromptReady(c: Con)
    requires Clean(c)
    ensures Ready(Prompted(c))
  {
    PromptStartsEdit(c);
    WrittenClean(c, PROMPT);
    OriginInside(Prompted(c));
  }

  lemma SubmittedReady(c: Con, replies: seq<Reply>)
    requires Clean(c) && RepliesStep(replies)
    ensures Ready(AfterEnter(c, replies))
  {
    var c1 := c.(editedCells := 0);
    assert Reopened(c1) == Reopened(c);
    WrittenClean(c1, "\n");
    RepliesClean(Written(c1, "\n"), replies);
    PromptReady(AfterReplies(Written(c1, "\n"), replies));
  }

  lemma TotalIs(c: Con)
    ensures c.Total() == c.cols * c.rows
  {
  }

  /** The first prompt, on a grid that was dark from the top. */
  lemma BootedReady(c: Con)
    requires c.Ok() && Dark(c) && c.cursorRow == 0 && c.cursorCol == 0
    ensures Ready(Booted(c))
  {
    TotalIs(c);
    DarkClean(c);
    WrittenClean(c, GREETING);
    WrittenClean(Written(c, GREETING), "\n");
    PromptReady(Written(Written(c, GREETING), "\n"));
  }

  /** Where the first prompt of a newly started console stands. */
  lemma StartReady(l: Layout, f: Font)
    requires Drawable(f) && Fitted(NEW_CONSOLE, l, f).Sized()
    ensures Ready(Booted(Fitted(NEW_CONSOLE, l, f)))
  {
    BootedReady(Fitted(NEW_CONSOLE, l, f));
  }

  // ----- consoles inside a line -----

  /** The snapshot of the last prompt overlaid with a line that does not fill the grid, the cursor right after it. */
  ghost predicate Inside(p: Con, c: Con, line: seq<char>) {
    && Ready(p) && Overlaid(p, c, line) && AllTyped(line) && !Full(p, line)
    && c.cursorRow < c.rows && c.cursorCol < c.cols
    && Index(c.cols, c.cursorRow, c.cursorCol) == p.Origin() + |line|
  }

  lemma InsideClean(p: Con, c: Con, line: seq<char>)
    requires Inside(p, c, line)
    ensures Clean(c)
  {
    OriginInside(p);
    TotalIs(p);
    forall i | p.Origin() + |line| <= i < p.cols * p.rows ensures 0 <= i < |c.cells| && c.cells[i] == DARK {
      assert c.cells[i] == Overlay(p.cells, p.Origin(), line, p.fg, p.bg)[i];
    }
  }

  lemma LineInside(p: Con, c: Con, line: seq<char>, line': seq<char>)
    requires Inside(p, c, line) && AllTyped(line') && !Full(p, line') && line' != line
    requires line' == [] ==> line != []
    ensures Inside(p, EditLine(c, line'), line')
  {
    OverlaidNext(p, c, line, line');
    OverlaidBlanks(p, c, line);
    TypedRun(EditStart(c), line', c.fg, c.bg);
    KeepsGeometry(EditStart(c), line', c.fg, c.bg);
    assert p.cols * 0 == 0;
  }

  // ----- sessions -----

  /** The console as the last prompt left it. */
  function LastPrompt(c: Con, events: seq<KeyEvent>, replies: seq<seq<Reply>>): Con
    requires c.Ok() && |replies| == |events|
  {
    if events == [] then c
    else
      var n := |events| - 1;
      var before := SessionRun(Session(c, []), events[..n], replies[..n]);
      if ActionFor(before.line, events[n]).Submitted? then SessionRun(Session(c, []), events, replies).con
      else LastPrompt(c, events[..n], replies[..n])
  }

  /** No line of the session reaches the end of the grid. */
  predicate NeverFills(c: Con, events: seq<KeyEvent>, replies: seq<seq<Reply>>)
    requires c.Ok() && |replies| == |events|
  {
    && !Full(LastPrompt(c, events, replies), SessionRun(Session(c, []), events, replies).line)
    && (events == [] || NeverFills(c, events[..|events| - 1], replies[..|events| - 1]))
  }

  /**
   * Through a whole session in which no line reaches the end of the grid, every prompt has blank cells behind
   * it, and the cells are the last prompt's overlaid with the line in the editor, however it was typed.
   */
  lemma {:induction false} SessionShowsLines(c: Con, events: seq<KeyEvent>, replies: seq<seq<Reply>>)
    requires Ready(c) && |replies| == |events| && NeverFills(c, events, replies)
    requires forall i :: 0 <= i < |replies| ==> RepliesStep(replies[i])
    ensures var s := SessionRun(Session(c, []), events, replies);
            Inside(LastPrompt(c, events, replies), s.con, s.line)
  {
    if events == [] {
      OriginInside(c);
      assert Overlay(c.cells, c.Origin(), [], c.fg, c.bg) == c.cells;
    } else {
      var n := |events| - 1;
      SessionShowsLines(c, events[..n], replies[..n]);
      SessionKey(LastPrompt(c, events[..n], replies[..n]), SessionRun(Session(c, []), events[..n], replies[..n]),
                 events[n], replies[n]);
    }
  }

  lemma SessionKey(p: Con, s: Session, event: KeyEvent, replies: seq<Reply>)
    requires Inside(p, s.con, s.line) && RepliesStep(replies)
    ensures var s', submitted := SessionStep(s, event, replies), ActionFor(s.line, event).Submitted?;
            var p' := if submitted then s'.con else p;
            !Full(p', s'.line) ==> Inside(p', s'.con, s'.line)
  {
    InsideClean(p, s.con, s.line);
    ActionTellsChange(s.line, event);
    if ActionFor(s.line, event).Submitted? {
      SubmittedReady(s.con, replies);
      var c := AfterEnter(s.con, replies);
      assert Overlay(c.cells, c.Origin(), [], c.fg, c.bg) == c.cells;
    } else if LineAfter(s.line, event) != s.line && !Full(p, LineAfter(s.line, event)) {
      LineInside(p, s.con, s.line, LineAfter(s.line, event));
    }
  }

  // ----- sessions as transcripts -----

  /** What was typed since the last Enter. */
  function LineSince(events: seq<KeyEvent>): seq<char> {
    if events == [] || events[|events| - 1] == Press(Enter) then []
    else LineAfter(LineSince(events[..|events| - 1]), events[|events| - 1])
  }

  /** The terminal at the last prompt: every line entered so far stands on it with its command's output. */
  function PromptPaper(t: Paper, cols: nat, fg: Rgb, bg: Rgb, events: seq<KeyEvent>, replies: seq<seq<Reply>>): Paper
    requires |replies| == |events|
  {
    if events == [] then t
    else
      var n := |events| - 1;
      var before := PromptPaper(t, cols, fg, bg, events[..n], replies[..n]);
      if events[n] == Press(Enter) then
        EnterPaper(TypeAll(before, cols, Inked(LineSince(events[..n]), fg, bg)), cols, fg, bg, replies[n])
      else before
  }

  /** The terminal with the current line behind the last prompt. */
  function ScreenPaper(t: Paper, cols: nat, fg: Rgb, bg: Rgb, events: seq<KeyEvent>, replies: seq<seq<Reply>>): Paper
    requires |replies| == |events|
  {
    TypeAll(PromptPaper(t, cols, fg, bg, events, replies), cols, Inked(LineSince(events), fg, bg))
  }

  lemma LineOnPaper(p: Con, c: Con, line: seq<char>, t: Paper)
    requires Inside(p, c, line) && OnPaper(p, t)
    ensures OnPaper(c, TypeAll(t, p.cols, Inked(line, p.fg, p.bg)))
  {
    var w, s := Written(p, line), Reopened(p);
    assert NoTabs(line) by { forall i | 0 <= i < |line| ensures line[i] != '\t' { assert IsTyped(line[i]); } }
    WrittenOnPaper(p, t, line);
    TypedRun(s, line, p.fg, p.bg);
    TotalIs(p);
    assert p.cols * 0 == 0;
    if w.cursorRow != c.cursorRow || w.cursorCol != c.cursorCol {
      IndexApart(p.cols, w.cursorRow, w.cursorCol, c.cursorRow, c.cursorCol);
      assert false;
    }
    var t' := TypeAll(t, p.cols, Inked(line, p.fg, p.bg));
    var k :| Window(Scrolled(w, k), t');
    assert Scrolled(c, k) == Scrolled(w, k);
  }

  /** Enter puts the line, the command's output and the next prompt on the terminal. */
  lemma EnterStep(p: Con, c: Con, line: seq<char>, t: Paper, replies: seq<Reply>)
    requires Inside(p, c, line) && OnPaper(p, t) && RepliesStep(replies)
    ensures var c' := AfterEnter(c, replies);
            && c'.cols == p.cols && c'.fg == p.fg && c'.bg == p.bg
            && OnPaper(c', EnterPaper(TypeAll(t, p.cols, Inked(line, p.fg, p.bg)), p.cols, p.fg, p.bg, replies))
  {
    LineOnPaper(p, c, line, t);
    EnterOnPaper(c, TypeAll(t, p.cols, Inked(line, p.fg, p.bg)), replies);
    EnterKeeps(c, replies);
  }

  lemma EnterKeeps(c: Con, replies: seq<Reply>)
    requires c.Ok()
    ensures var c' := AfterEnter(c, replies); c'.cols == c.cols && c'.fg == c.fg && c'.bg == c.bg
  {
    WrittenOk(c.(editedCells := 0), "\n");
    RepliesKeep(Written(c.(editedCells := 0), "\n"), replies);
  }

  lemma {:induction false} RepliesKeep(c: Con, replies: seq<Reply>)
    requires c.Ok()
    ensures var r := AfterReplies(c, replies); r.cols == c.cols && r.fg == c.fg && r.bg == c.bg
  {
    if replies != [] { RepliesKeep(c, replies[..|replies| - 1]); }
  }

  /** The session at its last prompt. */
  lemma {:induction false} PromptIsTranscript(c: Con, t: Paper, events: seq<KeyEvent>, replies: seq<seq<Reply>>)
    requires Ready(c) && OnPaper(c, t) && |replies| == |events| && NeverFills(c, events, replies)
    requires forall i :: 0 <= i < |replies| ==> RepliesStep(replies[i])
    ensures var s, p := SessionRun(Session(c, []), events, replies), LastPrompt(c, events, replies);
            && s.line == LineSince(events)
            && p.cols == c.cols && p.fg == c.fg && p.bg == c.bg
            && OnPaper(p, PromptPaper(t, c.cols, c.fg, c.bg, events, replies))
  {
    if events != [] {
      var n := |events| - 1;
      var s0, p0 := SessionRun(Session(c, []), events[..n], replies[..n]), LastPrompt(c, events[..n], replies[..n]);
      PromptIsTranscript(c, t, events[..n], replies[..n]);
      EnterSubmits(events[n], s0.line);
      if events[n] == Press(Enter) {
        SessionShowsLines(c, events[..n], replies[..n]);
        EnterStep(p0, s0.con, s0.line, PromptPaper(t, c.cols, c.fg, c.bg, events[..n], replies[..n]), replies[n]);
      }
    }
  }

  /**
   * Through a whole session in which no line reaches the end of the grid the console shows the transcript: a
   * terminal on which every prompt, line and output was typed in turn, since the screen was last cleared.
   */
  lemma SessionIsTranscript(c: Con, t: Paper, events: seq<KeyEvent>, replies: seq<seq<Reply>>)
    requires Ready(c) && OnPaper(c, t) && |replies| == |events| && NeverFills(c, events, replies)
    requires forall i :: 0 <= i < |replies| ==> RepliesStep(replies[i])
    ensures var s := SessionRun(Session(c, []), events, replies);
            && s.line == LineSince(events)
            && OnPaper(s.con, ScreenPaper(t, c.cols, c.fg, c.bg, events, replies))
  {
    var s, p := SessionRun(Session(c, []), events, replies), LastPrompt(c, events, replies);
    PromptIsTranscript(c, t, events, replies);
    SessionShowsLines(c, events, replies);
    LineOnPaper(p, s.con, s.line, PromptPaper(t, c.cols, c.fg, c.bg, events, replies));
  }

  /** Enter and nothing else submits. */
  lemma EnterSubmits(event: KeyEvent, line: seq<char>)
    ensures ActionFor(line, event).Submitted? <==> event == Press(Enter)
  {
  }

  const FIRST_LINES := "Hello from Ferric-K!\nferric-k$ "

  lemma NewOnPaper(l: Layout, f: Font)
    requires Drawable(f) && Fitted(NEW_CONSOLE, l, f).Sized()
    ensures OnPaper(Fitted(NEW_CONSOLE, l, f), FRESH)
  {
    var c := Fitted(NEW_CONSOLE, l, f);
    ClearedWindow(Scrolled(c, 0), DEFAULT_FG, DEFAULT_BG);
    assert Scrolled(c, 0) == Cleared(Scrolled(c, 0), DEFAULT_FG, DEFAULT_BG);
  }

  lemma BootedOnPaper(c: Con, t: Paper)
    requires c.Ok() && OnPaper(c, t)
    ensures OnPaper(Booted(c), TypeAll(t, c.cols, Inked(GREETING + "\n" + PROMPT, c.fg, c.bg)))
  {
    var w := Written(c, GREETING);
    WrittenOk(c, GREETING);
    WrittenOk(w, "\n");
    WrittenOnPaper(c, t, GREETING);
    var t1 := TypeAll(t, c.cols, Inked(GREETING, c.fg, c.bg));
    WrittenOnPaper(w, t1, "\n");
    PromptedOnPaper(Written(w, "\n"), TypeAll(t1, c.cols, Inked("\n", c.fg, c.bg)));
    TypeThree(t, c.cols, GREETING, "\n", PROMPT, c.fg, c.bg);
  }

  /** The terminal at the first prompt. */
  lemma StartOnPaper(l: Layout, f: Font)
    requires Drawable(f) && Fitted(NEW_CONSOLE, l, f).Sized()
    ensures var c := Fitted(NEW_CONSOLE, l, f);
            OnPaper(Booted(c), TypeAll(FRESH, c.cols, Inked(FIRST_LINES, DEFAULT_FG, DEFAULT_BG)))
  {
    NewOnPaper(l, f);
    BootedOnPaper(Fitted(NEW_CONSOLE, l, f), FRESH);
    assert GREETING + "\n" + PROMPT == FIRST_LINES;
  }

  // ----- the methods together -----

  /** A prompt below the greeting on a fresh terminal, as many columns wide as whole glyphs fit. */
  ghost predicate Greeted(c: Con, width: nat, glyphWidth: nat) {
    glyphWidth > 0 && Ready(c)
    && OnPaper(c, TypeAll(FRESH, width / glyphWidth, Inked(FIRST_LINES, DEFAULT_FG, DEFAULT_BG)))
  }

  /** From a loader's surface to the first prompt: what stands on the screen, and on the surface. */
  method StartSession(surface: array<Byte>, l: Layout, font: Font)
    returns (fb: FrameBuffer?, console: Console?, ok: bool)
    requires surface.Length == l.pitch * l.height && Drawable(font)
    modifies surface
    ensures ok <==>
              && Accepts(l) && l.width >= 7 && l.height >= 1
              && (l.width / font.width) * (l.height / font.height) <= CELL_COUNT
    ensures ok && l.width >= font.width && l.height >= font.height ==>
              && fb != null && console != null
              && console.Valid() && console.Fits(fb) && console.Shown(fb)
              && Greeted(console.Now(), l.width, font.width)
  {
    fb, console, ok := StartUp(surface, l, font);
    if ok && l.width >= font.width && l.height >= font.height {
      FittedSized(l, font);
      StartReady(l, font);
      StartOnPaper(l, font);
    }
  }

  lemma FittedSized(l: Layout, f: Font)
    requires f.width > 0 && f.height > 0 && l.width >= f.width && l.height >= f.height
    requires (l.width / f.width) * (l.height / f.height) <= CELL_COUNT
    ensures Fitted(NEW_CONSOLE, l, f).Sized()
  {
    OneWhole(l.width, f.width);
    OneWhole(l.height, f.height);
  }

  lemma OneWhole(total: nat, unit: nat)
    requires 0 < unit <= total
    ensures total / unit > 0
  {
  }

  /** A run of keys at a prompt: the surface shows the console, and the console the transcript. */
  method RunSession(console: Console, fb: FrameBuffer, editor: LineEditor,
                    events: seq<KeyEvent>, replies: seq<seq<Reply>>, ghost t: Paper)
    requires console.Valid() && console.Fits(fb) && console.Shown(fb) && Ready(console.Now())
    requires OnPaper(console.Now(), t)
    requires editor.Valid() && editor.Line() == []
    requires |replies| == |events| && NeverFills(console.Now(), events, replies)
    requires forall i :: 0 <= i < |replies| ==> RepliesStep(replies[i])
    modifies console, console.cells, fb`pix, fb.bytes, editor, editor.line
    ensures console.Valid() && console.Fits(fb) && console.Shown(fb)
    ensures editor.Valid() && editor.Line() == LineSince(events)
    ensures var c := old(console.Now());
            OnPaper(console.Now(), ScreenPaper(t, c.cols, c.fg, c.bg, events, replies))
  {
    SessionIsTranscript(console.Now(), t, events, replies);
    HandleKeys(console, fb, editor, events, replies);
  }
}
