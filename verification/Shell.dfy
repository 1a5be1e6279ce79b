/** The shell on the console: keys edit a line, Enter runs it, and every command ends in a fresh prompt. */
module Shell {
  import opened Bits
  import opened Pixels
  import opened Psf
  import opened Surface
  import opened Grid
  import opened Keys
  import opened LineEditing
  import opened EditLines
  import opened Console
  import Terminal

  const PROMPT := "ferric-k$ "

  /** What a command does to the console: it prints, or it clears the screen. */
  datatype Reply = Say(text: seq<char>) | ClearScreen

  /** Commands print no tabs. */
  predicate Plain(replies: seq<Reply>) {
    forall i :: 0 <= i < |replies| && replies[i].Say? ==> Terminal.NoTabs(replies[i].text)
  }

  datatype Session = Session(con: Con, line: seq<char>)

  function AfterReply(c: Con, reply: Reply): Con
    requires c.Ok()
  {
    match reply case Say(text) => Written(c, text) case ClearScreen => Wiped(c)
  }

  function AfterReplies(c: Con, replies: seq<Reply>): (r: Con)
    requires c.Ok()
    ensures r.Ok() && |r.cells| == |c.cells|
  {
    if replies == [] then c
    else
      var before := AfterReplies(c, replies[..|replies| - 1]);
      WrittenOk(before, match replies[|replies| - 1] case Say(text) => text case ClearScreen => []);
      AfterReply(before, replies[|replies| - 1])
  }

  function Prompted(c: Con): (r: Con)
    requires c.Ok()
    ensures r.Ok() && |r.cells| == |c.cells|
  {
    WrittenOk(c, PROMPT);
    var p := Written(c, PROMPT);
    p.(editRow := p.cursorRow, editCol := p.cursorCol, editedCells := 0)
  }

  /** Enter closes the edit, opens a new row, runs the command and prompts again. */
  function AfterEnter(c: Con, replies: seq<Reply>): (r: Con)
    requires c.Ok()
    ensures r.Ok() && |r.cells| == |c.cells|
  {
    WrittenOk(c.(editedCells := 0), "\n");
    Prompted(AfterReplies(Written(c.(editedCells := 0), "\n"), replies))
  }

  function SessionStep(s: Session, event: KeyEvent, replies: seq<Reply>): Session
    requires s.con.Ok()
  {
    if ActionFor(s.line, event).Submitted? then Session(AfterEnter(s.con, replies), [])
    else Session(KeyStep(s.con, s.line, event), LineAfter(s.line, event))
  }

  /** A session over key events; `replies[i]` is what the command does that event `i` submits, if it does. */
  function SessionRun(s: Session, events: seq<KeyEvent>, replies: seq<seq<Reply>>): (r: Session)
    requires s.con.Ok() && |replies| == |events|
    ensures r.con.Ok()
  {
    if events == [] then s
    else
      var n := |events| - 1;
      var before := SessionRun(s, events[..n], replies[..n]);
      EditLineOk(before.con, LineAfter(before.line, events[n]));
      SessionStep(before, events[n], replies[n])
  }

  // ----- start-up -----

  const GREETING := "Hello from Ferric-K!"

  /** The console once the first prompt stands below the greeting. */
  function Booted(c: Con): (r: Con)
    requires c.Ok()
    ensures r.Ok()
  {
    WrittenOk(c, GREETING);
    WrittenOk(Written(c, GREETING), "\n");
    Prompted(Written(Written(c, GREETING), "\n"))
  }

  /** The geometry of a surface in whole glyphs. */
  function Fitted(c: Con, l: Layout, f: Font): Con
    requires f.width > 0 && f.height > 0
  {
    c.(cols := l.width / f.width, rows := l.height / f.height)
  }

  /**
   * Brings the console up on a captured surface. For every surface and glyph size the first write finds a grid,
   * and nothing panics, exactly when the whole glyphs that fit the surface are no more than the buffer's cells.
   */
  method Boot(fb: FrameBuffer, font: Font) returns (console: Console, ok: bool)
    requires fb.Valid() && Drawable(font)
    modifies fb`pix, fb.bytes
    ensures fresh(console) && fresh(console.cells) && fb.Valid()
    ensures ok <==> (fb.layout.width / font.width) * (fb.layout.height / font.height) <= CELL_COUNT
    ensures var c := Fitted(NEW_CONSOLE, fb.layout, font);
            c.Sized() ==>
              && console.Valid() && console.Fits(fb) && console.Shown(fb)
              && console.Now() == Booted(c)
  {
    console := new Console(font);
    console.SetGeometry(fb);
    ghost var c := console.Now();
    if c.Sized() {
      PlainInside(c, GREETING);
      WrittenOk(c, GREETING);
    }
    ok := console.PutText(GREETING);
    if !ok || console.cols == 0 || console.rows == 0 {
      return;
    }
    PlainInside(console.Now(), "\n");
    console.WriteStr(fb, "\n");
    NewPrompt(console, fb);
  }

  /**
   * From a loader's surface to the first prompt: capture it, draw and verify the bars, bring up the console.
   * The start fails exactly when the layout is refused, the bars do not fit, or the grid is too large.
   */
  method StartUp(surface: array<Byte>, l: Layout, font: Font)
    returns (fb: FrameBuffer?, console: Console?, ok: bool)
    requires surface.Length == l.pitch * l.height && Drawable(font)
    modifies surface
    ensures ok <==>
              && Accepts(l) && l.width >= 7 && l.height >= 1
              && (l.width / font.width) * (l.height / font.height) <= CELL_COUNT
    ensures ok && Fitted(NEW_CONSOLE, l, font).Sized() ==>
              && fb != null && console != null && fb.layout == l
              && console.Valid() && console.Fits(fb) && console.Shown(fb)
              && console.Now() == Booted(Fitted(NEW_CONSOLE, l, font))
  {
    fb, console, ok := null, null, false;
    fb := FromLayout(surface, l);
    if fb == null {
      return;
    }
    var passed := RunColorBarSelfTest(fb);
    if !passed {
      return;
    }
    console, ok := Boot(fb, font);
  }

  /** With 8 by 16 glyphs a 3840 by 2160 surface is too large: the greeting panics. */
  method BootOnLargeSurface(fb: FrameBuffer, font: Font) returns (ok: bool)
    requires fb.Valid() && Drawable(font)
    requires fb.layout.width == 3840 && fb.layout.height == 2160 && font.width == 8 && font.height == 16
    modifies fb`pix, fb.bytes
    ensures !ok
  {
    var console;
    console, ok := Boot(fb, font);
  }

  /** Until Enter is pressed, a session is the editing history of one line. */
  lemma {:induction false} OneLineSession(c: Con, events: seq<KeyEvent>, replies: seq<seq<Reply>>)
    requires c.Ok() && |replies| == |events| && Press(Enter) !in events
    ensures SessionRun(Session(c, []), events, replies) == Session(KeyRun(c, events), LineOf([], events))
  {
    if events != [] {
      var n := |events| - 1;
      OneLineSession(c, events[..n], replies[..n]);
    }
  }

  /** A prompt starts the next line's edit afresh, with the cursor inside the row. */
  lemma PromptStartsEdit(c: Con)
    requires c.Ok()
    ensures var p := Prompted(c); p.editedCells == 0 && p.editRow == p.cursorRow && p.editCol == p.cursorCol < p.cols
  {
    WrittenOk(c, PROMPT);
  }

  // ----- what stands on the screen -----

  /** The console's grid and cursor, counted as scrolled by `k` rows. */
  function Scrolled(c: Con, k: nat): Screen {
    Screen(c.cells, c.cols, c.rows, c.cursorRow, c.cursorCol, Blank(DEFAULT_FG, DEFAULT_BG), k)
  }

  /** The console shows the bottom of a terminal of unbounded height, with the cursor inside the row. */
  ghost predicate OnPaper(c: Con, t: Terminal.Paper) {
    c.Sized() && c.cursorCol < c.cols && exists k :: Terminal.Window(Scrolled(c, k), t)
  }

  lemma WrittenOnPaper(c: Con, t: Terminal.Paper, text: seq<char>)
    requires OnPaper(c, t) && Terminal.NoTabs(text)
    ensures OnPaper(Written(c, text), Terminal.TypeAll(t, c.cols, Terminal.Inked(text, c.fg, c.bg)))
  {
    var k :| Terminal.Window(Scrolled(c, k), t);
    var s := Scrolled(c, k);
    Terminal.PlainWindow(s, t, text, c.fg, c.bg);
    Terminal.KeepsGeometry(s, text, c.fg, c.bg);
    Terminal.CountAside(s, 0, text, c.fg, c.bg);
    assert Reopened(c) == s.(scrolls := 0);
    var s' := AfterAll(s, text, c.fg, c.bg);
    assert Scrolled(Written(c, text), s'.scrolls) == s';
  }

  lemma WipedOnPaper(c: Con)
    requires c.Sized() && c.fg == DEFAULT_FG && c.bg == DEFAULT_BG
    ensures OnPaper(Wiped(c), Terminal.FRESH)
  {
    Terminal.ClearedWindow(Scrolled(c, 0), c.fg, c.bg);
    assert Scrolled(Wiped(c), 0) == Cleared(Scrolled(c, 0), c.fg, c.bg);
  }

  /** Whether a command clears the screen. */
  predicate Clears(replies: seq<Reply>) {
    exists i :: 0 <= i < |replies| && replies[i].ClearScreen?
  }

  /** What a command prints, after the last time it clears the screen if it does. */
  function Output(replies: seq<Reply>): seq<char> {
    if replies == [] then []
    else match replies[|replies| - 1]
      case Say(text) => Output(replies[..|replies| - 1]) + text
      case ClearScreen => []
  }

  /** The terminal after Enter: a new row, the command's output and the prompt; on fresh paper once it has cleared. */
  function EnterPaper(t: Terminal.Paper, cols: nat, fg: Rgb, bg: Rgb, replies: seq<Reply>): Terminal.Paper {
    if Clears(replies) then
      Terminal.TypeAll(Terminal.FRESH, cols, Terminal.Inked(Output(replies) + "ferric-k$ ", fg, bg))
    else
      Terminal.TypeAll(t, cols, Terminal.Inked("\n" + Output(replies) + "ferric-k$ ", fg, bg))
  }

  lemma ClearsLast(replies: seq<Reply>)
    requires replies != []
    ensures var n := |replies| - 1; Clears(replies) <==> Clears(replies[..n]) || replies[n].ClearScreen?
  {
    var n := |replies| - 1;
    if Clears(replies[..n]) {
      var i :| 0 <= i < n && replies[..n][i].ClearScreen?;
      assert replies[i].ClearScreen?;
    }
    if Clears(replies) && !replies[n].ClearScreen? {
      var i :| 0 <= i < |replies| && replies[i].ClearScreen?;
      assert replies[..n][i].ClearScreen?;
    }
  }

  lemma {:induction false} RepliesOnPaper(c: Con, t: Terminal.Paper, replies: seq<Reply>)
    requires c.Ok() && OnPaper(c, t) && Plain(replies)
    requires Clears(replies) ==> c.fg == DEFAULT_FG && c.bg == DEFAULT_BG
    ensures var r := AfterReplies(c, replies);
            && r.cols == c.cols && r.fg == c.fg && r.bg == c.bg
            && OnPaper(r, Terminal.TypeAll(if Clears(replies) then Terminal.FRESH else t, c.cols,
                                           Terminal.Inked(Output(replies), c.fg, c.bg)))
  {
    if replies == [] {
      assert Terminal.Inked([], c.fg, c.bg) == [];
    } else {
      var n := |replies| - 1;
      var front := replies[..n];
      var t0 := if Clears(front) then Terminal.FRESH else t;
      ClearsLast(replies);
      RepliesOnPaper(c, t, front);
      match replies[n] {
        case Say(text) =>
          var u, v := Terminal.Inked(Output(front), c.fg, c.bg), Terminal.Inked(text, c.fg, c.bg);
          WrittenOnPaper(AfterReplies(c, front), Terminal.TypeAll(t0, c.cols, u), text);
          Terminal.InkedConcat(Output(front), text, c.fg, c.bg);
          Terminal.TypeConcat(t0, c.cols, u, v);
        case ClearScreen =>
          WipedOnPaper(AfterReplies(c, front));
          assert Terminal.Inked([], c.fg, c.bg) == [];
      }
    }
  }

  lemma PromptedOnPaper(c: Con, t: Terminal.Paper)
    requires c.Ok() && OnPaper(c, t)
    ensures OnPaper(Prompted(c), Terminal.TypeAll(t, c.cols, Terminal.Inked("ferric-k$ ", c.fg, c.bg)))
  {
    WrittenOnPaper(c, t, PROMPT);
    var w, p := Written(c, PROMPT), Prompted(c);
    var t' := Terminal.TypeAll(t, c.cols, Terminal.Inked(PROMPT, c.fg, c.bg));
    var k :| Terminal.Window(Scrolled(w, k), t');
    assert Scrolled(p, k) == Scrolled(w, k);
  }

  /** Typing three texts in turn is typing them together. */
  lemma TypeThree(t: Terminal.Paper, cols: nat, u: seq<char>, v: seq<char>, w: seq<char>, fg: Rgb, bg: Rgb)
    ensures Terminal.TypeAll(t, cols, Terminal.Inked(u + v + w, fg, bg))
         == var t1 := Terminal.TypeAll(t, cols, Terminal.Inked(u, fg, bg));
            var t2 := Terminal.TypeAll(t1, cols, Terminal.Inked(v, fg, bg));
            Terminal.TypeAll(t2, cols, Terminal.Inked(w, fg, bg))
  {
    Terminal.InkedConcat(u, v, fg, bg);
    Terminal.InkedConcat(u + v, w, fg, bg);
    Terminal.TypeConcat(t, cols, Terminal.Inked(u, fg, bg), Terminal.Inked(v, fg, bg));
    Terminal.TypeConcat(t, cols, Terminal.Inked(u + v, fg, bg), Terminal.Inked(w, fg, bg));
  }

  /** After Enter the screen shows what the terminal does: the new row, the command's output, the next prompt. */
  lemma EnterOnPaper(c: Con, t: Terminal.Paper, replies: seq<Reply>)
    requires c.Ok() && OnPaper(c, t) && Plain(replies)
    requires Clears(replies) ==> c.fg == DEFAULT_FG && c.bg == DEFAULT_BG
    ensures OnPaper(AfterEnter(c, replies), EnterPaper(t, c.cols, c.fg, c.bg, replies))
  {
    var c1 := c.(editedCells := 0);
    var k :| Terminal.Window(Scrolled(c, k), t);
    assert Scrolled(c1, k) == Scrolled(c, k);
    var t1 := Terminal.TypeAll(t, c.cols, Terminal.Inked("\n", c.fg, c.bg));
    var t2 := if Clears(replies) then Terminal.FRESH else t1;
    WrittenOk(c1, "\n");
    WrittenOnPaper(c1, t, "\n");
    RepliesOnPaper(Written(c1, "\n"), t1, replies);
    PromptedOnPaper(AfterReplies(Written(c1, "\n"), replies),
                    Terminal.TypeAll(t2, c.cols, Terminal.Inked(Output(replies), c.fg, c.bg)));
    TypeThree(t, c.cols, "\n", Output(replies), "ferric-k$ ", c.fg, c.bg);
    TypeThree(Terminal.FRESH, c.cols, [], Output(replies), "ferric-k$ ", c.fg, c.bg);
    assert Terminal.Inked([], c.fg, c.bg) == [];
    assert [] + Output(replies) == Output(replies);
  }

  method NewPrompt(console: Console, fb: FrameBuffer)
    requires console.Valid() && console.Fits(fb)
    modifies console, console.cells, fb`pix, fb.bytes
    ensures console.Valid() && console.Fits(fb) && console.Shown(fb)
    ensures console.Now() == Prompted(old(console.Now()))
  {
    PromptStartsEdit(console.Now());
    PlainInside(console.Now(), PROMPT);
    console.WriteStr(fb, PROMPT);
    console.Render(fb);
    console.BeginEdit();
  }

  /** A text without tabs never misses the buffer. */
  lemma PlainInside(c: Con, text: seq<char>)
    requires c.Sized() && Terminal.NoTabs(text)
    ensures Terminal.StaysInside(Reopened(c), text, c.fg, c.bg)
  {
    var s := Reopened(c);
    Terminal.NoTabsLand(s.col, s.cols, text);
    Terminal.LandedPrintsInside(s.col, s.cols, text);
    Terminal.PrintsStayInside(s, text, c.fg, c.bg);
  }

  method RunCommand(console: Console, fb: FrameBuffer, replies: seq<Reply>)
    requires console.Valid() && console.Fits(fb) && Plain(replies)
    modifies console, console.cells, fb`pix, fb.bytes
    ensures console.Valid() && console.Fits(fb)
    ensures console.Now() == AfterReplies(old(console.Now()), replies)
  {
    for i := 0 to |replies|
      invariant console.Valid() && console.Fits(fb)
      invariant console.Now() == AfterReplies(old(console.Now()), replies[..i])
    {
      assert replies[..i + 1][..i] == replies[..i];
      match replies[i] {
        case Say(text) =>
          PlainInside(console.Now(), text);
          console.WriteStr(fb, text);
        case ClearScreen =>
          console.ClearScreen(fb);
      }
    }
    assert replies[..|replies|] == replies;
  }

  method Submit(console: Console, fb: FrameBuffer, replies: seq<Reply>)
    requires console.Valid() && console.Fits(fb) && Plain(replies)
    modifies console, console.cells, fb`pix, fb.bytes
    ensures console.Valid() && console.Fits(fb) && console.Shown(fb)
    ensures console.Now() == AfterEnter(old(console.Now()), replies)
    ensures var c := old(console.Now());
            forall t :: OnPaper(c, t) && (Clears(replies) ==> c.fg == DEFAULT_FG && c.bg == DEFAULT_BG) ==>
              OnPaper(console.Now(), EnterPaper(t, c.cols, c.fg, c.bg, replies))
  {
    ghost var c := console.Now();
    forall t | OnPaper(c, t) && (Clears(replies) ==> c.fg == DEFAULT_FG && c.bg == DEFAULT_BG)
      ensures OnPaper(AfterEnter(c, replies), EnterPaper(t, c.cols, c.fg, c.bg, replies))
    {
      EnterOnPaper(c, t, replies);
    }
    console.EndEdit();
    PlainInside(console.Now(), "\n");
    console.WriteStr(fb, "\n");
    RunCommand(console, fb, replies);
    NewPrompt(console, fb);
  }

  /** The shell's handling of any run of keys: after each of them the surface shows every cell of the console. */
  method HandleKeys(console: Console, fb: FrameBuffer, editor: LineEditor,
                    events: seq<KeyEvent>, replies: seq<seq<Reply>>)
    requires console.Valid() && console.Fits(fb) && console.Shown(fb)
    requires editor.Valid() && AllTyped(editor.Line())
    requires |replies| == |events| && forall i :: 0 <= i < |replies| ==> Plain(replies[i])
    modifies console, console.cells, fb`pix, fb.bytes, editor, editor.line
    ensures console.Valid() && console.Fits(fb) && console.Shown(fb)
    ensures editor.Valid() && AllTyped(editor.Line())
    ensures Session(console.Now(), editor.Line())
         == SessionRun(Session(old(console.Now()), old(editor.Line())), events, replies)
  {
    for i := 0 to |events|
      invariant console.Valid() && console.Fits(fb) && console.Shown(fb)
      invariant editor.Valid() && AllTyped(editor.Line())
      invariant Session(console.Now(), editor.Line())
             == SessionRun(Session(old(console.Now()), old(editor.Line())), events[..i], replies[..i])
    {
      assert events[..i + 1][..i] == events[..i] && replies[..i + 1][..i] == replies[..i];
      HandleKey(console, fb, editor, events[i], replies[i]);
    }
    assert events[..|events|] == events && replies[..|replies|] == replies;
  }

  method HandleKey(console: Console, fb: FrameBuffer, editor: LineEditor, event: KeyEvent, replies: seq<Reply>)
    requires console.Valid() && console.Fits(fb) && console.Shown(fb)
    requires editor.Valid() && AllTyped(editor.Line()) && Plain(replies)
    modifies console, console.cells, fb`pix, fb.bytes, editor, editor.line
    ensures console.Valid() && console.Fits(fb) && console.Shown(fb)
    ensures editor.Valid() && AllTyped(editor.Line())
    ensures Session(console.Now(), editor.Line())
         == SessionStep(Session(old(console.Now()), old(editor.Line())), event, replies)
  {
    var action := editor.Handle(event);
    match action {
      case Inserted =>
        TypedForward(console.Now(), editor.Line());
        ForwardStays(console.Now(), editor.Line());
        console.SetEditLine(fb, editor.Line());
      case Erased =>
        TypedForward(console.Now(), editor.Line());
        ForwardStays(console.Now(), editor.Line());
        console.SetEditLine(fb, editor.Line());
      case Submitted =>
        Submit(console, fb, replies);
        editor.Clear();
      case Ignored =>
    }
  }
}
