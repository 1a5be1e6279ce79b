/** The single-line editor behind the shell prompt. */
module LineEditing {
  import opened Keys

  const MAX_LINE_CHARS := 128

  datatype LineAction = Inserted | Erased | Submitted | Ignored

  /** What the editor accepts: visible ASCII and the space. */
  predicate IsTyped(c: char) {
    ' ' <= c <= '~'
  }

  function LineAfter(line: seq<char>, event: KeyEvent): seq<char> {
    match event
    case Press(Char(c)) => if IsTyped(c) && |line| < MAX_LINE_CHARS then line + [c] else line
    case Press(Backspace) => if line == [] then line else line[..|line| - 1]
    case _ => line
  }

  function ActionFor(line: seq<char>, event: KeyEvent): LineAction {
    match event
    case Press(Char(c)) => if IsTyped(c) && |line| < MAX_LINE_CHARS then Inserted else Ignored
    case Press(Enter) => Submitted
    case Press(Backspace) => if line == [] then Ignored else Erased
    case _ => Ignored
  }

  /** The line a history of events leaves. */
  function LineOf(line: seq<char>, events: seq<KeyEvent>): seq<char> {
    if events == [] then line else LineAfter(LineOf(line, events[..|events| - 1]), events[|events| - 1])
  }

  ghost predicate AllTyped(line: seq<char>) {
    forall i :: 0 <= i < |line| ==> IsTyped(line[i])
  }

  /** A typed character goes to the end of a line with room for it, and erasing it restores the line. */
  lemma EraseUndoes(line: seq<char>, c: char)
    requires ' ' <= c <= '~' && |line| < 128
    ensures var typed := LineAfter(line, Press(Char(c)));
            && |typed| == |line| + 1 && typed[|line|] == c && line <= typed
            && LineAfter(typed, Press(Backspace)) == line
            && ActionFor(line, Press(Char(c))).Inserted? && ActionFor(typed, Press(Backspace)).Erased?
  {
  }

  /** Erasing takes the last character and keeps the rest. */
  lemma EraseKeeps(line: seq<char>)
    requires line != []
    ensures var erased := LineAfter(line, Press(Backspace)); |erased| == |line| - 1 && erased <= line
  {
  }

  /** Any other event, a full line or an empty one leave the line alone, and only Enter submits it. */
  lemma OthersKeep(line: seq<char>, event: KeyEvent)
    requires forall c :: event == Press(Char(c)) ==> c < ' ' || '~' < c || |line| >= 128
    requires event == Press(Backspace) ==> line == []
    ensures LineAfter(line, event) == line
    ensures ActionFor(line, event) == if event == Press(Enter) then Submitted else Ignored
  {
  }

  /** An event changes the line exactly when the editor reports an insertion or an erasure. */
  lemma ActionTellsChange(line: seq<char>, event: KeyEvent)
    ensures LineAfter(line, event) != line <==> ActionFor(line, event).Inserted? || ActionFor(line, event).Erased?
  {
    assert |line| > 0 ==> |line[..|line| - 1]| < |line|;
    match event
    case Press(Char(c)) => assert |line + [c]| > |line|;
    case _ =>
  }

  class LineEditor {
    const line: array<char>
    var len: nat

    predicate Valid()
      reads this
    {
      len <= line.Length == MAX_LINE_CHARS
    }

    function Line(): seq<char>
      requires Valid()
      reads this, line
    {
      line[..len]
    }

    constructor ()
      ensures Valid() && Line() == [] && fresh(line)
    {
      line := new char[MAX_LINE_CHARS](_ => ' ');
      len := 0;
    }

    /** One key event moves the array and the length as `LineAfter` moves the line. */
    method Handle(event: KeyEvent) returns (action: LineAction)
      requires Valid() && AllTyped(Line())
      modifies this, line
      ensures Valid() && AllTyped(Line())
      ensures Line() == LineAfter(old(Line()), event)
      ensures action == ActionFor(old(Line()), event)
    {
      match event {
        case Press(Char(c)) =>
          if IsTyped(c) && len < MAX_LINE_CHARS {
            line[len] := c;
            len := len + 1;
            assert Line() == old(Line()) + [c];
            return Inserted;
          }
          return Ignored;
        case Press(Enter) => return Submitted;
        case Press(Backspace) =>
          if len == 0 {
            return Ignored;
          }
          len := len - 1;
          assert Line() == old(Line())[..|old(Line())| - 1];
          return Erased;
        case _ => return Ignored;
      }
    }

    method Clear()
      requires Valid()
      modifies this
      ensures Valid() && Line() == []
    {
      len := 0;
    }
  }
}
