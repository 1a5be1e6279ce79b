/** Keys, key events and the set-1 US layout. */
module Keys {
  import opened Options

  datatype Key =
    | Char(c: char)
    | Backspace | Tab | Enter | Escape
    | Up | Down | Left | Right | PageUp | PageDown | Home | End | Insert | Delete
    | LeftShift | RightShift | LeftControl | RightControl | LeftAlt | RightAlt | CapsLock
    | F(n: int)
    | Unknown(code: int)

  datatype KeyEvent = Press(key: Key) | Release(key: Key)

  type Code = b: int | 0 <= b < 128

  /** The character a key prints without shift; 0 when it prints nothing. */
  function Unshifted(make: Code): char {
    if 0x02 <= make <= 0x0D then "1234567890-="[make - 0x02]
    else if 0x10 <= make <= 0x1B then "qwertyuiop[]"[make - 0x10]
    else if 0x1E <= make <= 0x29 then "asdfghjkl;'`"[make - 0x1E]
    else if 0x2B <= make <= 0x35 then "\\zxcvbnm,./"[make - 0x2B]
    else if make == 0x39 then ' '
    else '\0'
  }

  function Shifted(make: Code): char {
    if 0x02 <= make <= 0x0D then "!@#$%^&*()_+"[make - 0x02]
    else if 0x10 <= make <= 0x1B then "QWERTYUIOP{}"[make - 0x10]
    else if 0x1E <= make <= 0x29 then "ASDFGHJKL:\"~"[make - 0x1E]
    else if 0x2B <= make <= 0x35 then "|ZXCVBNM<>?"[make - 0x2B]
    else if make == 0x39 then ' '
    else '\0'
  }

  /** The keys that print nothing. */
  function ControlKey(extended: bool, make: Code): Option<Key> {
    if !extended && make == 0x0E then Some(Backspace)
    else if !extended && make == 0x0F then Some(Tab)
    else if !extended && make == 0x1C then Some(Enter)
    else if !extended && make == 0x01 then Some(Escape)
    else if !extended && make == 0x2A then Some(LeftShift)
    else if !extended && make == 0x36 then Some(RightShift)
    else if make == 0x1D then Some(if extended then RightControl else LeftControl)
    else if make == 0x38 then Some(if extended then RightAlt else LeftAlt)
    else if !extended && make == 0x3A then Some(CapsLock)
    else if !extended && 0x3B <= make <= 0x44 then Some(F(make - 0x3B + 1))
    else if !extended && make == 0x57 then Some(F(11))
    else if !extended && make == 0x58 then Some(F(12))
    else if make == 0x47 then Some(Home)
    else if make == 0x48 then Some(Up)
    else if make == 0x49 then Some(PageUp)
    else if make == 0x4B then Some(Left)
    else if make == 0x4D then Some(Right)
    else if make == 0x4F then Some(End)
    else if make == 0x50 then Some(Down)
    else if make == 0x51 then Some(PageDown)
    else if make == 0x52 then Some(Insert)
    else if make == 0x53 then Some(Delete)
    else None
  }

  predicate IsLower(c: char) {
    'a' <= c <= 'z'
  }

  function ToUpper(c: char): char {
    if IsLower(c) then c - 'a' + 'A' else c
  }

  /** The key a code means under a shift and a caps state. */
  function LayoutKey(extended: bool, make: Code, shift: bool, caps: bool): Key {
    match ControlKey(extended, make)
    case Some(key) => key
    case None =>
      var base := Unshifted(make);
      if base == '\0' then Unknown(make)
      else if IsLower(base) then Char(if caps != shift then ToUpper(base) else base)
      else Char(if shift then Shifted(make) else base)
  }
}

/** The streaming scancode decoder, proved against an encoder of key strokes. */
module Scancodes {
  import opened Bits
  import opened Options
  import opened Keys

  /** A decoder's fields as a value. */
  datatype Modes = Modes(extended: bool, pause: bool, leftShift: bool, rightShift: bool, capsLock: bool)

  const IDLE := Modes(false, false, false, false, false)

  function EventOf(m: Modes, byte: Byte): KeyEvent {
    var shift := m.leftShift || m.rightShift;
    if byte >= 0x80 then Release(LayoutKey(m.extended, byte - 0x80, shift, m.capsLock))
    else Press(LayoutKey(m.extended, byte, shift, m.capsLock))
  }

  function AfterEvent(m: Modes, event: KeyEvent): Modes {
    match event
    case Press(LeftShift) => m.(extended := false, leftShift := true)
    case Press(RightShift) => m.(extended := false, rightShift := true)
    case Press(CapsLock) => m.(extended := false, capsLock := !m.capsLock)
    case Release(LeftShift) => m.(extended := false, leftShift := false)
    case Release(RightShift) => m.(extended := false, rightShift := false)
    case _ => m.(extended := false)
  }

  function PushModes(m: Modes, byte: Byte): Modes {
    if m.pause then m.(pause := byte != 0xC5)
    else if byte == 0xE0 then m.(extended := true)
    else if byte == 0xE1 then m.(pause := true)
    else AfterEvent(m, EventOf(m, byte))
  }

  function PushEvents(m: Modes, byte: Byte): seq<KeyEvent> {
    if m.pause || byte == 0xE0 || byte == 0xE1 then [] else [EventOf(m, byte)]
  }

  class ScancodeDecoder {
    var extended: bool
    var pause: bool
    var leftShift: bool
    var rightShift: bool
    var capsLock: bool

    function Now(): Modes
      reads this
    {
      Modes(extended, pause, leftShift, rightShift, capsLock)
    }

    constructor ()
      ensures Now() == IDLE
    {
      extended, pause, leftShift, rightShift, capsLock := false, false, false, false, false;
    }

    /** Looks a code up in the layout under the modifiers now held. */
    method Map(ext: bool, make: Code) returns (key: Key)
      ensures key == LayoutKey(ext, make, leftShift || rightShift, capsLock)
    {
      var control := ControlKey(ext, make);
      if control.Some? {
        return control.value;
      }
      var base := Unshifted(make);
      if base != '\0' {
        var shifted := leftShift || rightShift;
        var ch;
        if IsLower(base) {
          ch := if capsLock != shifted then ToUpper(base) else base;
        } else if shifted {
          ch := Shifted(make);
        } else {
          ch := base;
        }
        return Char(ch);
      }
      return Unknown(make);
    }

    /** One byte of the stream, stated on all five mode fields at once. */
    method Push(byte: Byte) returns (result: Option<KeyEvent>)
      modifies this
      ensures Now() == PushModes(old(Now()), byte)
      ensures PushEvents(old(Now()), byte) == if result.Some? then [result.value] else []
    {
      if pause {
        if byte == 0xC5 {
          pause := false;
        }
        return None;
      }
      if byte == 0xE0 {
        extended := true;
        return None;
      }
      if byte == 0xE1 {
        pause := true;
        return None;
      }
      var event := Decode(byte);
      AfterEventClears(Now(), event);
      extended := false;
      Track(event);
      result := Some(event);
    }

    method Decode(byte: Byte) returns (event: KeyEvent)
      ensures event == EventOf(Now(), byte)
    {
      if byte >= 0x80 {
        var key := Map(extended, byte - 0x80);
        event := Release(key);
      } else {
        var key := Map(extended, byte);
        event := Press(key);
      }
    }

    /** Keeps the modifier state up to date with an event. */
    method Track(event: KeyEvent)
      requires !extended
      modifies this
      ensures Now() == AfterEvent(old(Now()), event)
    {
      match event {
        case Press(LeftShift) => leftShift := true;
        case Press(RightShift) => rightShift := true;
        case Press(CapsLock) => capsLock := !capsLock;
        case Release(LeftShift) => leftShift := false;
        case Release(RightShift) => rightShift := false;
        case _ =>
      }
    }
  }

  lemma AfterEventClears(m: Modes, event: KeyEvent)
    ensures AfterEvent(m, event) == AfterEvent(m.(extended := false), event)
  {
  }

  // ----- byte streams -----

  function FeedModes(m: Modes, bytes: seq<Byte>): Modes
    decreases |bytes|
  {
    if bytes == [] then m else FeedModes(PushModes(m, bytes[0]), bytes[1..])
  }

  function FeedEvents(m: Modes, bytes: seq<Byte>): seq<KeyEvent>
    decreases |bytes|
  {
    if bytes == [] then [] else PushEvents(m, bytes[0]) + FeedEvents(PushModes(m, bytes[0]), bytes[1..])
  }

  lemma {:induction false} FeedConcat(m: Modes, u: seq<Byte>, v: seq<Byte>)
    ensures FeedModes(m, u + v) == FeedModes(FeedModes(m, u), v)
    ensures FeedEvents(m, u + v) == FeedEvents(m, u) + FeedEvents(FeedModes(m, u), v)
    decreases |u|
  {
    if u == [] {
      assert u + v == v;
    } else {
      assert (u + v)[1..] == u[1..] + v;
      FeedConcat(PushModes(m, u[0]), u[1..], v);
    }
  }

  lemma FeedFrom(m: Modes, bytes: seq<Byte>, i: nat)
    requires i < |bytes|
    ensures FeedModes(m, bytes[i..]) == FeedModes(PushModes(m, bytes[i]), bytes[i + 1..])
    ensures FeedEvents(m, bytes[i..]) == PushEvents(m, bytes[i]) + FeedEvents(PushModes(m, bytes[i]), bytes[i + 1..])
  {
    assert bytes[i..][1..] == bytes[i + 1..];
  }

  /** Feeds a whole stream to a decoder and collects its events. */
  method Feed(decoder: ScancodeDecoder, bytes: seq<Byte>) returns (events: seq<KeyEvent>)
    modifies decoder
    ensures events == FeedEvents(old(decoder.Now()), bytes)
    ensures decoder.Now() == FeedModes(old(decoder.Now()), bytes)
  {
    events := [];
    ghost var all, last := FeedEvents(decoder.Now(), bytes), FeedModes(decoder.Now(), bytes);
    for i := 0 to |bytes|
      invariant events + FeedEvents(decoder.Now(), bytes[i..]) == all
      invariant FeedModes(decoder.Now(), bytes[i..]) == last
    {
      ghost var m, rest := decoder.Now(), FeedEvents(PushModes(decoder.Now(), bytes[i]), bytes[i + 1..]);
      FeedFrom(m, bytes, i);
      var event := decoder.Push(bytes[i]);
      assert events + (PushEvents(m, bytes[i]) + rest) == (events + PushEvents(m, bytes[i])) + rest;
      events := events + if event.Some? then [event.value] else [];
    }
    assert bytes[|bytes|..] == [];
  }

  // ----- the encoder -----

  /** One key going down or coming up. */
  datatype Stroke = Stroke(extended: bool, make: Code, release: bool)

  /** A stroke, with complete Pause sequences between its prefix and its code; or a Pause by itself. */
  datatype Item = Key(stroke: Stroke, pauses: nat) | Pause

  const PAUSE: seq<Byte> := [0xE1, 0x1D, 0x45, 0xE1, 0x9D, 0xC5]

  /** The break codes of 0x60 and 0x61 are the two prefix bytes. */
  predicate Collides(s: Stroke) {
    s.release && (s.make == 0x60 || s.make == 0x61)
  }

  predicate NoneCollides(items: seq<Item>) {
    forall i :: 0 <= i < |items| && items[i].Key? ==> !Collides(items[i].stroke)
  }

  function CodeByte(s: Stroke): Byte {
    if s.release then s.make + 0x80 else s.make
  }

  function Pauses(n: nat): seq<Byte> {
    if n == 0 then [] else PAUSE + Pauses(n - 1)
  }

  function EncodeItem(item: Item): seq<Byte> {
    match item
    case Pause => PAUSE
    case Key(s, pauses) => (if s.extended then [0xE0] + Pauses(pauses) else []) + [CodeByte(s)]
  }

  function Encode(items: seq<Item>): seq<Byte> {
    if items == [] then [] else Encode(items[..|items| - 1]) + EncodeItem(items[|items| - 1])
  }

  function Strokes(items: seq<Item>): seq<Stroke> {
    if items == [] then []
    else Strokes(items[..|items| - 1]) + StrokesIn(items[|items| - 1])
  }

  function StrokesIn(item: Item): seq<Stroke> {
    match item case Key(s, _) => [s] case Pause => []
  }

  // ----- what the strokes mean -----

  function ControlOf(s: Stroke): Option<Key> {
    ControlKey(s.extended, s.make)
  }

  /** A modifier is held when the last stroke of its key was a press. */
  predicate Held(history: seq<Stroke>, key: Key) {
    history != [] &&
    (var last := history[|history| - 1];
     if ControlOf(last) == Some(key) then !last.release else Held(history[..|history| - 1], key))
  }

  function CapsPresses(history: seq<Stroke>): nat {
    if history == [] then 0
    else
      var last := history[|history| - 1];
      CapsPresses(history[..|history| - 1]) + if ControlOf(last) == Some(CapsLock) && !last.release then 1 else 0
  }

  /** The key of a stroke after a history: the layout under the last shift events and the parity of caps. */
  function Meaning(history: seq<Stroke>, s: Stroke): KeyEvent {
    var shift := Held(history, LeftShift) || Held(history, RightShift);
    var key := LayoutKey(s.extended, s.make, shift, CapsPresses(history) % 2 == 1);
    if s.release then Release(key) else Press(key)
  }

  function Meanings(history: seq<Stroke>): seq<KeyEvent> {
    if history == [] then []
    else
      var n := |history| - 1;
      Meanings(history[..n]) + [Meaning(history[..n], history[n])]
  }

  function ModesAfter(history: seq<Stroke>): Modes {
    Modes(false, false, Held(history, LeftShift), Held(history, RightShift), CapsPresses(history) % 2 == 1)
  }

  // ----- decoding inverts encoding -----

  lemma FeedCons(m: Modes, byte: Byte, rest: seq<Byte>)
    ensures FeedModes(m, [byte] + rest) == FeedModes(PushModes(m, byte), rest)
    ensures FeedEvents(m, [byte] + rest) == PushEvents(m, byte) + FeedEvents(PushModes(m, byte), rest)
  {
    assert ([byte] + rest)[1..] == rest;
  }

  lemma FeedOne(m: Modes, byte: Byte)
    ensures FeedModes(m, [byte]) == PushModes(m, byte)
    ensures FeedEvents(m, [byte]) == PushEvents(m, byte)
  {
    FeedCons(m, byte, []);
    assert [byte] + [] == [byte];
  }

  /** While a Pause is under way every byte is dropped, and the first 0xC5 ends it. */
  lemma {:induction false} RestSwallowed(m: Modes, bytes: seq<Byte>)
    requires m.pause && bytes != [] && bytes[|bytes| - 1] == 0xC5
    requires forall i :: 0 <= i < |bytes| - 1 ==> bytes[i] != 0xC5
    ensures FeedModes(m, bytes) == m.(pause := false) && FeedEvents(m, bytes) == []
    decreases |bytes|
  {
    assert bytes == [bytes[0]] + bytes[1..];
    FeedCons(m, bytes[0], bytes[1..]);
    if |bytes| > 1 {
      assert PushEvents(m, bytes[0]) == [] && PushModes(m, bytes[0]) == m;
      RestSwallowed(m, bytes[1..]);
    }
  }

  /** A complete Pause gives no event, and ends an unfinished one. */
  lemma PauseSwallowed(m: Modes)
    ensures FeedModes(m, PAUSE) == m.(pause := false) && FeedEvents(m, PAUSE) == []
  {
    RestSwallowed(m.(pause := true), PAUSE[1..]);
    FeedCons(m, 0xE1, PAUSE[1..]);
    assert [0xE1] + PAUSE[1..] == PAUSE;
  }

  lemma {:induction false} PausesSwallowed(m: Modes, n: nat)
    ensures FeedModes(m, Pauses(n)) == m.(pause := m.pause && n == 0) && FeedEvents(m, Pauses(n)) == []
    decreases n
  {
    if n > 0 {
      PauseSwallowed(m);
      FeedConcat(m, PAUSE, Pauses(n - 1));
      PausesSwallowed(m.(pause := false), n - 1);
    }
  }

  /** A modifier's key comes from its own control code and from nothing else. */
  lemma ModifierKeys(extended: bool, make: Code, shift: bool, caps: bool)
    ensures var key := LayoutKey(extended, make, shift, caps);
            && (key == LeftShift <==> ControlKey(extended, make) == Some(LeftShift))
            && (key == RightShift <==> ControlKey(extended, make) == Some(RightShift))
            && (key == CapsLock <==> ControlKey(extended, make) == Some(CapsLock))
  {
  }

  /** The modifier state after one more stroke, whatever key it means, as long as modifiers mean themselves. */
  lemma ModifiersStep(history: seq<Stroke>, s: Stroke, key: Key)
    requires key == LeftShift <==> ControlOf(s) == Some(LeftShift)
    requires key == RightShift <==> ControlOf(s) == Some(RightShift)
    requires key == CapsLock <==> ControlOf(s) == Some(CapsLock)
    ensures AfterEvent(ModesAfter(history), if s.release then Release(key) else Press(key))
         == ModesAfter(history + [s])
  {
    assert (history + [s])[..|history|] == history;
  }

  lemma ModesStep(history: seq<Stroke>, s: Stroke)
    ensures AfterEvent(ModesAfter(history), Meaning(history, s)) == ModesAfter(history + [s])
  {
    var shift := Held(history, LeftShift) || Held(history, RightShift);
    var caps := CapsPresses(history) % 2 == 1;
    ModifierKeys(s.extended, s.make, shift, caps);
    ModifiersStep(history, s, LayoutKey(s.extended, s.make, shift, caps));
  }

  /** A stroke's bytes, with or without prefix and Pauses, act as its code byte alone. */
  lemma EncodedKey(m: Modes, s: Stroke, pauses: nat)
    requires !m.pause && !m.extended
    ensures var bytes, m1 := EncodeItem(Key(s, pauses)), m.(extended := s.extended);
            FeedModes(m, bytes) == PushModes(m1, CodeByte(s)) && FeedEvents(m, bytes) == PushEvents(m1, CodeByte(s))
  {
    var prefix := if s.extended then [0xE0] + Pauses(pauses) else [];
    var m1 := m.(extended := s.extended);
    if s.extended {
      FeedCons(m, 0xE0, Pauses(pauses));
      PausesSwallowed(m1, pauses);
    }
    FeedConcat(m, prefix, [CodeByte(s)]);
    FeedOne(m1, CodeByte(s));
  }

  lemma ItemDecodes(history: seq<Stroke>, item: Item)
    requires item.Key? ==> !Collides(item.stroke)
    ensures && FeedModes(ModesAfter(history), EncodeItem(item)) == ModesAfter(history + StrokesIn(item))
            && FeedEvents(ModesAfter(history), EncodeItem(item)) ==
                 match item case Key(s, _) => [Meaning(history, s)] case Pause => []
  {
    var m := ModesAfter(history);
    match item
    case Pause =>
      PauseSwallowed(m);
      assert history + [] == history;
    case Key(s, pauses) =>
      var m1 := m.(extended := s.extended);
      EncodedKey(m, s, pauses);
      assert EventOf(m1, CodeByte(s)) == Meaning(history, s);
      AfterEventClears(m1, Meaning(history, s));
      ModesStep(history, s);
  }

  /**
   * Every stream of strokes and Pause keys decodes to one event per stroke, in order, each with the key the
   * layout gives it under the shift keys last pressed or released and the parity of CapsLock presses.
   */
  lemma {:induction false} DecodingInvertsEncoding(items: seq<Item>)
    requires NoneCollides(items)
    ensures FeedEvents(IDLE, Encode(items)) == Meanings(Strokes(items))
    ensures FeedModes(IDLE, Encode(items)) == ModesAfter(Strokes(items))
    ensures |FeedEvents(IDLE, Encode(items))| == |Strokes(items)|
  {
    if items != [] {
      var n := |items| - 1;
      var history := Strokes(items[..n]);
      DecodingInvertsEncoding(items[..n]);
      FeedConcat(IDLE, Encode(items[..n]), EncodeItem(items[n]));
      ItemDecodes(history, items[n]);
      match items[n] {
        case Key(s, _) => assert (history + [s])[..|history|] == history;
        case Pause => assert history + [] == history;
      }
    }
  }

  /** Whatever the decoder's state, a colliding stroke and a Pause give no event, any other stroke at most one. */
  lemma ItemYields(m: Modes, item: Item)
    ensures |FeedEvents(m, EncodeItem(item))| <= if item.Key? && !Collides(item.stroke) then 1 else 0
  {
    match item
    case Pause => PauseSwallowed(m);
    case Key(s, pauses) =>
      var prefix := if s.extended then [0xE0] + Pauses(pauses) else [];
      if s.extended {
        FeedCons(m, 0xE0, Pauses(pauses));
        PausesSwallowed(PushModes(m, 0xE0), pauses);
      }
      FeedConcat(m, prefix, [CodeByte(s)]);
      FeedOne(FeedModes(m, prefix), CodeByte(s));
  }

  lemma NoneCollidesLast(items: seq<Item>)
    requires items != []
    ensures var n := |items| - 1;
            NoneCollides(items) <==> NoneCollides(items[..n]) && (items[n].Key? ==> !Collides(items[n].stroke))
  {
    var n := |items| - 1;
    if NoneCollides(items[..n]) {
      forall i | 0 <= i < n && items[i].Key? ensures !Collides(items[i].stroke) {
        assert items[..n][i] == items[i];
      }
    }
  }

  lemma {:induction false} StreamYields(items: seq<Item>)
    ensures |FeedEvents(IDLE, Encode(items))| <= |Strokes(items)|
    ensures !NoneCollides(items) ==> |FeedEvents(IDLE, Encode(items))| < |Strokes(items)|
  {
    if items != [] {
      var n := |items| - 1;
      var m := FeedModes(IDLE, Encode(items[..n]));
      StreamYields(items[..n]);
      NoneCollidesLast(items);
      FeedConcat(IDLE, Encode(items[..n]), EncodeItem(items[n]));
      ItemYields(m, items[n]);
      assert Strokes(items) == Strokes(items[..n]) + StrokesIn(items[n]);
      assert |FeedEvents(IDLE, Encode(items))|
          == |FeedEvents(IDLE, Encode(items[..n]))| + |FeedEvents(m, EncodeItem(items[n]))|;
    }
  }

  lemma {:induction false} MeaningsLength(history: seq<Stroke>)
    ensures |Meanings(history)| == |history|
  {
    if history != [] { MeaningsLength(history[..|history| - 1]); }
  }

  /** A stream decodes to the meaning of its strokes exactly when none of them is a break of 0x60 or 0x61. */
  lemma DecodingExactly(items: seq<Item>)
    ensures FeedEvents(IDLE, Encode(items)) == Meanings(Strokes(items)) <==> NoneCollides(items)
  {
    if NoneCollides(items) {
      DecodingInvertsEncoding(items);
    } else {
      StreamYields(items);
      MeaningsLength(Strokes(items));
    }
  }

  // ----- what the keys are, by code -----

  /** The three letter rows. */
  predicate IsLetter(make: Code, c: char) {
    || (0x10 <= make <= 0x19 && c == "qwertyuiop"[make - 0x10])
    || (0x1E <= make <= 0x26 && c == "asdfghjkl"[make - 0x1E])
    || (0x2C <= make <= 0x32 && c == "zxcvbnm"[make - 0x2C])
  }

  const NUMBER_ROW := ["1!", "2@", "3#", "4$", "5%", "6^", "7&", "8*", "9(", "0)", "-_", "=+"]

  /** The other printing keys: what each prints without and with shift. */
  predicate IsPair(make: Code, pair: string) {
    || (0x02 <= make <= 0x0D && pair == NUMBER_ROW[make - 0x02])
    || (make == 0x1A && pair == "[{") || (make == 0x1B && pair == "]}")
    || (make == 0x27 && pair == ";:") || (make == 0x28 && pair == "'\"") || (make == 0x29 && pair == "`~")
    || (make == 0x2B && pair == "\\|")
    || (make == 0x33 && pair == ",<") || (make == 0x34 && pair == ".>") || (make == 0x35 && pair == "/?")
    || (make == 0x39 && pair == "  ")
  }

  /** The keys that print nothing, each with its own code; those of the navigation block have it in both forms. */
  predicate IsControl(extended: bool, make: Code, key: Key) {
    match key
    case Escape => !extended && make == 0x01
    case Backspace => !extended && make == 0x0E
    case Tab => !extended && make == 0x0F
    case Enter => !extended && make == 0x1C
    case LeftShift => !extended && make == 0x2A
    case RightShift => !extended && make == 0x36
    case CapsLock => !extended && make == 0x3A
    case LeftControl => !extended && make == 0x1D
    case RightControl => extended && make == 0x1D
    case LeftAlt => !extended && make == 0x38
    case RightAlt => extended && make == 0x38
    case F(n) => !extended && ((1 <= n <= 10 && make == 0x3A + n) || (11 <= n <= 12 && make == 0x4C + n))
    case Home => make == 0x47
    case Up => make == 0x48
    case PageUp => make == 0x49
    case Left => make == 0x4B
    case Right => make == 0x4D
    case End => make == 0x4F
    case Down => make == 0x50
    case PageDown => make == 0x51
    case Insert => make == 0x52
    case Delete => make == 0x53
    case _ => false
  }

  /** A key on the board is down when its last stroke, by its own code, was a press. */
  predicate IsDown(history: seq<Stroke>, make: Code) {
    history != [] &&
    (var last := history[|history| - 1];
     if !last.extended && last.make == make then !last.release else IsDown(history[..|history| - 1], make))
  }

  /** How often a key was pressed, by its own code. */
  function Presses(history: seq<Stroke>, make: Code): nat {
    if history == [] then 0
    else
      var last := history[|history| - 1];
      Presses(history[..|history| - 1], make) + if last == Stroke(false, make, false) then 1 else 0
  }

  /** A letter's capital. */
  function Capital(c: char): char
    requires 'a' <= c <= 'z'
  {
    c - ' '
  }

  /** No letter, pair or control key has the code. */
  ghost predicate Unassigned(extended: bool, make: Code) {
    && (forall c :: !IsLetter(make, c))
    && (forall pair :: !IsPair(make, pair))
    && (forall key :: !IsControl(extended, make, key))
  }

  /** What a key is, code by code. */
  ghost predicate IsKey(key: Key, s: Stroke, shift: bool, caps: bool) {
    && (forall c :: IsLetter(s.make, c) ==>
          'a' <= c <= 'z' && key == Char(if (shift && !caps) || (caps && !shift) then Capital(c) else c))
    && (forall pair :: IsPair(s.make, pair) ==> |pair| == 2 && key == Char(if shift then pair[1] else pair[0]))
    && (forall k :: IsControl(s.extended, s.make, k) ==> key == k)
    && (Unassigned(s.extended, s.make) ==> key == Unknown(s.make))
  }

  lemma LetterSays(extended: bool, make: Code, c: char, shift: bool, caps: bool)
    requires IsLetter(make, c)
    ensures 'a' <= c <= 'z'
    ensures LayoutKey(extended, make, shift, caps)
         == Char(if (shift && !caps) || (caps && !shift) then Capital(c) else c)
  {
  }

  lemma NumberSays(extended: bool, make: Code, shift: bool, caps: bool)
    requires 0x02 <= make <= 0x0D
    ensures |NUMBER_ROW[make - 0x02]| == 2
    ensures LayoutKey(extended, make, shift, caps)
         == Char(if shift then NUMBER_ROW[make - 0x02][1] else NUMBER_ROW[make - 0x02][0])
  {
  }

  lemma PairSays(extended: bool, make: Code, pair: string, shift: bool, caps: bool)
    requires IsPair(make, pair)
    ensures |pair| == 2 && LayoutKey(extended, make, shift, caps) == Char(if shift then pair[1] else pair[0])
  {
    if 0x02 <= make <= 0x0D { NumberSays(extended, make, shift, caps); }
  }

  lemma ControlSays(extended: bool, make: Code, key: Key, shift: bool, caps: bool)
    requires IsControl(extended, make, key)
    ensures LayoutKey(extended, make, shift, caps) == key
  {
  }

  /** A printing code is a letter or a pair. */
  lemma PrintsSomething(make: Code)
    requires Unshifted(make) != '\0'
    ensures (exists c :: IsLetter(make, c)) || (exists pair :: IsPair(make, pair))
  {
    var c, pair := Unshifted(make), [Unshifted(make), Shifted(make)];
    assert IsLetter(make, c) || IsPair(make, pair);
  }

  lemma UnassignedSays(extended: bool, make: Code, shift: bool, caps: bool)
    requires Unassigned(extended, make)
    ensures LayoutKey(extended, make, shift, caps) == Unknown(make)
  {
    if ControlKey(extended, make).Some? {
      assert IsControl(extended, make, ControlKey(extended, make).value);
    } else if Unshifted(make) != '\0' {
      PrintsSomething(make);
    }
  }

  lemma LayoutSays(s: Stroke, shift: bool, caps: bool)
    ensures IsKey(LayoutKey(s.extended, s.make, shift, caps), s, shift, caps)
  {
    var key := LayoutKey(s.extended, s.make, shift, caps);
    forall c | IsLetter(s.make, c)
      ensures 'a' <= c <= 'z' && key == Char(if (shift && !caps) || (caps && !shift) then Capital(c) else c)
    {
      LetterSays(s.extended, s.make, c, shift, caps);
    }
    forall pair | IsPair(s.make, pair)
      ensures |pair| == 2 && key == Char(if shift then pair[1] else pair[0])
    {
      PairSays(s.extended, s.make, pair, shift, caps);
    }
    forall k | IsControl(s.extended, s.make, k) ensures key == k {
      ControlSays(s.extended, s.make, k, shift, caps);
    }
    if Unassigned(s.extended, s.make) { UnassignedSays(s.extended, s.make, shift, caps); }
  }

  /** The modifiers are the keys with their own codes. */
  lemma ModifierCodes(s: Stroke)
    ensures ControlOf(s) == Some(LeftShift) <==> !s.extended && s.make == 0x2A
    ensures ControlOf(s) == Some(RightShift) <==> !s.extended && s.make == 0x36
    ensures ControlOf(s) == Some(CapsLock) <==> !s.extended && s.make == 0x3A
  {
  }

  lemma {:induction false} HeldIsDown(history: seq<Stroke>)
    ensures Held(history, LeftShift) == IsDown(history, 0x2A)
    ensures Held(history, RightShift) == IsDown(history, 0x36)
    ensures CapsPresses(history) == Presses(history, 0x3A)
  {
    if history != [] {
      ModifierCodes(history[|history| - 1]);
      HeldIsDown(history[..|history| - 1]);
    }
  }

  lemma {:induction false} MeaningAt(history: seq<Stroke>, n: nat)
    requires n < |history|
    ensures |Meanings(history)| == |history| && Meanings(history)[n] == Meaning(history[..n], history[n])
  {
    var last := |history| - 1;
    MeaningsLength(history[..last]);
    if n < last {
      MeaningAt(history[..last], n);
      assert history[..last][..n] == history[..n];
    }
  }

  /**
   * The events of a stream without colliding breaks, one by one: event `n` is the press or the release of the key
   * with the code of stroke `n`. Letters are capitals under exactly one of shift, by the shift keys' last strokes,
   * and caps, by the parity of CapsLock presses; the other printing keys follow shift alone; the rest follow neither.
   */
  lemma StreamKeys(items: seq<Item>, n: nat)
    requires NoneCollides(items) && n < |Strokes(items)|
    ensures var events, s, before := FeedEvents(IDLE, Encode(items)), Strokes(items)[n], Strokes(items)[..n];
            && |events| == |Strokes(items)| && events[n].Release? == s.release
            && IsKey(events[n].key, s, IsDown(before, 0x2A) || IsDown(before, 0x36), Presses(before, 0x3A) % 2 == 1)
  {
    var s, before := Strokes(items)[n], Strokes(items)[..n];
    DecodingInvertsEncoding(items);
    MeaningAt(Strokes(items), n);
    HeldIsDown(before);
    LayoutSays(s, IsDown(before, 0x2A) || IsDown(before, 0x36), Presses(before, 0x3A) % 2 == 1);
  }
}
