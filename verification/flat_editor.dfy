/**
 * The key handling of the flat-string editor widget `TextEditor`
 * (src/components/text_editor/editor.rs): one frame's input events applied
 * in order to the text and the widget's cursor, and the line count of its
 * number gutter.
 */
module FlatEditor {
  import opened Wrappers
  import opened Chars
  import opened Strings
  import opened RustLines
  import opened FlatCursor
  import opened TextOps

  datatype Key = Backspace | Enter | ArrowLeft | ArrowRight | ArrowUp | ArrowDown | OtherKey

  /** The input events the handler distinguishes. */
  datatype Event = TextInput(s: string) | KeyPress(key: Key, pressed: bool) | OtherEvent

  /** The edited text and the widget's `cursor_line`/`cursor_column`. */
  datatype Widget = Widget(text: string, cursor: Cursor)

  /** The widget after an event, and whether the response was marked changed. */
  datatype Stepped = Stepped(w: Widget, changed: bool)

  /** The states key handling keeps the widget in. */
  predicate WidgetOk(w: Widget) {
    NoCR(w.text) && Settled(w.cursor, w.text)
  }

  /** Typed text that stays on the cursor's line. */
  predicate Typeable(e: Event) {
    e.TextInput? ==> NoNewline(e.s) && NoCR(e.s)
  }

  /** The events that edit the text and mark the response changed. */
  predicate Edits(e: Event) {
    e.TextInput? || (e.KeyPress? && e.pressed && (e.key == Backspace || e.key == Enter))
  }

  /**
   * ArrowLeft: one column back; at column 0 the end of the line above
   * (the column stays 0 when `lines()` has no such line).
   */
  function ArrowLeftKey(c: Cursor, text: string): (r: Cursor)
    ensures r == MoveLeft(c, text)
  {
    if c.column > 0 then Cursor(c.line, c.column - 1)
    else if c.line > 0 then
      var l := c.line - 1;
      if HasLine(text, l) then Cursor(l, LineLen(text, l)) else Cursor(l, c.column)
    else c
  }

  /**
   * ArrowRight: on a line `lines()` yields, one column on, or at (or past)
   * its end the start of the next line unless on the last one.
   */
  function ArrowRightKey(c: Cursor, text: string): (r: Cursor)
    ensures Valid(c, text) ==> r == MoveRight(c, text)
    ensures HasLine(text, c.line) && c.column > LineLen(text, c.line) && c.line < MaxLineIndex(text) ==>
      r == Cursor(c.line + 1, 0)
  {
    if HasLine(text, c.line) then
      if c.column < LineLen(text, c.line) then Cursor(c.line, c.column + 1)
      else if c.line < MaxLineIndex(text) then Cursor(c.line + 1, 0)
      else c
    else c
  }

  /** ArrowUp: the line above, the column clamped to it. */
  function ArrowUpKey(c: Cursor, text: string): (r: Cursor)
    ensures r == MoveUp(c, text)
  {
    if c.line > 0 then
      var l := c.line - 1;
      if HasLine(text, l) then Cursor(l, Min(c.column, LineLen(text, l))) else Cursor(l, c.column)
    else c
  }

  /**
   * ArrowDown: the line below unless on the last reachable one; the column
   * clamped to it, or 0 on the phantom line after a final line feed.
   */
  function ArrowDownKey(c: Cursor, text: string): (r: Cursor)
    ensures c.line < MaxLineIndex(text) && HasLine(text, c.line + 1) ==> r == MoveDown(c, text)
    ensures c.line < MaxLineIndex(text) && !HasLine(text, c.line + 1) ==> r == MoveDown(c, text).(column := 0)
    ensures c.line >= MaxLineIndex(text) ==> r == c
    ensures Valid(c, text) && c.line == MaxLineIndex(text) ==> MoveDown(c, text) == c
  {
    if c.line < MaxLineIndex(text) then
      var l := c.line + 1;
      if HasLine(text, l) then Cursor(l, Min(c.column, LineLen(text, l))) else Cursor(l, 0)
    else c
  }

  /**
   * Backspace, corrected: past column 0 the character before the cursor
   * goes and the cursor steps back; at column 0 nothing happens (lines
   * are not joined).
   */
  function BackspaceKey(w: Widget): (r: Widget)
    ensures w.cursor.column == 0 ==> r == w
    ensures w.cursor.column > 0 ==> r.cursor == Cursor(w.cursor.line, w.cursor.column - 1)
  {
    if w.cursor.column > 0 then
      Widget(DeleteCharBefore(w.text, w.cursor), Cursor(w.cursor.line, w.cursor.column - 1))
    else w
  }

  /**
   * `delete_char_before_cursor` as written: the byte offset minus one is
   * taken as a character index.
   */
  function BackspaceAsWritten(w: Widget): (r: Widget)
    ensures w.cursor.column == 0 ==> r == w
    ensures w.cursor.column > 0 ==> r == Widget(DeleteCharAtPosition(w.text, w.cursor), Cursor(w.cursor.line, w.cursor.column - 1))
  {
    if w.cursor.column > 0 then
      Widget(DeleteCharAtPosition(w.text, w.cursor), Cursor(w.cursor.line, w.cursor.column - 1))
    else w
  }

  /**
   * One event of `handle_keyboard_input`, with the corrected Backspace.
   * None is the panic of `insert_str` at an offset that is not a
   * character boundary of the text.
   */
  function Step(w: Widget, e: Event): (r: Option<Stepped>)
    ensures r.None? <==> (e.TextInput? || e == KeyPress(Enter, true)) && !Insertable(w.text, w.cursor)
    ensures r.Some? ==> r.value.changed == Edits(e)
    ensures r.Some? && !Edits(e) ==> r.value.w.text == w.text
    ensures e.TextInput? && r.Some? ==> r.value.w.cursor == MoveRightBy(w.cursor, |e.s|)
  {
    match e
    case TextInput(s) =>
      if Insertable(w.text, w.cursor) then
        Some(Stepped(Widget(InsertText(w.text, w.cursor, s), MoveRightBy(w.cursor, |s|)), true))
      else None
    case KeyPress(key, pressed) =>
      if !pressed then Some(Stepped(w, false))
      else (
        match key
        case Backspace => Some(Stepped(BackspaceKey(w), true))
        case Enter =>
          if Insertable(w.text, w.cursor) then
            Some(Stepped(Widget(InsertNewline(w.text, w.cursor), Cursor(w.cursor.line + 1, 0)), true))
          else None
        case ArrowLeft => Some(Stepped(w.(cursor := ArrowLeftKey(w.cursor, w.text)), false))
        case ArrowRight => Some(Stepped(w.(cursor := ArrowRightKey(w.cursor, w.text)), false))
        case ArrowUp => Some(Stepped(w.(cursor := ArrowUpKey(w.cursor, w.text)), false))
        case ArrowDown => Some(Stepped(w.(cursor := ArrowDownKey(w.cursor, w.text)), false))
        case OtherKey => Some(Stepped(w, false)))
    case OtherEvent => Some(Stepped(w, false))
  }

  /** One event as written: only Backspace differs from `Step`. */
  function StepAsWritten(w: Widget, e: Event): (r: Option<Stepped>)
    ensures e == KeyPress(Backspace, true) ==> r == Some(Stepped(BackspaceAsWritten(w), true))
    ensures e != KeyPress(Backspace, true) ==> r == Step(w, e)
  {
    if e == KeyPress(Backspace, true) then Some(Stepped(BackspaceAsWritten(w), true))
    else Step(w, e)
  }

  /** The events of one frame in order; the response is changed if any event changed it. */
  function Run(w: Widget, events: seq<Event>): (r: Option<Stepped>)
    ensures r.Some? ==> (r.value.changed <==> exists i :: 0 <= i < |events| && Edits(events[i]))
    ensures r.Some? && (forall i :: 0 <= i < |events| ==> !Edits(events[i])) ==> r.value.w.text == w.text
    decreases |events|
  {
    if events == [] then Some(Stepped(w, false))
    else
      match Step(w, events[0])
      case None => None
      case Some(st) =>
        match Run(st.w, events[1..])
        case None => None
        case Some(rest) =>
          assert forall i :: 1 <= i < |events| ==> events[i] == events[1..][i - 1];
          Some(Stepped(rest.w, st.changed || rest.changed))
  }

  /** `handle_keyboard_input`: nothing happens unless the widget has focus. */
  function HandleKeyboardInput(w: Widget, focused: bool, events: seq<Event>): (r: Option<Stepped>)
    ensures !focused ==> r == Some(Stepped(w, false))
    ensures focused && WidgetOk(w) && (forall i :: 0 <= i < |events| ==> Typeable(events[i])) ==>
      r.Some? && WidgetOk(r.value.w)
  {
    if focused then
      RunKeeps(w, events);
      Run(w, events)
    else Some(Stepped(w, false))
  }

  /**
   * Every event keeps the widget in its states; typing and Enter do not
   * panic there.
   */
  lemma StepKeeps(w: Widget, e: Event)
    requires WidgetOk(w) && Typeable(e)
    ensures Step(w, e).Some? && WidgetOk(Step(w, e).value.w)
  {
    var c := w.cursor;
    match e
    case TextInput(s) =>
      InsertedOffset(w.text, c, s);
    case KeyPress(key, pressed) =>
      if pressed {
        match key
        case Backspace =>
          if c.column > 0 {
            DeletedOffset(w.text, c);
          }
        case Enter =>
          EnteredOffset(w.text, c);
        case ArrowLeft =>
          if c.column == 0 && c.line > 0 {
            assert HasLine(w.text, c.line - 1);
          }
        case ArrowRight =>
        case ArrowUp =>
        case ArrowDown =>
        case OtherKey =>
      }
    case OtherEvent =>
  }

  lemma {:induction false} RunKeeps(w: Widget, events: seq<Event>)
    ensures WidgetOk(w) && (forall i :: 0 <= i < |events| ==> Typeable(events[i])) ==>
      Run(w, events).Some? && WidgetOk(Run(w, events).value.w)
    decreases |events|
  {
    if events != [] && WidgetOk(w) && (forall i :: 0 <= i < |events| ==> Typeable(events[i])) {
      StepKeeps(w, events[0]);
      var st := Step(w, events[0]).value;
      assert forall i :: 0 <= i < |events[1..]| ==> events[1..][i] == events[i + 1];
      RunKeeps(st.w, events[1..]);
    }
  }

  /**
   * Typed text goes in at the cursor's character offset, and the cursor
   * ends up right after it.
   */
  lemma TypeAtCursor(w: Widget, s: string)
    requires WidgetOk(w) && NoNewline(s) && NoCR(s)
    ensures var r := Step(w, TextInput(s));
            && r.Some?
            && CharOffset(w.text, w.cursor) <= |w.text|
            && r.value.w.text == InsertAt(w.text, CharOffset(w.text, w.cursor), s)
            && CharOffset(r.value.w.text, r.value.w.cursor) == CharOffset(w.text, w.cursor) + |s|
  {
    InsertedOffset(w.text, w.cursor, s);
  }

  /**
   * Backspace past column 0 removes the character just before the cursor,
   * and the cursor stands where it was.
   */
  lemma BackspaceDeletesBefore(w: Widget)
    requires WidgetOk(w) && w.cursor.column > 0
    ensures var r := BackspaceKey(w);
            && CharOffset(w.text, w.cursor) > 0
            && r.text == RemoveNth(w.text, CharOffset(w.text, w.cursor) - 1)
            && CharOffset(r.text, r.cursor) == CharOffset(w.text, w.cursor) - 1
            && WidgetOk(r)
  {
    DeletedOffset(w.text, w.cursor);
  }

  /** Enter puts a line feed at the cursor and the cursor at the start of the next line. */
  lemma EnterAtCursor(w: Widget)
    requires WidgetOk(w)
    ensures var r := Step(w, KeyPress(Enter, true));
            && r.Some?
            && CharOffset(w.text, w.cursor) <= |w.text|
            && r.value.w.text == InsertAt(w.text, CharOffset(w.text, w.cursor), "\n")
            && r.value.w.cursor == Cursor(w.cursor.line + 1, 0)
            && MaxLineIndex(r.value.w.text) == MaxLineIndex(w.text) + 1
            && CharOffset(r.value.w.text, r.value.w.cursor) == CharOffset(w.text, w.cursor) + 1
  {
    EnteredOffset(w.text, w.cursor);
    StepEnter(w);
  }

  /** Enter goes in when the offset is a character boundary. */
  lemma StepEnter(w: Widget)
    requires Insertable(w.text, w.cursor)
    ensures Step(w, KeyPress(Enter, true)) == Some(Stepped(Widget(InsertNewline(w.text, w.cursor), Cursor(w.cursor.line + 1, 0)), true))
  {
  }

  /** Typing a character and erasing it with Backspace restores the widget. */
  lemma TypeThenBackspace(w: Widget, ch: char)
    requires WidgetOk(w) && ch != '\n' && ch != '\r'
    ensures Run(w, [TextInput([ch]), KeyPress(Backspace, true)]) == Some(Stepped(w, true))
  {
    InsertThenDelete(w.text, w.cursor, ch);
    var typed := Widget(InsertText(w.text, w.cursor, [ch]), Cursor(w.cursor.line, w.cursor.column + 1));
    StepTyped(w, [ch]);
    assert BackspaceKey(typed) == w;
    RunPair(w, TextInput([ch]), KeyPress(Backspace, true), Stepped(typed, true), Stepped(w, true));
  }

  /** Enter then Backspace: the line feed stays, since Backspace at column 0 does nothing. */
  lemma EnterThenBackspace(w: Widget)
    requires WidgetOk(w)
    ensures var r := Run(w, [KeyPress(Enter, true), KeyPress(Backspace, true)]);
            && r.Some?
            && r.value.w == Step(w, KeyPress(Enter, true)).value.w
            && MaxLineIndex(r.value.w.text) == MaxLineIndex(w.text) + 1
  {
    EnterAtCursor(w);
    var entered := Step(w, KeyPress(Enter, true)).value;
    assert BackspaceKey(entered.w) == entered.w;
    RunPair(w, KeyPress(Enter, true), KeyPress(Backspace, true), entered, Stepped(entered.w, true));
  }

  /** Two events in a row. */
  lemma RunPair(w: Widget, e1: Event, e2: Event, first: Stepped, second: Stepped)
    requires Step(w, e1) == Some(first) && Step(first.w, e2) == Some(second)
    ensures Run(w, [e1, e2]) == Some(Stepped(second.w, first.changed || second.changed))
  {
    RunCons(first.w, e2, [], second);
    assert [e2] + [] == [e2];
    RunCons(w, e1, [e2], first);
    assert [e1] + [e2] == [e1, e2];
  }

  /** An event that steps, then the rest of the frame. */
  lemma RunCons(w: Widget, e: Event, rest: seq<Event>, first: Stepped)
    requires Step(w, e) == Some(first)
    ensures Run(first.w, rest).Some? ==>
      Run(w, [e] + rest) == Some(Stepped(Run(first.w, rest).value.w, first.changed || Run(first.w, rest).value.changed))
    ensures rest == [] ==> Run(first.w, rest) == Some(Stepped(first.w, false))
  {
    assert ([e] + rest)[0] == e && ([e] + rest)[1..] == rest;
  }

  /** Typed text goes in when the offset is a character boundary. */
  lemma StepTyped(w: Widget, s: string)
    requires Insertable(w.text, w.cursor)
    ensures Step(w, TextInput(s)) == Some(Stepped(Widget(InsertText(w.text, w.cursor, s), MoveRightBy(w.cursor, |s|)), true))
  {
  }

  /**
   * On single-byte text the Backspace as written agrees with the corrected
   * one, so every event does.
   */
  lemma StepAgreesOnAscii(w: Widget, e: Event)
    requires WidgetOk(w) && Ascii(w.text)
    ensures StepAsWritten(w, e) == Step(w, e)
  {
    if e == KeyPress(Backspace, true) && w.cursor.column > 0 {
      DeletedOffset(w.text, w.cursor);
      AsciiDeleteAgrees(w.text, w.cursor);
    }
  }

  /**
   * After a two-byte character, the Backspace as written removes the
   * character after it: on "éa" with the cursor between the two
   * characters it leaves "é" where "a" is meant.
   */
  lemma BackspaceSkipsWideChar()
    ensures var w := Widget("éa", Cursor(0, 1));
            && WidgetOk(w)
            && BackspaceAsWritten(w) == Widget("é", Cursor(0, 0))
            && BackspaceKey(w) == Widget("a", Cursor(0, 0))
  {
    var text := "éa";
    var c := Cursor(0, 1);
    assert IndexOf(text, '\n') == 2;
    assert Lines(text) == [text];
    assert Utf8Len('é') == 2;
    assert ByteLen(text[..1]) == 2 by {
      assert text[..1] == ['é'];
      assert ByteLen(['é']) == Utf8Len('é') + ByteLen([]);
    }
    assert BytePosition(text, c) == 2;
    assert CharOffset(text, c) == 1;
    assert NoCR(text);
    assert MaxLineIndex(text) == 0;
    assert DeleteCharAtPosition(text, c) == RemoveNth(text, 1) == "é";
    assert DeleteCharBefore(text, c) == RemoveNth(text, 0) == "a";
  }

  /**
   * The line count of the number gutter: 1 for the empty text, one more
   * than `lines()` yields after a final line feed, otherwise what
   * `lines()` yields.
   */
  function GutterLineCount(text: string): (r: nat)
    ensures r == MaxLineIndex(text) + 1
    ensures r == NewlineCount(text) + 1
  {
    LinesCount(text);
    if text == [] then 1
    else
      var n := |Lines(text)|;
      if EndsWithNewline(text) then n + 1 else Max(n, 1)
  }
}
