/**
 * The event dispatcher of `EditorCore` (`handle_input` in
 * src/editor/core.rs): typed text, the editing keys, Shift-extended
 * arrow navigation and Ctrl+A, folded over one frame's events. The blink
 * timer, the scroll offset and the UI context are display state and are
 * not modelled.
 */
module CoreInput {
  import opened Wrappers
  import opened Chars
  import opened Document
  import opened CoreState
  import opened CoreEdit
  import opened CoreMove
  import opened CoreSelection
  import opened CoreLaws

  datatype Key = Enter | Backspace | Delete | ArrowLeft | ArrowRight | ArrowUp | ArrowDown | KeyA | OtherKey

  datatype Modifiers = Modifiers(shift: bool, ctrl: bool)

  /** The input events the dispatcher reacts to; every other event is `OtherEvent`. */
  datatype Event =
    | TextEvent(text: string)
    | KeyEvent(key: Key, pressed: bool, mods: Modifiers)
    | OtherEvent

  /** The characters of `s` that are not control characters, in order. */
  function Printable(s: string): (r: string)
    ensures |r| <= |s|
    ensures forall i :: 0 <= i < |r| ==> !IsControl(r[i])
    ensures Ascii(s) ==> Ascii(r)
    ensures (forall i :: 0 <= i < |s| ==> !IsControl(s[i])) ==> r == s
    ensures forall c :: c in r <==> c in s && !IsControl(c)
  {
    if s == [] then []
    else if IsControl(s[0]) then Printable(s[1..])
    else [s[0]] + Printable(s[1..])
  }

  /** One character is kept exactly when it is not a control character. */
  lemma PrintableSingle(c: char)
    ensures Printable([c]) == if IsControl(c) then [] else [c]
  {
    assert [c][1..] == [];
  }

  /**
   * Filtering distributes over concatenation. With `PrintableSingle` this
   * fixes `Printable` on every string: the kept characters appear in the
   * order they had in the input.
   */
  lemma {:induction false} PrintableAppend(a: string, b: string)
    ensures Printable(a + b) == Printable(a) + Printable(b)
    decreases |a|
  {
    if a == [] {
      assert [] + b == b;
    } else {
      assert (a + b)[0] == a[0];
      assert (a + b)[1..] == a[1..] + b;
      PrintableAppend(a[1..], b);
    }
  }

  /**
   * The loop over a text event's characters: control characters are
   * skipped, every other character is typed with `insert_char`. The
   * result is the printable part of the text inserted at the cursor.
   */
  function InsertChars(ed: Editor, lines: seq<DocumentLine>, text: string): (r: Outcome)
    requires Inv(ed, lines) && Ascii(text)
    ensures Inv(r.ed, r.lines)
    ensures AnchorsValid(ed, lines) ==> AnchorsValid(r.ed, r.lines)
    ensures Printable(text) == [] ==> r == Outcome(ed, lines, false)
    ensures Printable(text) != [] ==> r.modified && r.ed.selStart.None? && r.ed.selEnd.None?
    ensures |r.lines| == |lines|
    ensures forall i :: 0 <= i < |lines| && i != ed.line ==> r.lines[i] == lines[i]
    ensures TextContent(r.lines[ed.line]) == InsertAt(TextContent(lines[ed.line]), ed.col, Printable(text))
    ensures Cursor(r.ed) == Pos(ed.line, ed.col + |Printable(text)|)
    decreases |text|
  {
    if text == [] then
      assert InsertAt(TextContent(lines[ed.line]), ed.col, []) == TextContent(lines[ed.line]);
      Outcome(ed, lines, false)
    else if IsControl(text[0]) then
      AsciiSlice(text, 1, |text|);
      InsertChars(ed, lines, text[1..])
    else
      AsciiSlice(text, 1, |text|);
      InsertCharKeepsInv(ed, lines, text[0]);
      var r1 := InsertChar(ed, lines, text[0]);
      var r2 := InsertChars(r1.ed, r1.lines, text[1..]);
      TypedThenRest(ed, lines, text, r1, r2);
      Outcome(r2.ed, r2.lines, true)
  }

  /**
   * Typing the first character of `text` and then the rest types the
   * printable part of all of it.
   */
  lemma TypedThenRest(ed: Editor, lines: seq<DocumentLine>, text: string, r1: Outcome, r2: Outcome)
    requires text != [] && !IsControl(text[0])
    requires ed.line < |lines| && ed.col <= |TextContent(lines[ed.line])|
    requires |r1.lines| == |lines| && r1.ed.selStart.None? && r1.ed.selEnd.None?
    requires forall i :: 0 <= i < |lines| && i != ed.line ==> r1.lines[i] == lines[i]
    requires TextContent(r1.lines[ed.line]) == InsertAt(TextContent(lines[ed.line]), ed.col, [text[0]])
    requires Cursor(r1.ed) == Pos(ed.line, ed.col + 1)
    requires Printable(text[1..]) == [] ==> r2 == Outcome(r1.ed, r1.lines, false)
    requires Printable(text[1..]) != [] ==> r2.ed.selStart.None? && r2.ed.selEnd.None?
    requires |r2.lines| == |r1.lines|
    requires forall i :: 0 <= i < |r1.lines| && i != r1.ed.line ==> r2.lines[i] == r1.lines[i]
    requires TextContent(r2.lines[r1.ed.line]) == InsertAt(TextContent(r1.lines[r1.ed.line]), r1.ed.col, Printable(text[1..]))
    requires Cursor(r2.ed) == Pos(r1.ed.line, r1.ed.col + |Printable(text[1..])|)
    ensures Printable(text) != [] && r2.ed.selStart.None? && r2.ed.selEnd.None?
    ensures |r2.lines| == |lines|
    ensures forall i :: 0 <= i < |lines| && i != ed.line ==> r2.lines[i] == lines[i]
    ensures TextContent(r2.lines[ed.line]) == InsertAt(TextContent(lines[ed.line]), ed.col, Printable(text))
    ensures Cursor(r2.ed) == Pos(ed.line, ed.col + |Printable(text)|)
  {
    assert Printable(text) == [text[0]] + Printable(text[1..]);
    InsertAtTwice(TextContent(lines[ed.line]), ed.col, text[0], Printable(text[1..]));
  }

  /** The event edits the document: typed text and the three editing keys. */
  predicate IsEdit(ev: Event) {
    ev.TextEvent? || (ev.KeyEvent? && ev.pressed && ev.key in {Enter, Backspace, Delete})
  }

  predicate IsArrow(k: Key) {
    k in {ArrowLeft, ArrowRight, ArrowUp, ArrowDown}
  }

  /** Text the model can carry: single-byte characters only. */
  predicate EventAscii(ev: Event) {
    ev.TextEvent? ==> Ascii(ev.text)
  }

  /** One cursor move of an arrow key. */
  function Move(ed: Editor, lines: seq<DocumentLine>, k: Key): (r: Editor)
    requires Inv(ed, lines) && IsArrow(k)
    ensures ValidPos(lines, Cursor(r))
    ensures r.selStart == ed.selStart && r.selEnd == ed.selEnd
  {
    match k
    case ArrowLeft => MoveLeft(ed, lines)
    case ArrowRight => MoveRight(ed, lines)
    case ArrowUp => MoveUp(ed, lines)
    case ArrowDown => MoveDown(ed, lines)
  }

  /**
   * An arrow key: with Shift, a selection is started at the cursor if none
   * is under way, the cursor moves, and the end anchor follows it; without
   * Shift, the selection is dropped before the move.
   */
  function Navigate(ed: Editor, lines: seq<DocumentLine>, k: Key, shift: bool): (r: Editor)
    requires Inv(ed, lines) && IsArrow(k)
    ensures ValidPos(lines, Cursor(r))
    ensures AnchorsValid(ed, lines) ==> AnchorsValid(r, lines)
    ensures Cursor(r) == Cursor(Move(ed, lines, k))
    ensures !shift ==> r.selStart.None? && r.selEnd.None?
    ensures shift ==> r.selEnd == Some(Cursor(r))
    ensures shift && ed.selStart.Some? ==> r.selStart == ed.selStart
    ensures shift && ed.selStart.None? ==> r.selStart == Some(Cursor(ed))
  {
    var before := if shift then (if ed.selStart.None? then StartSelection(ed) else ed) else ClearSelection(ed);
    var moved := Move(before, lines, k);
    if shift then UpdateSelection(moved) else moved
  }

  /**
   * One event as `handle_input` processes it, except that the selection is
   * cleared after Enter, Backspace and Delete (as typing already does) and
   * that a deleted selection always leaves the cursor at its start. Both
   * keep every anchor on a valid position.
   */
  function HandleEvent(ed: Editor, lines: seq<DocumentLine>, ev: Event): (r: Outcome)
    requires Inv(ed, lines) && AnchorsValid(ed, lines) && EventAscii(ev)
    ensures Inv(r.ed, r.lines) && AnchorsValid(r.ed, r.lines)
    ensures !IsEdit(ev) ==> r.lines == lines && !r.modified
    ensures !r.modified ==> r.lines == lines
    ensures ev.KeyEvent? && ev.pressed && ev.key in {Enter, Backspace, Delete} ==> !HasSelection(r.ed)
    ensures HasSelection(ed) && IsEdit(ev) ==> r.modified
    ensures ev.KeyEvent? && ev.pressed && IsArrow(ev.key) ==>
      r.ed == Navigate(ed, lines, ev.key, ev.mods.shift)
    ensures ev.KeyEvent? && ev.pressed && ev.key == KeyA && ev.mods.ctrl ==>
      r.ed == SelectAll(ed, lines)
  {
    match ev
    case TextEvent(text) => TypeText(ed, lines, text)
    case KeyEvent(key, pressed, mods) =>
      if pressed then PressKey(ed, lines, key, mods) else Outcome(ed, lines, false)
    case OtherEvent =>
      Outcome(ed, lines, false)
  }

  /** A pressed key: the editing keys edit, the arrows navigate, Ctrl+A selects everything. */
  function PressKey(ed: Editor, lines: seq<DocumentLine>, key: Key, mods: Modifiers): (r: Outcome)
    requires Inv(ed, lines) && AnchorsValid(ed, lines)
    ensures Inv(r.ed, r.lines) && AnchorsValid(r.ed, r.lines)
    ensures !r.modified ==> r.lines == lines
    ensures key !in {Enter, Backspace, Delete} ==> r.lines == lines && !r.modified
    ensures key in {Enter, Backspace, Delete} ==> !HasSelection(r.ed) && (HasSelection(ed) ==> r.modified)
    ensures IsArrow(key) ==> r.ed == Navigate(ed, lines, key, mods.shift)
    ensures key == KeyA && mods.ctrl ==> r.ed == SelectAll(ed, lines)
  {
    if key in {Enter, Backspace, Delete} then PressEditKey(ed, lines, key)
    else if IsArrow(key) then
      Outcome(Navigate(ed, lines, key, mods.shift), lines, false)
    else if key == KeyA && mods.ctrl then
      Outcome(SelectAll(ed, lines), lines, false)
    else
      Outcome(ed, lines, false)
  }

  /** A text event: an active selection is deleted first, then the text is typed at the cursor. */
  function TypeText(ed: Editor, lines: seq<DocumentLine>, text: string): (r: Outcome)
    requires Inv(ed, lines) && AnchorsValid(ed, lines) && Ascii(text)
    ensures Inv(r.ed, r.lines) && AnchorsValid(r.ed, r.lines)
    ensures !r.modified ==> r.lines == lines
    ensures HasSelection(ed) ==> r.modified
  {
    if HasSelection(ed) then
      DeleteSelectionKeepsInv(ed, lines);
      var d := DeleteSelection(ed, lines);
      var i := InsertChars(d.ed, d.lines, text);
      Outcome(i.ed, i.lines, true)
    else
      InsertChars(ed, lines, text)
  }

  /**
   * Enter, Backspace or Delete: an active selection is deleted first, then
   * the key acts, and the selection is dropped.
   */
  function PressEditKey(ed: Editor, lines: seq<DocumentLine>, key: Key): (r: Outcome)
    requires Inv(ed, lines) && AnchorsValid(ed, lines) && key in {Enter, Backspace, Delete}
    ensures Inv(r.ed, r.lines) && AnchorsValid(r.ed, r.lines)
    ensures !r.modified ==> r.lines == lines
    ensures !HasSelection(r.ed)
    ensures HasSelection(ed) ==> r.modified
  {
    var d := if HasSelection(ed) then (DeleteSelectionKeepsInv(ed, lines); DeleteSelection(ed, lines)) else Outcome(ed, lines, false);
    var e := EditKey(d.ed, d.lines, key, HasSelection(ed));
    Outcome(ClearSelection(e.ed), e.lines, d.modified || e.modified)
  }

  /**
   * The editing key proper, after any selection has been deleted:
   * Enter always splits; Backspace and Delete act only when there was
   * no selection to delete.
   */
  function EditKey(ed: Editor, lines: seq<DocumentLine>, key: Key, hadSelection: bool): (r: Outcome)
    requires Inv(ed, lines) && key in {Enter, Backspace, Delete}
    ensures Inv(r.ed, r.lines)
    ensures !r.modified ==> r.lines == lines
    ensures key == Enter ==> r.modified && |r.lines| == |lines| + 1
    ensures key != Enter && hadSelection ==> r == Outcome(ed, lines, false)
  {
    if key == Enter then
      HandleEnterKeepsInv(ed, lines);
      HandleEnter(ed, lines)
    else if hadSelection then Outcome(ed, lines, false)
    else if key == Backspace then
      HandleBackspaceKeepsInv(ed, lines);
      HandleBackspace(ed, lines)
    else
      DeleteForwardKeepsInv(ed, lines);
      DeleteForward(ed, lines)
  }

  /** `EditKey` with the forward delete as the source writes it. */
  function EditKeyAsWritten(ed: Editor, lines: seq<DocumentLine>, key: Key, hadSelection: bool): (r: Outcome)
    requires Inv(ed, lines) && key in {Enter, Backspace, Delete}
    ensures Inv(r.ed, r.lines)
    ensures r.ed == EditKey(ed, lines, key, hadSelection).ed && r.lines == EditKey(ed, lines, key, hadSelection).lines
    ensures r.modified ==> EditKey(ed, lines, key, hadSelection).modified
  {
    if key == Delete && !hadSelection then
      DeleteForwardKeepsInv(ed, lines);
      DeleteForwardAsWritten(ed, lines)
    else EditKey(ed, lines, key, hadSelection)
  }

  /** `handle_input`: the frame's events in order; the result reports whether any of them changed the document. */
  function HandleInput(ed: Editor, lines: seq<DocumentLine>, events: seq<Event>): (r: Outcome)
    requires Inv(ed, lines) && AnchorsValid(ed, lines)
    requires forall i :: 0 <= i < |events| ==> EventAscii(events[i])
    ensures Inv(r.ed, r.lines) && AnchorsValid(r.ed, r.lines)
    ensures events == [] ==> r == Outcome(ed, lines, false)
    ensures !r.modified ==> r.lines == lines
    decreases |events|
  {
    if events == [] then Outcome(ed, lines, false)
    else
      var s := HandleEvent(ed, lines, events[0]);
      var rest := HandleInput(s.ed, s.lines, events[1..]);
      Outcome(rest.ed, rest.lines, s.modified || rest.modified)
  }

  /** A frame without typed text or editing keys leaves the document alone and reports no change. */
  lemma {:induction false} NavigationLeavesDocument(ed: Editor, lines: seq<DocumentLine>, events: seq<Event>)
    requires Inv(ed, lines) && AnchorsValid(ed, lines)
    requires forall i :: 0 <= i < |events| ==> EventAscii(events[i]) && !IsEdit(events[i])
    ensures var r := HandleInput(ed, lines, events);
            r.lines == lines && !r.modified
    decreases |events|
  {
    if events != [] {
      var s := HandleEvent(ed, lines, events[0]);
      NavigationLeavesDocument(s.ed, s.lines, events[1..]);
    }
  }

  /** Processing two batches of events is processing their concatenation. */
  lemma {:induction false} HandleInputAppend(ed: Editor, lines: seq<DocumentLine>, a: seq<Event>, b: seq<Event>)
    requires Inv(ed, lines) && AnchorsValid(ed, lines)
    requires forall i :: 0 <= i < |a| ==> EventAscii(a[i])
    requires forall i :: 0 <= i < |b| ==> EventAscii(b[i])
    ensures var ra := HandleInput(ed, lines, a);
            var rb := HandleInput(ra.ed, ra.lines, b);
            HandleInput(ed, lines, a + b) == Outcome(rb.ed, rb.lines, ra.modified || rb.modified)
    decreases |a|
  {
    if a == [] {
      assert a + b == b;
    } else {
      assert (a + b)[0] == a[0];
      assert (a + b)[1..] == a[1..] + b;
      var s := HandleEvent(ed, lines, a[0]);
      HandleInputAppend(s.ed, s.lines, a[1..], b);
    }
  }

  /** A typed character on a line of text, with no selection under way, is inserted at the cursor. */
  lemma TypingInserts(ed: Editor, lines: seq<DocumentLine>, c: char)
    requires Inv(ed, lines) && AnchorsValid(ed, lines) && IsAscii(c) && !IsControl(c) && !HasSelection(ed)
    ensures var r := HandleInput(ed, lines, [TextEvent([c])]);
            && r.modified && Cursor(r.ed) == Pos(ed.line, ed.col + 1)
            && TextContent(r.lines[ed.line]) == InsertAt(TextContent(lines[ed.line]), ed.col, [c])
  {
    var ev := TextEvent([c]);
    assert Printable([c]) == [c] by {
      assert [c][1..] == [];
    }
    var s := HandleEvent(ed, lines, ev);
    assert s == InsertChars(ed, lines, [c]);
    SingleEvent(ed, lines, ev);
  }

  /** A frame of one event is that event. */
  lemma SingleEvent(ed: Editor, lines: seq<DocumentLine>, ev: Event)
    requires Inv(ed, lines) && AnchorsValid(ed, lines) && EventAscii(ev)
    ensures HandleInput(ed, lines, [ev]) == HandleEvent(ed, lines, ev)
  {
    assert [ev][0] == ev && [ev][1..] == [];
  }

  /**
   * The states in which the model follows `handle_input` as written: the
   * engine's invariant holds, and an event that deletes an active
   * selection finds valid anchors whose first line starts with text (so
   * that the deletion neither panics nor strands the cursor).
   */
  predicate AsWrittenSafe(ed: Editor, lines: seq<DocumentLine>, ev: Event) {
    && Inv(ed, lines) && EventAscii(ev)
    && (IsEdit(ev) && HasSelection(ed) ==> AnchorsValid(ed, lines) && FirstIsText(lines[Span(ed).0.line]))
  }

  /** One event exactly as `handle_input` processes it. */
  function HandleEventAsWritten(ed: Editor, lines: seq<DocumentLine>, ev: Event): (r: Outcome)
    requires AsWrittenSafe(ed, lines, ev)
    ensures Inv(r.ed, r.lines)
    ensures !IsEdit(ev) ==> r.lines == lines && !r.modified
  {
    match ev
    case TextEvent(text) =>
      if HasSelection(ed) then
        DeleteSelectionKeepsInv(ed, lines);
        AsWrittenAgrees(ed, lines);
        var d := DeleteSelectionAsWritten(ed, lines);
        var i := InsertChars(d.ed, d.lines, text);
        Outcome(i.ed, i.lines, true)
      else
        InsertChars(ed, lines, text)
    case KeyEvent(key, pressed, mods) =>
      if !pressed then Outcome(ed, lines, false)
      else if key in {Enter, Backspace, Delete} then
        var d := if HasSelection(ed) then (DeleteSelectionKeepsInv(ed, lines); AsWrittenAgrees(ed, lines); DeleteSelectionAsWritten(ed, lines)) else Outcome(ed, lines, false);
        var e := EditKeyAsWritten(d.ed, d.lines, key, HasSelection(ed));
        Outcome(e.ed, e.lines, d.modified || e.modified)
      else if IsArrow(key) then
        Outcome(Navigate(ed, lines, key, mods.shift), lines, false)
      else if key == KeyA && mods.ctrl then
        Outcome(SelectAll(ed, lines), lines, false)
      else
        Outcome(ed, lines, false)
    case OtherEvent =>
      Outcome(ed, lines, false)
  }

  /**
   * Where both apply, the source and the corrected dispatcher produce the
   * same document and cursor; they differ only in that the corrected one
   * drops the anchors after Enter, Backspace and Delete, and reports the
   * changes the source's forward delete leaves unreported.
   */
  lemma AsWrittenDiffersOnlyInAnchors(ed: Editor, lines: seq<DocumentLine>, ev: Event)
    requires AsWrittenSafe(ed, lines, ev) && AnchorsValid(ed, lines)
    ensures var a := HandleEventAsWritten(ed, lines, ev);
            var c := HandleEvent(ed, lines, ev);
            && a.lines == c.lines && Cursor(a.ed) == Cursor(c.ed)
            && (a.modified ==> c.modified) && (c.modified && !a.modified ==> a.lines != lines)
            && (ev.KeyEvent? && ev.pressed && ev.key in {Enter, Backspace, Delete} ==> c.ed == ClearSelection(a.ed))
            && (!(ev.KeyEvent? && ev.pressed && ev.key in {Enter, Backspace, Delete}) ==> c.ed == a.ed)
  {
    if IsEdit(ev) && HasSelection(ed) {
      AnchorsValidSafe(ed, lines);
      AsWrittenAgrees(ed, lines);
    }
  }

  /**
   * Backspace keeps stale anchors: on "abc" with the cursor at the end,
   * Shift+Right (which sets both anchors at (0, 3) without selecting
   * anything), two Backspaces and Shift+Left leave the selection
   * (0, 3)-(0, 0) on the line "a". Its end lies past the text, and a
   * following Delete or Backspace drains bytes 0..3 of a one-byte string.
   */
  lemma StaleAnchorsAfterBackspace()
    ensures AsWrittenSafe(Editor(0, 3, None, None), [DocumentLine([Text("abc")])], KeyEvent(ArrowRight, true, Modifiers(true, false)))
         && HandleEventAsWritten(Editor(0, 3, None, None), [DocumentLine([Text("abc")])], KeyEvent(ArrowRight, true, Modifiers(true, false)))
            == Outcome(Editor(0, 3, Some(Pos(0, 3)), Some(Pos(0, 3))), [DocumentLine([Text("abc")])], false)
    ensures AsWrittenSafe(Editor(0, 3, Some(Pos(0, 3)), Some(Pos(0, 3))), [DocumentLine([Text("abc")])], KeyEvent(Backspace, true, Modifiers(false, false)))
         && HandleEventAsWritten(Editor(0, 3, Some(Pos(0, 3)), Some(Pos(0, 3))), [DocumentLine([Text("abc")])], KeyEvent(Backspace, true, Modifiers(false, false)))
            == Outcome(Editor(0, 2, Some(Pos(0, 3)), Some(Pos(0, 3))), [DocumentLine([Text("ab")])], true)
    ensures AsWrittenSafe(Editor(0, 2, Some(Pos(0, 3)), Some(Pos(0, 3))), [DocumentLine([Text("ab")])], KeyEvent(Backspace, true, Modifiers(false, false)))
         && HandleEventAsWritten(Editor(0, 2, Some(Pos(0, 3)), Some(Pos(0, 3))), [DocumentLine([Text("ab")])], KeyEvent(Backspace, true, Modifiers(false, false)))
            == Outcome(Editor(0, 1, Some(Pos(0, 3)), Some(Pos(0, 3))), [DocumentLine([Text("a")])], true)
    ensures AsWrittenSafe(Editor(0, 1, Some(Pos(0, 3)), Some(Pos(0, 3))), [DocumentLine([Text("a")])], KeyEvent(ArrowLeft, true, Modifiers(true, false)))
         && HandleEventAsWritten(Editor(0, 1, Some(Pos(0, 3)), Some(Pos(0, 3))), [DocumentLine([Text("a")])], KeyEvent(ArrowLeft, true, Modifiers(true, false)))
            == Outcome(Editor(0, 0, Some(Pos(0, 3)), Some(Pos(0, 0))), [DocumentLine([Text("a")])], false)
    ensures HasSelection(Editor(0, 0, Some(Pos(0, 3)), Some(Pos(0, 0))))
         && !AnchorsValid(Editor(0, 0, Some(Pos(0, 3)), Some(Pos(0, 0))), [DocumentLine([Text("a")])])
         && !DeleteSelectionSafe(Editor(0, 0, Some(Pos(0, 3)), Some(Pos(0, 0))), [DocumentLine([Text("a")])])
  {
    ShiftRightAtEnd();
    BackspaceKeepsAnchors("abc", 3, "ab");
    BackspaceKeepsAnchors("ab", 2, "a");
    ShiftLeftExtends();
    TextOfSingle(Text("a"));
  }

  lemma ShiftRightAtEnd()
    ensures AsWrittenSafe(Editor(0, 3, None, None), [DocumentLine([Text("abc")])], KeyEvent(ArrowRight, true, Modifiers(true, false)))
         && HandleEventAsWritten(Editor(0, 3, None, None), [DocumentLine([Text("abc")])], KeyEvent(ArrowRight, true, Modifiers(true, false)))
            == Outcome(Editor(0, 3, Some(Pos(0, 3)), Some(Pos(0, 3))), [DocumentLine([Text("abc")])], false)
  {
    TextOfSingle(Text("abc"));
  }

  /** Backspace at the end of a one-line text `t` (no active selection) leaves the anchors at (0, 3). */
  lemma BackspaceKeepsAnchors(t: string, n: nat, t': string)
    requires |t| == n && n > 0 && Ascii(t) && t' == t[..n - 1]
    ensures var ed := Editor(0, n, Some(Pos(0, 3)), Some(Pos(0, 3)));
            var ev := KeyEvent(Backspace, true, Modifiers(false, false));
            && AsWrittenSafe(ed, [DocumentLine([Text(t)])], ev)
            && HandleEventAsWritten(ed, [DocumentLine([Text(t)])], ev)
               == Outcome(Editor(0, n - 1, Some(Pos(0, 3)), Some(Pos(0, 3))), [DocumentLine([Text(t')])], true)
  {
    TextOfSingle(Text(t));
    assert RemoveNth(t, n - 1) == t';
    assert WithFirstText(DocumentLine([Text(t)]), t') == DocumentLine([Text(t')]);
  }

  lemma ShiftLeftExtends()
    ensures AsWrittenSafe(Editor(0, 1, Some(Pos(0, 3)), Some(Pos(0, 3))), [DocumentLine([Text("a")])], KeyEvent(ArrowLeft, true, Modifiers(true, false)))
         && HandleEventAsWritten(Editor(0, 1, Some(Pos(0, 3)), Some(Pos(0, 3))), [DocumentLine([Text("a")])], KeyEvent(ArrowLeft, true, Modifiers(true, false)))
            == Outcome(Editor(0, 0, Some(Pos(0, 3)), Some(Pos(0, 0))), [DocumentLine([Text("a")])], false)
  {
    TextOfSingle(Text("a"));
  }
}
