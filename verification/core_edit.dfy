/**
 * The editing operations of `EditorCore` (src/editor/core.rs): inserting a
 * character, splitting a line on Enter, Backspace, and the forward delete
 * that `handle_input` performs inline. Each takes the editor and the
 * document and returns both after the edit together with the "modified"
 * flag the source returns.
 */
module CoreEdit {
  import opened Wrappers
  import opened Chars
  import opened Document
  import opened CoreState

  /**
   * The cursor may be used for an insertion or a split: its line exists or
   * is the one just past the end (which the source appends first), and on
   * a line starting with text the column lies within that text (otherwise
   * `String::insert` / `split_off` panic).
   */
  predicate CursorEditable(ed: Editor, lines: seq<DocumentLine>) {
    && ed.line <= |lines|
    && (ed.line == |lines| ==> ed.col == 0)
    && (ed.line < |lines| && FirstIsText(lines[ed.line]) ==> ed.col <= |FirstText(lines[ed.line])|)
  }

  /** The document with a fresh line appended when the cursor is one past the end. */
  function EnsureLine(ed: Editor, lines: seq<DocumentLine>): (ls: seq<DocumentLine>)
    requires ed.line <= |lines|
    ensures ed.line < |ls|
    ensures ls == if ed.line == |lines| then lines + [NewLine()] else lines
  {
    if ed.line >= |lines| then lines + [NewLine()] else lines
  }

  /** `insert_char`. */
  function InsertChar(ed: Editor, lines: seq<DocumentLine>, c: char): (r: Outcome)
    requires SingleByte(lines) && IsAscii(c)
    requires CursorEditable(ed, lines)
    ensures r.modified && !HasSelection(r.ed) && r.ed.selStart.None? && r.ed.selEnd.None?
    ensures r.ed.line == ed.line
    ensures |r.lines| == |EnsureLine(ed, lines)|
    ensures forall i :: 0 <= i < |r.lines| && i != ed.line ==> r.lines[i] == EnsureLine(ed, lines)[i]
    ensures ed.line < |lines| && FirstIsText(lines[ed.line]) ==>
      && r.ed.col == ed.col + 1
      && FirstIsText(r.lines[ed.line])
      && FirstText(r.lines[ed.line]) == FirstText(lines[ed.line])[..ed.col] + [c] + FirstText(lines[ed.line])[ed.col..]
      && r.lines[ed.line].elements[1..] == lines[ed.line].elements[1..]
    ensures ed.line < |lines| && !FirstIsText(lines[ed.line]) ==>
      r.ed.col == 1 && r.lines[ed.line].elements == [Text([c])] + lines[ed.line].elements
    ensures ed.line == |lines| ==>
      r.ed.col == 1 && r.lines[ed.line].elements == [Text([c])]
  {
    var ls := EnsureLine(ed, lines);
    var l := ls[ed.line];
    if FirstIsText(l) then
      var t := FirstText(l);
      assert ed.line == |lines| ==> l.elements[1..] == [] && InsertAt(t, ed.col, [c]) == [c];
      Outcome(ClearSelection(ed.(col := ed.col + 1)), ls[ed.line := WithFirstText(l, InsertAt(t, ed.col, [c]))], true)
    else
      Outcome(ClearSelection(ed.(col := 1)), ls[ed.line := DocumentLine([Text([c])] + l.elements)], true)
  }

  /** `handle_enter`: split the cursor line's text at the cursor. */
  function HandleEnter(ed: Editor, lines: seq<DocumentLine>): (r: Outcome)
    requires SingleByte(lines)
    requires CursorEditable(ed, lines)
    ensures r.modified && r.ed == ed.(line := ed.line + 1, col := 0)
    ensures |r.lines| == |EnsureLine(ed, lines)| + 1
    ensures r.lines[..ed.line] == lines[..ed.line]
    ensures r.lines[ed.line + 2..] == EnsureLine(ed, lines)[ed.line + 1..]
    ensures ed.line < |lines| && FirstIsText(lines[ed.line]) ==>
      && FirstIsText(r.lines[ed.line])
      && r.lines[ed.line].elements[1..] == lines[ed.line].elements[1..]
      && |r.lines[ed.line + 1].elements| == 1 && FirstIsText(r.lines[ed.line + 1])
      && FirstText(r.lines[ed.line]) + FirstText(r.lines[ed.line + 1]) == FirstText(lines[ed.line])
      && |FirstText(r.lines[ed.line])| == ed.col
    ensures ed.line == |lines| || !FirstIsText(lines[ed.line]) ==>
      r.lines[ed.line] == EnsureLine(ed, lines)[ed.line] && r.lines[ed.line + 1] == NewLine()
  {
    var ls := EnsureLine(ed, lines);
    var l := ls[ed.line];
    var ed' := ed.(line := ed.line + 1, col := 0);
    if FirstIsText(l) then
      var t := FirstText(l);
      assert t[..ed.col] + t[ed.col..] == t;
      Outcome(ed', ls[..ed.line] + [WithFirstText(l, t[..ed.col]), DocumentLine([Text(t[ed.col..])])] + ls[ed.line + 1..], true)
    else
      Outcome(ed', ls[..ed.line + 1] + [NewLine()] + ls[ed.line + 1..], true)
  }

  /** Backspace may run: a column or line to step back over addresses an existing line. */
  predicate BackspaceSafe(ed: Editor, lines: seq<DocumentLine>) {
    ed.col > 0 || ed.line > 0 ==> ed.line < |lines|
  }

  /** `handle_backspace`. */
  function HandleBackspace(ed: Editor, lines: seq<DocumentLine>): (r: Outcome)
    requires SingleByte(lines)
    requires BackspaceSafe(ed, lines)
    ensures r.ed.selStart == ed.selStart && r.ed.selEnd == ed.selEnd
    ensures !r.modified ==> r.ed == ed && r.lines == lines
    ensures ed.line == 0 && ed.col == 0 ==> !r.modified
    ensures ed.col > 0 && FirstIsText(lines[ed.line]) && ed.col <= |FirstText(lines[ed.line])| ==>
      && r.modified && r.ed.line == ed.line && r.ed.col == ed.col - 1
      && |r.lines| == |lines|
      && (forall i :: 0 <= i < |lines| && i != ed.line ==> r.lines[i] == lines[i])
      && FirstIsText(r.lines[ed.line])
      && FirstText(r.lines[ed.line]) == FirstText(lines[ed.line])[..ed.col - 1] + FirstText(lines[ed.line])[ed.col..]
      && r.lines[ed.line].elements[1..] == lines[ed.line].elements[1..]
    ensures ed.col == 0 && ed.line > 0 ==>
      && r.modified && r.ed.line == ed.line - 1
      && |r.lines| == |lines| - 1
      && r.lines[..ed.line - 1] == lines[..ed.line - 1]
      && r.lines[ed.line..] == lines[ed.line + 1..]
    ensures ed.col == 0 && ed.line > 0 && FirstIsText(lines[ed.line - 1]) ==>
      && r.ed.col == |FirstText(lines[ed.line - 1])|
      && FirstIsText(r.lines[ed.line - 1])
      && r.lines[ed.line - 1].elements[1..] == lines[ed.line - 1].elements[1..]
      && FirstText(r.lines[ed.line - 1]) == FirstText(lines[ed.line - 1]) + FirstText(lines[ed.line])
    ensures ed.col == 0 && ed.line > 0 && !FirstIsText(lines[ed.line - 1]) ==>
      r.ed.col == 0 && r.lines[ed.line - 1] == lines[ed.line - 1]
  {
    if ed.col > 0 then
      var l := lines[ed.line];
      if FirstIsText(l) && ed.col <= |FirstText(l)| then
        var t := FirstText(l);
        Outcome(ed.(col := ed.col - 1), lines[ed.line := WithFirstText(l, RemoveNth(t, ed.col - 1))], true)
      else
        Outcome(ed, lines, false)
    else if ed.line > 0 then
      var cur := lines[ed.line];
      var rest := lines[..ed.line] + lines[ed.line + 1..];
      var prev := lines[ed.line - 1];
      assert rest[ed.line - 1] == prev;
      if FirstIsText(prev) then
        var merged := FirstText(prev) + FirstText(cur);
        Outcome(ed.(line := ed.line - 1, col := |FirstText(prev)|), rest[ed.line - 1 := WithFirstText(prev, merged)], true)
      else
        Outcome(ed.(line := ed.line - 1), rest, true)
    else
      Outcome(ed, lines, false)
  }

  /**
   * The Delete key without a selection, as the inline branch of
   * `handle_input` writes it: remove the character under the cursor, or at
   * the end of a line join the next line onto it. The next line is removed
   * even when it does not start with text, but the change is then not
   * reported.
   */
  function DeleteForwardAsWritten(ed: Editor, lines: seq<DocumentLine>): (r: Outcome)
    requires SingleByte(lines)
    ensures r.ed == ed
    ensures ed.line >= |lines| || !FirstIsText(lines[ed.line]) ==> r.lines == lines && !r.modified
    ensures ed.line < |lines| && FirstIsText(lines[ed.line]) && ed.col < |FirstText(lines[ed.line])| ==>
      && r.modified && |r.lines| == |lines|
      && (forall i :: 0 <= i < |lines| && i != ed.line ==> r.lines[i] == lines[i])
      && FirstIsText(r.lines[ed.line])
      && FirstText(r.lines[ed.line]) == FirstText(lines[ed.line])[..ed.col] + FirstText(lines[ed.line])[ed.col + 1..]
      && r.lines[ed.line].elements[1..] == lines[ed.line].elements[1..]
    ensures ed.line + 1 < |lines| && FirstIsText(lines[ed.line]) && ed.col >= |FirstText(lines[ed.line])| ==>
      && r.modified == FirstIsText(lines[ed.line + 1])
      && |r.lines| == |lines| - 1
      && r.lines[..ed.line] == lines[..ed.line]
      && r.lines[ed.line + 1..] == lines[ed.line + 2..]
      && FirstIsText(r.lines[ed.line])
      && r.lines[ed.line].elements[1..] == lines[ed.line].elements[1..]
      && FirstText(r.lines[ed.line]) == FirstText(lines[ed.line]) + FirstText(lines[ed.line + 1])
    ensures ed.line + 1 == |lines| && FirstIsText(lines[ed.line]) && ed.col >= |FirstText(lines[ed.line])| ==>
      r.lines == lines && !r.modified
  {
    if ed.line < |lines| then
      var l := lines[ed.line];
      if FirstIsText(l) then
        var t := FirstText(l);
        if ed.col < |t| then
          Outcome(ed, lines[ed.line := WithFirstText(l, RemoveNth(t, ed.col))], true)
        else if ed.line < |lines| - 1 then
          var next := lines[ed.line + 1];
          var rest := lines[..ed.line + 1] + lines[ed.line + 2..];
          assert rest[ed.line] == l;
          Outcome(ed, rest[ed.line := WithFirstText(l, t + FirstText(next))], FirstIsText(next))
        else
          Outcome(ed, lines, false)
      else
        Outcome(ed, lines, false)
    else
      Outcome(ed, lines, false)
  }

  /**
   * The forward delete reporting every change it makes: the flag is set
   * exactly when the document differs afterwards.
   */
  function DeleteForward(ed: Editor, lines: seq<DocumentLine>): (r: Outcome)
    requires SingleByte(lines)
    ensures r.ed == ed && r.lines == DeleteForwardAsWritten(ed, lines).lines
    ensures r.modified <==> r.lines != lines
  {
    var a := DeleteForwardAsWritten(ed, lines);
    if a.modified && ed.line < |lines| && FirstIsText(lines[ed.line]) && ed.col < |FirstText(lines[ed.line])| then
      assert |FirstText(a.lines[ed.line])| != |FirstText(lines[ed.line])|;
      a
    else
      a.(modified := |a.lines| != |lines|)
  }

  /**
   * Delete at the end of "ab" above a line holding only an image removes
   * that line, and with it the image, yet reports no change.
   */
  lemma DeleteDropsImageLine()
    ensures var lines := [DocumentLine([Text("ab")]), DocumentLine([Image("i", 1, 1)])];
            var r := DeleteForwardAsWritten(Editor(0, 2, None, None), lines);
            && r.lines == [DocumentLine([Text("ab")])] && !r.modified
            && DeleteForward(Editor(0, 2, None, None), lines).modified
  {
    var lines := [DocumentLine([Text("ab")]), DocumentLine([Image("i", 1, 1)])];
    assert lines[..1] + lines[2..] == [lines[0]];
    assert "ab" + [] == "ab";
    assert WithFirstText(lines[0], "ab") == lines[0];
  }
}
