/**
 * Arrow-key navigation of `EditorCore` (src/editor/core.rs). Moves change
 * only the cursor; columns are clamped to the length of `text_content`.
 */
module CoreMove {
  import opened Chars
  import opened Document
  import opened CoreState

  function LineLen(lines: seq<DocumentLine>, i: nat): nat
    requires i < |lines|
  {
    |TextContent(lines[i])|
  }

  /** `move_cursor_left`. */
  function MoveLeft(ed: Editor, lines: seq<DocumentLine>): (r: Editor)
    requires ed.col == 0 && ed.line > 0 ==> ed.line <= |lines|
    ensures r.selStart == ed.selStart && r.selEnd == ed.selEnd
    ensures ValidPos(lines, Cursor(ed)) ==> ValidPos(lines, Cursor(r))
    ensures ed.line == 0 && ed.col == 0 ==> r == ed
    ensures ed.col > 0 ==> Cursor(r) == Pos(ed.line, ed.col - 1)
    ensures ed.col == 0 && ed.line > 0 ==> Cursor(r) == Pos(ed.line - 1, LineLen(lines, ed.line - 1))
  {
    if ed.col > 0 then ed.(col := ed.col - 1)
    else if ed.line > 0 then ed.(line := ed.line - 1, col := LineLen(lines, ed.line - 1))
    else ed
  }

  /**
   * `move_cursor_right`. The source computes `lines.len() - 1`, which
   * underflows on an empty document, hence the precondition.
   */
  function MoveRight(ed: Editor, lines: seq<DocumentLine>): (r: Editor)
    requires |lines| > 0
    ensures r.selStart == ed.selStart && r.selEnd == ed.selEnd
    ensures ValidPos(lines, Cursor(ed)) ==> ValidPos(lines, Cursor(r))
    ensures ed.line < |lines| && ed.col < LineLen(lines, ed.line) ==> Cursor(r) == Pos(ed.line, ed.col + 1)
    ensures (ed.line >= |lines| || ed.col >= LineLen(lines, ed.line)) && ed.line < |lines| - 1 ==>
      Cursor(r) == Pos(ed.line + 1, 0)
    ensures (ed.line >= |lines| || ed.col >= LineLen(lines, ed.line)) && ed.line >= |lines| - 1 ==> r == ed
  {
    var len := if ed.line < |lines| then LineLen(lines, ed.line) else 0;
    if ed.col < len then ed.(col := ed.col + 1)
    else if ed.line < |lines| - 1 then ed.(line := ed.line + 1, col := 0)
    else ed
  }

  /** `move_cursor_up`. */
  function MoveUp(ed: Editor, lines: seq<DocumentLine>): (r: Editor)
    requires ed.line > 0 ==> ed.line <= |lines|
    ensures r.selStart == ed.selStart && r.selEnd == ed.selEnd
    ensures ValidPos(lines, Cursor(ed)) ==> ValidPos(lines, Cursor(r))
    ensures ed.line == 0 ==> r == ed
    ensures ed.line > 0 ==> r.line == ed.line - 1 && r.col <= ed.col
    ensures ed.line > 0 ==> r.col == ed.col || r.col == LineLen(lines, r.line)
  {
    if ed.line > 0 then
      ed.(line := ed.line - 1, col := Min(ed.col, LineLen(lines, ed.line - 1)))
    else ed
  }

  /** `move_cursor_down`; like `MoveRight` it needs a non-empty document. */
  function MoveDown(ed: Editor, lines: seq<DocumentLine>): (r: Editor)
    requires |lines| > 0
    ensures r.selStart == ed.selStart && r.selEnd == ed.selEnd
    ensures ValidPos(lines, Cursor(ed)) ==> ValidPos(lines, Cursor(r))
    ensures ed.line >= |lines| - 1 ==> r == ed
    ensures ed.line < |lines| - 1 ==> r.line == ed.line + 1 && r.col <= ed.col
    ensures ed.line < |lines| - 1 ==> r.col == ed.col || r.col == LineLen(lines, r.line)
  {
    if ed.line < |lines| - 1 then
      ed.(line := ed.line + 1, col := Min(ed.col, LineLen(lines, ed.line + 1)))
    else ed
  }
}
