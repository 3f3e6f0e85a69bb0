/**
 * `CursorPosition` of the flat-string editor
 * (src/components/text_editor/cursor_position.rs): a line and a column
 * into a `String` read through `str::lines()`. A text that ends in a line
 * feed has one more cursor line than `lines()` yields, the empty
 * "phantom" line after the last line feed.
 */
module FlatCursor {
  import opened Chars
  import opened Strings
  import opened RustLines

  datatype Cursor = Cursor(line: nat, column: nat)

  /** Number of line feeds in `s`. */
  function NewlineCount(s: string): nat {
    if s == [] then 0 else (if s[0] == '\n' then 1 else 0) + NewlineCount(s[1..])
  }

  lemma {:induction false} NewlineCountAppend(a: string, b: string)
    ensures NewlineCount(a + b) == NewlineCount(a) + NewlineCount(b)
    decreases |a|
  {
    if a == [] {
      assert a + b == b;
    } else {
      assert (a + b)[1..] == a[1..] + b;
      NewlineCountAppend(a[1..], b);
    }
  }

  lemma {:induction false} NoNewlineCount(s: string)
    requires NoNewline(s)
    ensures NewlineCount(s) == 0
    decreases |s|
  {
    if s != [] {
      NoNewlineCount(s[1..]);
    }
  }

  /**
   * `lines()` yields one line per line feed, plus one for an unterminated
   * last line.
   */
  lemma {:induction false} LinesCount(s: string)
    ensures |Lines(s)| == if s == [] then 0 else if EndsWithNewline(s) then NewlineCount(s) else NewlineCount(s) + 1
    decreases |s|
  {
    if s != [] {
      var i := IndexOf(s, '\n');
      if i == |s| {
        NoNewlineCount(s);
      } else {
        var rest := s[i + 1..];
        LinesCount(rest);
        assert s == s[..i] + ("\n" + rest);
        NoNewlineCount(s[..i]);
        NewlineCountAppend(s[..i], "\n" + rest);
        NewlineCountAppend("\n", rest);
        if rest != [] {
          assert s[|s| - 1] == rest[|rest| - 1];
        }
      }
    }
  }

  /**
   * `get_max_line_index`: the last line the cursor may reach. It is the
   * number of line feeds in the text; it names a line `lines()` yields
   * exactly when the text is non-empty and unterminated.
   */
  function MaxLineIndex(text: string): (r: nat)
    ensures r == NewlineCount(text)
    ensures r <= |Lines(text)|
    ensures r < |Lines(text)| <==> text != [] && !EndsWithNewline(text)
  {
    LinesCount(text);
    var n := |Lines(text)|;
    if EndsWithNewline(text) then n else Pred(n)
  }

  /** `lines()` yields line `i` (it is not the phantom line, nor beyond it). */
  predicate HasLine(text: string, i: nat) {
    i < |Lines(text)|
  }

  /** Character count of line `i`. */
  function LineLen(text: string, i: nat): nat
    requires HasLine(text, i)
  {
    |Lines(text)[i]|
  }

  /**
   * The cursor is on a reachable line and, on a line `lines()` yields,
   * within it.
   */
  predicate Valid(c: Cursor, text: string) {
    && c.line <= MaxLineIndex(text)
    && (HasLine(text, c.line) ==> c.column <= LineLen(text, c.line))
  }

  /**
   * Valid, and at column 0 when on the phantom line: the states the
   * editor widget's key handling keeps the cursor in.
   */
  predicate Settled(c: Cursor, text: string) {
    Valid(c, text) && (!HasLine(text, c.line) ==> c.column == 0)
  }

  /** `clamp_column`: pull the column back into its line; nothing on the phantom line. */
  function ClampColumn(c: Cursor, text: string): (r: Cursor)
    ensures r.line == c.line && r.column <= c.column
    ensures HasLine(text, c.line) ==> r.column == Min(c.column, LineLen(text, c.line))
    ensures !HasLine(text, c.line) ==> r == c
    ensures c.line <= MaxLineIndex(text) ==> Valid(r, text)
  {
    if HasLine(text, c.line) then c.(column := Min(c.column, LineLen(text, c.line))) else c
  }

  /** `move_up`: a no-op on line 0, otherwise the line above with the column clamped. */
  function MoveUp(c: Cursor, text: string): (r: Cursor)
    ensures c.line == 0 ==> r == c
    ensures c.line > 0 ==> r == ClampColumn(Cursor(c.line - 1, c.column), text)
    ensures Valid(c, text) ==> Valid(r, text)
    ensures Valid(c, text) && c.line > 0 ==> HasLine(text, r.line)
  {
    if c.line > 0 then ClampColumn(c.(line := c.line - 1), text) else c
  }

  /** `move_down`: the next line, never past the last reachable one, column clamped. */
  function MoveDown(c: Cursor, text: string): (r: Cursor)
    ensures r.line == Min(c.line + 1, MaxLineIndex(text))
    ensures r.line <= MaxLineIndex(text) && Valid(r, text)
    ensures HasLine(text, r.line) ==> r.column == Min(c.column, LineLen(text, r.line))
    ensures !HasLine(text, r.line) ==> r.column == c.column
  {
    ClampColumn(c.(line := Min(c.line + 1, MaxLineIndex(text))), text)
  }

  /** `move_to_line_end`: the column after the line's last character. */
  function MoveToLineEnd(c: Cursor, text: string): (r: Cursor)
    ensures HasLine(text, c.line) ==> r == Cursor(c.line, LineLen(text, c.line))
    ensures !HasLine(text, c.line) ==> r == c
  {
    if HasLine(text, c.line) then c.(column := LineLen(text, c.line)) else c
  }

  /** `move_to_line_start`. */
  function MoveToLineStart(c: Cursor): (r: Cursor)
    ensures r == Cursor(c.line, 0)
  {
    c.(column := 0)
  }

  /** `move_right_by`: no clamping, so the result may lie past the line's end. */
  function MoveRightBy(c: Cursor, amount: nat): (r: Cursor)
    ensures r.line == c.line && r.column == c.column + amount
  {
    c.(column := c.column + amount)
  }

  /**
   * `move_left`: one column back; at column 0 the end of the previous
   * line; at the start of the text a no-op.
   */
  function MoveLeft(c: Cursor, text: string): (r: Cursor)
    ensures c.column > 0 ==> r == Cursor(c.line, c.column - 1)
    ensures c.column == 0 && c.line == 0 ==> r == c
    ensures Valid(c, text) && c.column == 0 && c.line > 0 ==> r == Cursor(c.line - 1, LineLen(text, c.line - 1))
    ensures Valid(c, text) ==> Valid(r, text)
  {
    if c.column > 0 then c.(column := c.column - 1)
    else if c.line > 0 then MoveToLineEnd(MoveUp(c, text), text)
    else c
  }

  /**
   * `move_right`: one column on, never past the line's end; at the end of
   * a line that is not the last, the start of the next; a no-op on a line
   * `lines()` does not yield.
   */
  function MoveRight(c: Cursor, text: string): (r: Cursor)
    ensures !HasLine(text, c.line) ==> r == c
    ensures HasLine(text, c.line) && c.column < LineLen(text, c.line) ==> r == Cursor(c.line, c.column + 1)
    ensures HasLine(text, c.line) && c.column == LineLen(text, c.line) && c.line < MaxLineIndex(text) ==>
      r == Cursor(c.line + 1, 0)
    ensures HasLine(text, c.line) && c.column >= LineLen(text, c.line) && c.line >= MaxLineIndex(text) ==>
      r == Cursor(c.line, LineLen(text, c.line))
    ensures Valid(c, text) ==> Valid(r, text)
  {
    if HasLine(text, c.line) then
      var count := LineLen(text, c.line);
      if c.column == count && c.line < MaxLineIndex(text) then MoveToLineStart(MoveDown(c, text))
      else c.(column := Min(c.column + 1, count))
    else c
  }

  /**
   * `move_to_line_and_column`: the line is capped at the last reachable
   * one and the column at its length; on the phantom line the column is
   * left as it was.
   */
  function MoveToLineAndColumn(c: Cursor, line: nat, column: nat, text: string): (r: Cursor)
    ensures r.line == Min(line, MaxLineIndex(text))
    ensures HasLine(text, r.line) ==> r.column == Min(column, LineLen(text, r.line))
    ensures !HasLine(text, r.line) ==> r.column == c.column
    ensures Valid(r, text)
  {
    var l := Min(line, MaxLineIndex(text));
    if HasLine(text, l) then Cursor(l, Min(column, LineLen(text, l))) else Cursor(l, c.column)
  }

  /** Moving left and then right comes back, anywhere but the start of the text. */
  lemma LeftThenRight(c: Cursor, text: string)
    requires Valid(c, text) && c != Cursor(0, 0)
    requires HasLine(text, c.line) || c.column == 0
    ensures MoveRight(MoveLeft(c, text), text) == c
  {
  }

  /** Moving right and then left comes back, anywhere but the end of the last line. */
  lemma RightThenLeft(c: Cursor, text: string)
    requires Valid(c, text) && HasLine(text, c.line)
    requires c.line < MaxLineIndex(text) || c.column < LineLen(text, c.line)
    ensures MoveLeft(MoveRight(c, text), text) == c
  {
  }

  /** Moving down and then up returns to the line, unless already on the last one. */
  lemma DownThenUp(c: Cursor, text: string)
    requires Valid(c, text) && c.line < MaxLineIndex(text)
    ensures MoveUp(MoveDown(c, text), text).line == c.line
    ensures HasLine(text, c.line + 1) && c.column <= LineLen(text, c.line + 1) ==> MoveUp(MoveDown(c, text), text) == c
  {
  }
}
