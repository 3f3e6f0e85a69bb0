/**
 * Range deletion and select-all of `EditorCore` (src/editor/core.rs). The
 * anchors are put in reading order at use time; a one-line selection
 * removes a column range, a multi-line one joins the head of its first
 * line to the tail of its last line and drops every line in between.
 */
module CoreSelection {
  import opened Wrappers
  import opened Chars
  import opened Document
  import opened CoreState

  /** `s.chars().take(n)`. */
  function Take(s: string, n: nat): (r: string)
    ensures r == if n <= |s| then s[..n] else s
  {
    if n <= |s| then s[..n] else s
  }

  /** `s.chars().skip(n)`. */
  function Skip(s: string, n: nat): (r: string)
    ensures r == if n <= |s| then s[n..] else []
  {
    if n <= |s| then s[n..] else []
  }

  /**
   * The deletion does not panic: the first selected line exists, a
   * one-line range ends within the line's text (`String::drain`), and the
   * lines dropped from a multi-line range exist (`Vec::drain`).
   */
  predicate DeleteSelectionSafe(ed: Editor, lines: seq<DocumentLine>) {
    HasSelection(ed) ==>
      var (s, e) := Span(ed);
      && s.line < |lines|
      && (s.line == e.line && FirstIsText(lines[s.line]) ==> e.col <= |FirstText(lines[s.line])|)
      && (s.line < e.line ==> e.line <= |lines|)
  }

  /** Valid anchors make the deletion safe. */
  lemma AnchorsValidSafe(ed: Editor, lines: seq<DocumentLine>)
    requires WellFormed(lines) && AnchorsValid(ed, lines)
    ensures DeleteSelectionSafe(ed, lines)
  {
    if HasSelection(ed) {
      var (s, e) := Span(ed);
      SimpleTextContent(lines[e.line]);
    }
  }

  /** `delete_selection` exactly as the source writes it. */
  function DeleteSelectionAsWritten(ed: Editor, lines: seq<DocumentLine>): (r: Outcome)
    requires DeleteSelectionSafe(ed, lines)
    ensures !HasSelection(ed) ==> r == Outcome(ed, lines, false)
    ensures HasSelection(ed) ==> r.modified && r.ed.selStart.None? && r.ed.selEnd.None?
  {
    if !HasSelection(ed) then Outcome(ed, lines, false)
    else
      var (s, e) := Span(ed);
      if s.line == e.line then
        var l := lines[s.line];
        if FirstIsText(l) then
          var t := FirstText(l);
          Outcome(ClearSelection(ed.(line := s.line, col := s.col)), lines[s.line := WithFirstText(l, t[..s.col] + t[e.col..])], true)
        else
          Outcome(ClearSelection(ed), lines, true)
      else
        var ed2 := if FirstIsText(lines[s.line]) then ed.(line := s.line, col := s.col) else ed;
        Outcome(ClearSelection(ed2), DeleteLines(lines, s, e), true)
  }

  /**
   * The lines after deleting from `s` to `e` on a later line: the lines
   * between go, the first keeps its head before `s.col` followed by the
   * last line's tail from `e.col` (when both start with text), and the
   * last is dropped.
   */
  function DeleteLines(lines: seq<DocumentLine>, s: Pos, e: Pos): (r: seq<DocumentLine>)
    requires s.line < e.line <= |lines|
    ensures |r| == if e.line < |lines| then |lines| - (e.line - s.line) else s.line + 1
    ensures r[..s.line] == lines[..s.line]
    ensures e.line < |lines| ==> r[s.line + 1..] == lines[e.line + 1..]
  {
    var kept := lines[..s.line + 1] + lines[e.line..];
    var tail := if s.line + 1 < |kept| && FirstIsText(kept[s.line + 1]) then Skip(FirstText(kept[s.line + 1]), e.col) else [];
    var first := kept[s.line];
    var kept2 := if FirstIsText(first) then kept[s.line := WithFirstText(first, Take(FirstText(first), s.col) + tail)] else kept;
    if |kept2| > s.line + 1 then kept2[..s.line + 1] + kept2[s.line + 2..] else kept2
  }

  /**
   * `delete_selection` with the cursor always moved to the start of the
   * deleted range, also when that range starts on a line that does not
   * begin with text (where the source leaves the cursor behind).
   */
  function DeleteSelection(ed: Editor, lines: seq<DocumentLine>): (r: Outcome)
    requires DeleteSelectionSafe(ed, lines)
    ensures !HasSelection(ed) ==> r == Outcome(ed, lines, false)
    ensures HasSelection(ed) ==> r.modified && r.ed.selStart.None? && r.ed.selEnd.None? && !HasSelection(r.ed)
    ensures HasSelection(ed) ==> Cursor(r.ed) == Span(ed).0
  {
    var r := DeleteSelectionAsWritten(ed, lines);
    if HasSelection(ed) then r.(ed := r.ed.(line := Span(ed).0.line, col := Span(ed).0.col)) else r
  }

  /** Where the selection's first line starts with text, the two agree. */
  lemma AsWrittenAgrees(ed: Editor, lines: seq<DocumentLine>)
    requires DeleteSelectionSafe(ed, lines)
    requires HasSelection(ed) ==> FirstIsText(lines[Span(ed).0.line])
    ensures DeleteSelectionAsWritten(ed, lines) == DeleteSelection(ed, lines)
  {
  }

  /**
   * Selecting from an image line (0, 0) down to (1, 2) over
   * [image, "ab"] and deleting leaves the cursor at (1, 2) in a one-line
   * document: no valid position, and the next typed character panics
   * (`insert_char` appends a line and inserts at column 2 of "").
   */
  lemma ImageStartStrandsCursor()
    ensures var lines := [DocumentLine([Image("i", 10, 10)]), DocumentLine([Text("ab")])];
            var ed := Editor(1, 2, Some(Pos(0, 0)), Some(Pos(1, 2)));
            && ValidPos(lines, Cursor(ed)) && AnchorsValid(ed, lines)
            && var r := DeleteSelectionAsWritten(ed, lines);
            && r.lines == [DocumentLine([Image("i", 10, 10)])]
            && Cursor(r.ed) == Pos(1, 2)
            && !ValidPos(r.lines, Cursor(r.ed))
            && var r' := DeleteSelection(ed, lines);
            && r'.lines == r.lines && Cursor(r'.ed) == Pos(0, 0) && ValidPos(r'.lines, Cursor(r'.ed))
  {
    var lines := [DocumentLine([Image("i", 10, 10)]), DocumentLine([Text("ab")])];
    var ed := Editor(1, 2, Some(Pos(0, 0)), Some(Pos(1, 2)));
    assert TextContent(lines[1]) == "ab" by {
      TextOfSingle(Text("ab"));
    }
    assert TextContent(lines[0]) == [] by {
      TextOfSingle(Image("i", 10, 10));
    }
    var kept := lines[..1] + lines[1..];
    assert kept == lines;
  }

  /** A one-line selection removes exactly the columns `[start, end)`. */
  lemma DeleteSelectionSingleLine(ed: Editor, lines: seq<DocumentLine>)
    requires DeleteSelectionSafe(ed, lines) && HasSelection(ed)
    requires Span(ed).0.line == Span(ed).1.line && FirstIsText(lines[Span(ed).0.line])
    ensures var (s, e) := Span(ed);
            var t := FirstText(lines[s.line]);
            var r := DeleteSelection(ed, lines);
            && s.col < e.col <= |t|
            && |r.lines| == |lines|
            && (forall i :: 0 <= i < |lines| && i != s.line ==> r.lines[i] == lines[i])
            && FirstIsText(r.lines[s.line])
            && FirstText(r.lines[s.line]) == t[..s.col] + t[e.col..]
            && r.lines[s.line].elements[1..] == lines[s.line].elements[1..]
            && Cursor(r.ed) == s
  {
  }

  /**
   * A selection over several lines keeps the first line's head before the
   * start column followed by the last line's tail from the end column,
   * and removes the `end - start` lines after the first.
   */
  lemma DeleteSelectionMultiLine(ed: Editor, lines: seq<DocumentLine>)
    requires DeleteSelectionSafe(ed, lines) && HasSelection(ed)
    requires Span(ed).0.line < Span(ed).1.line < |lines|
    requires FirstIsText(lines[Span(ed).0.line]) && FirstIsText(lines[Span(ed).1.line])
    ensures var (s, e) := Span(ed);
            var r := DeleteSelection(ed, lines);
            && |r.lines| == |lines| - (e.line - s.line)
            && r.lines[..s.line] == lines[..s.line]
            && r.lines[s.line + 1..] == lines[e.line + 1..]
            && FirstIsText(r.lines[s.line])
            && r.lines[s.line].elements[1..] == lines[s.line].elements[1..]
            && FirstText(r.lines[s.line]) == Take(FirstText(lines[s.line]), s.col) + Skip(FirstText(lines[e.line]), e.col)
            && Cursor(r.ed) == s
  {
    var (s, e) := Span(ed);
    var kept := lines[..s.line + 1] + lines[e.line..];
    assert kept[s.line] == lines[s.line];
    assert kept[s.line + 1] == lines[e.line];
    var tail := Skip(FirstText(lines[e.line]), e.col);
    var first := lines[s.line];
    var kept2 := kept[s.line := WithFirstText(first, Take(FirstText(first), s.col) + tail)];
    var result := kept2[..s.line + 1] + kept2[s.line + 2..];
    assert DeleteSelectionAsWritten(ed, lines).lines == result;
    assert result[..s.line] == lines[..s.line];
    assert result[s.line + 1..] == lines[e.line + 1..];
  }

  /** The deletion does not depend on which anchor was set first. */
  lemma DeleteSelectionSymmetric(ed: Editor, lines: seq<DocumentLine>)
    requires HasSelection(ed) && DeleteSelectionSafe(ed, lines)
    ensures var swapped := ed.(selStart := ed.selEnd, selEnd := ed.selStart);
            && HasSelection(swapped) && DeleteSelectionSafe(swapped, lines)
            && DeleteSelection(swapped, lines) == DeleteSelection(ed, lines)
  {
    OrderedSymmetric(ed.selStart.value, ed.selEnd.value);
  }

  /** The scenario ["hello", "world"] with (0, 1)-(1, 2) selected gives ["hrld"] with the cursor at (0, 1). */
  lemma DeleteSelectionExample()
    ensures var lines := [DocumentLine([Text("hello")]), DocumentLine([Text("world")])];
            var ed := Editor(1, 2, Some(Pos(0, 1)), Some(Pos(1, 2)));
            DeleteSelection(ed, lines) == Outcome(Editor(0, 1, None, None), [DocumentLine([Text("hrld")])], true)
  {
    var lines := [DocumentLine([Text("hello")]), DocumentLine([Text("world")])];
    var ed := Editor(1, 2, Some(Pos(0, 1)), Some(Pos(1, 2)));
    DeleteSelectionMultiLine(ed, lines);
    var r := DeleteSelection(ed, lines);
    assert Take("hello", 1) + Skip("world", 2) == "hrld";
    var els := r.lines[0].elements;
    assert els == [els[0]] + els[1..];
    assert els == [Text("hrld")];
    assert r.lines == [r.lines[0]];
  }

  /** A deletion started from valid anchors keeps the engine's invariant. */
  lemma DeleteSelectionKeepsInv(ed: Editor, lines: seq<DocumentLine>)
    requires WellFormed(lines) && AnchorsValid(ed, lines) && HasSelection(ed)
    ensures DeleteSelectionSafe(ed, lines)
    ensures var r := DeleteSelection(ed, lines);
            Inv(r.ed, r.lines) && AnchorsValid(r.ed, r.lines)
  {
    AnchorsValidSafe(ed, lines);
    var (s, e) := Span(ed);
    SimpleTextContent(lines[s.line]);
    SimpleTextContent(lines[e.line]);
    if s.line == e.line {
      if FirstIsText(lines[s.line]) {
        var r := DeleteSelection(ed, lines);
        DeleteSelectionSingleLine(ed, lines);
        var t := FirstText(lines[s.line]);
        FirstTextAscii(lines, s.line);
        AsciiSlice(t, s.col, e.col);
        AsciiAppend(t[..s.col], t[e.col..]);
        ReplaceFirstText(lines[s.line], t[..s.col] + t[e.col..]);
        assert r.lines == lines[s.line := WithFirstText(lines[s.line], t[..s.col] + t[e.col..])];
        WellFormedUpdate(lines, s.line, WithFirstText(lines[s.line], t[..s.col] + t[e.col..]));
      } else {
        assert false;
      }
    } else {
      MultiLineKeepsInv(ed, lines);
    }
  }

  lemma MultiLineKeepsInv(ed: Editor, lines: seq<DocumentLine>)
    requires WellFormed(lines) && AnchorsValid(ed, lines) && HasSelection(ed)
    requires DeleteSelectionSafe(ed, lines)
    requires Span(ed).0.line < Span(ed).1.line
    requires Span(ed).0.col <= |TextContent(lines[Span(ed).0.line])|
    ensures var r := DeleteSelection(ed, lines);
            Inv(r.ed, r.lines)
  {
    var (s, e) := Span(ed);
    DeleteLinesKeepsInv(lines, s, e);
  }

  /** A multi-line deletion keeps the document well formed and the start column within its line. */
  lemma DeleteLinesKeepsInv(lines: seq<DocumentLine>, s: Pos, e: Pos)
    requires WellFormed(lines) && s.line < e.line <= |lines| && s.col <= |TextContent(lines[s.line])|
    ensures var r := DeleteLines(lines, s, e);
            WellFormed(r) && s.line < |r| && s.col <= |TextContent(r[s.line])|
  {
    var kept := KeptWellFormed(lines, s.line, e.line);
    var tail := if s.line + 1 < |kept| && FirstIsText(kept[s.line + 1]) then Skip(FirstText(kept[s.line + 1]), e.col) else [];
    if s.line + 1 < |kept| {
      FirstTextAscii(kept, s.line + 1);
      SkipAscii(FirstText(kept[s.line + 1]), e.col);
    }
    var first := kept[s.line];
    var joined := JoinedLineOk(first, s.col, tail);
    var kept2 := if FirstIsText(first) then kept[s.line := WithFirstText(first, Take(FirstText(first), s.col) + tail)] else kept;
    assert kept2 == kept[s.line := joined];
    var result := if |kept2| > s.line + 1 then kept2[..s.line + 1] + kept2[s.line + 2..] else kept2;
    if |kept2| > s.line + 1 {
      DropWellFormed(kept2, s.line);
    }
  }

  /** The lines a multi-line deletion keeps before joining: through the first selected line, and from the last. */
  lemma KeptWellFormed(lines: seq<DocumentLine>, a: nat, b: nat) returns (kept: seq<DocumentLine>)
    requires WellFormed(lines) && a < b <= |lines|
    ensures kept == lines[..a + 1] + lines[b..]
    ensures WellFormed(kept) && a < |kept| && kept[a] == lines[a]
  {
    kept := lines[..a + 1] + lines[b..];
    WellFormedSlice(lines, a + 1, b);
    WellFormedAppend(lines[..a + 1], lines[b..]);
  }

  /** Dropping the line after line `i` keeps a document well formed, and line `i`. */
  lemma DropWellFormed(lines: seq<DocumentLine>, i: nat)
    requires WellFormed(lines) && i + 1 < |lines|
    ensures WellFormed(lines[..i + 1] + lines[i + 2..]) && (lines[..i + 1] + lines[i + 2..])[i] == lines[i]
  {
    WellFormedSlice(lines, i + 1, i + 2);
    WellFormedAppend(lines[..i + 1], lines[i + 2..]);
  }

  lemma SkipAscii(u: string, n: nat)
    requires Ascii(u)
    ensures Ascii(Skip(u, n))
  {
    if n <= |u| {
      AsciiSlice(u, n, |u|);
    }
  }

  /**
   * The first selected line after the join: its head up to column `col`
   * followed by `tail` when it starts with text, itself otherwise. It
   * stays well formed and the column stays within it.
   */
  lemma JoinedLineOk(first: DocumentLine, col: nat, tail: string) returns (joined: DocumentLine)
    requires LineOk(first) && Ascii(tail) && col <= |TextContent(first)|
    ensures joined == if FirstIsText(first) then WithFirstText(first, Take(FirstText(first), col) + tail) else first
    ensures LineOk(joined) && col <= |TextContent(joined)|
  {
    SimpleTextContent(first);
    if FirstIsText(first) {
      var t := FirstText(first);
      assert Ascii(t);
      var h := Take(t, col);
      AsciiSlice(t, 0, col);
      assert h == t[0..col];
      AsciiAppend(h, tail);
      ReplaceFirstText(first, h + tail);
      joined := WithFirstText(first, h + tail);
    } else {
      joined := first;
    }
  }

  /** Ctrl+A: anchors at the document's origin and at the end of its last line. */
  function SelectAll(ed: Editor, lines: seq<DocumentLine>): (r: Editor)
    ensures Cursor(r) == Cursor(ed) && r.selStart == Some(Pos(0, 0))
    ensures |lines| > 0 ==> r.selEnd == Some(Pos(|lines| - 1, |TextContent(lines[|lines| - 1])|))
    ensures |lines| == 0 ==> r.selEnd == ed.selEnd
    ensures |lines| > 0 ==> AnchorsValid(r, lines)
  {
    var r := ed.(selStart := Some(Pos(0, 0)));
    if |lines| > 0 then r.(selEnd := Some(Pos(|lines| - 1, |TextContent(lines[|lines| - 1])|))) else r
  }

  /** Select-all followed by a deletion leaves one line without text, the cursor at the origin. */
  lemma SelectAllThenDelete(ed: Editor, lines: seq<DocumentLine>)
    requires WellFormed(lines) && |lines| > 0
    ensures var sel := SelectAll(ed, lines);
            DeleteSelectionSafe(sel, lines)
            && var r := DeleteSelection(sel, lines);
            && |r.lines| == 1 && TextContent(r.lines[0]) == []
            && (HasSelection(sel) ==> Cursor(r.ed) == Pos(0, 0))
  {
    var sel := SelectAll(ed, lines);
    AnchorsValidSafe(sel, lines);
    if HasSelection(sel) {
      if |lines| == 1 {
        SelectAllOneLine(sel, lines);
      } else {
        SelectAllManyLines(sel, lines);
      }
    } else {
      assert sel.selEnd == Some(Pos(0, 0));
      SimpleTextContent(lines[0]);
    }
  }

  lemma SelectAllOneLine(sel: Editor, lines: seq<DocumentLine>)
    requires WellFormed(lines) && |lines| == 1
    requires sel.selStart == Some(Pos(0, 0)) && sel.selEnd == Some(Pos(0, |TextContent(lines[0])|))
    requires HasSelection(sel) && DeleteSelectionSafe(sel, lines)
    ensures var r := DeleteSelection(sel, lines);
            |r.lines| == 1 && TextContent(r.lines[0]) == []
  {
    var r := DeleteSelection(sel, lines);
    SimpleTextContent(lines[0]);
    if FirstIsText(lines[0]) {
      DeleteSelectionSingleLine(sel, lines);
      var t := FirstText(lines[0]);
      assert t[..0] + t[|t|..] == [];
      ReplaceFirstText(lines[0], []);
    }
  }

  lemma SelectAllManyLines(sel: Editor, lines: seq<DocumentLine>)
    requires WellFormed(lines) && |lines| > 1
    requires sel.selStart == Some(Pos(0, 0))
    requires sel.selEnd == Some(Pos(|lines| - 1, |TextContent(lines[|lines| - 1])|))
    requires DeleteSelectionSafe(sel, lines)
    ensures var r := DeleteSelection(sel, lines);
            |r.lines| == 1 && TextContent(r.lines[0]) == []
  {
    var n := |lines|;
    var e := Pos(n - 1, |TextContent(lines[n - 1])|);
    assert Span(sel) == (Pos(0, 0), e);
    SimpleTextContent(lines[n - 1]);
    var kept := lines[..1] + lines[n - 1..];
    assert kept == [lines[0], lines[n - 1]];
    var tail := if FirstIsText(lines[n - 1]) then Skip(FirstText(lines[n - 1]), e.col) else [];
    assert tail == [];
    var first := lines[0];
    var kept2 := if FirstIsText(first) then kept[0 := WithFirstText(first, Take(FirstText(first), 0) + tail)] else kept;
    assert DeleteSelection(sel, lines).lines == kept2[..1];
    if FirstIsText(first) {
      assert Take(FirstText(first), 0) + tail == [];
      ReplaceFirstText(first, []);
    } else {
      SimpleTextContent(first);
    }
  }
}
