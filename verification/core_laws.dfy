/**
 * Laws of the editing operations of `EditorCore` (src/editor/core.rs):
 * every edit keeps the engine's invariant, Backspace undoes a typed
 * character and a line split, and a few concrete sessions.
 */
module CoreLaws {
  import opened Wrappers
  import opened Chars
  import opened Document
  import opened CoreState
  import opened CoreEdit
  import opened CoreMove

  /** Under the invariant every edit's precondition holds. */
  lemma InvEnablesEdits(ed: Editor, lines: seq<DocumentLine>)
    requires Inv(ed, lines)
    ensures SingleByte(lines) && AllSimple(lines)
    ensures CursorEditable(ed, lines) && BackspaceSafe(ed, lines)
    ensures TextContent(lines[ed.line]) == FirstText(lines[ed.line])
    ensures Ascii(FirstText(lines[ed.line]))
  {
    SimpleTextContent(lines[ed.line]);
    FirstTextAscii(lines, ed.line);
  }

  /**
   * Typing a character keeps the invariant, clears the selection, and
   * inserts the character into the line's text at the cursor.
   */
  lemma InsertCharKeepsInv(ed: Editor, lines: seq<DocumentLine>, c: char)
    requires Inv(ed, lines) && IsAscii(c)
    ensures CursorEditable(ed, lines)
    ensures var r := InsertChar(ed, lines, c);
            && Inv(r.ed, r.lines) && AnchorsValid(r.ed, r.lines)
            && |r.lines| == |lines|
            && TextContent(r.lines[ed.line]) == InsertAt(TextContent(lines[ed.line]), ed.col, [c])
            && Cursor(r.ed) == Pos(ed.line, ed.col + 1)
  {
    InvEnablesEdits(ed, lines);
    var k := ed.line;
    var l := lines[k];
    var r := InsertChar(ed, lines, c);
    if FirstIsText(l) {
      var t := FirstText(l);
      AsciiInsert(t, ed.col, [c]);
      ReplaceFirstText(l, InsertAt(t, ed.col, [c]));
      assert r.lines == lines[k := WithFirstText(l, InsertAt(t, ed.col, [c]))];
      WellFormedUpdate(lines, k, WithFirstText(l, InsertAt(t, ed.col, [c])));
    } else {
      var l' := DocumentLine([Text([c])] + l.elements);
      assert r.lines == lines[k := l'];
      forall i | 1 <= i < |l'.elements| ensures l'.elements[i].Image? {
        assert l'.elements[i] == l.elements[i - 1];
      }
      assert LineOk(l');
      SimpleTextContent(l');
      WellFormedUpdate(lines, k, l');
    }
  }

  /** Enter keeps the invariant, keeps the anchors, and adds exactly one line. */
  lemma HandleEnterKeepsInv(ed: Editor, lines: seq<DocumentLine>)
    requires Inv(ed, lines)
    ensures CursorEditable(ed, lines)
    ensures var r := HandleEnter(ed, lines);
            && Inv(r.ed, r.lines)
            && |r.lines| == |lines| + 1
            && TextContent(r.lines[ed.line]) + TextContent(r.lines[ed.line + 1]) == TextContent(lines[ed.line])
  {
    InvEnablesEdits(ed, lines);
    if FirstIsText(lines[ed.line]) {
      SplitKeepsInv(ed, lines);
    } else {
      OpenKeepsInv(ed, lines);
    }
  }

  lemma SplitKeepsInv(ed: Editor, lines: seq<DocumentLine>)
    requires WellFormed(lines) && CursorEditable(ed, lines) && ed.line < |lines|
    requires FirstIsText(lines[ed.line])
    ensures var r := HandleEnter(ed, lines);
            && WellFormed(r.lines)
            && TextContent(r.lines[ed.line]) + TextContent(r.lines[ed.line + 1]) == TextContent(lines[ed.line])
  {
    var k := ed.line;
    var l := lines[k];
    var r := HandleEnter(ed, lines);
    var t := FirstText(l);
    FirstTextAscii(lines, k);
    SimpleTextContent(l);
    AsciiSlice(t, ed.col, ed.col);
    ReplaceFirstText(l, t[..ed.col]);
    TextLineOk(t[ed.col..]);
    var mid := [WithFirstText(l, t[..ed.col]), DocumentLine([Text(t[ed.col..])])];
    assert r.lines == lines[..k] + mid + lines[k + 1..];
    WellFormedSlice(lines, k, k + 1);
    WellFormedAppend(lines[..k], mid);
    WellFormedAppend(lines[..k] + mid, lines[k + 1..]);
  }

  lemma OpenKeepsInv(ed: Editor, lines: seq<DocumentLine>)
    requires WellFormed(lines) && CursorEditable(ed, lines) && ed.line < |lines|
    requires !FirstIsText(lines[ed.line])
    ensures var r := HandleEnter(ed, lines);
            && WellFormed(r.lines)
            && TextContent(r.lines[ed.line]) + TextContent(r.lines[ed.line + 1]) == TextContent(lines[ed.line])
  {
    var k := ed.line;
    var r := HandleEnter(ed, lines);
    TextLineOk([]);
    assert r.lines == lines[..k + 1] + [NewLine()] + lines[k + 1..];
    WellFormedSlice(lines, k + 1, k + 1);
    WellFormedAppend(lines[..k + 1], [NewLine()]);
    WellFormedAppend(lines[..k + 1] + [NewLine()], lines[k + 1..]);
    SimpleTextContent(lines[k]);
  }

  /** Backspace keeps the invariant (it leaves the anchors alone). */
  lemma HandleBackspaceKeepsInv(ed: Editor, lines: seq<DocumentLine>)
    requires Inv(ed, lines)
    ensures BackspaceSafe(ed, lines)
    ensures var r := HandleBackspace(ed, lines);
            Inv(r.ed, r.lines)
  {
    InvEnablesEdits(ed, lines);
    var k := ed.line;
    var r := HandleBackspace(ed, lines);
    if ed.col > 0 {
      var l := lines[k];
      var t := FirstText(l);
      AsciiRemove(t, ed.col - 1);
      ReplaceFirstText(l, RemoveNth(t, ed.col - 1));
      WellFormedUpdate(lines, k, WithFirstText(l, RemoveNth(t, ed.col - 1)));
    } else if k > 0 {
      var rest := lines[..k] + lines[k + 1..];
      WellFormedSlice(lines, k, k + 1);
      WellFormedAppend(lines[..k], lines[k + 1..]);
      var prev := lines[k - 1];
      assert rest[k - 1] == prev;
      SimpleTextContent(prev);
      if FirstIsText(prev) {
        var merged := FirstText(prev) + FirstText(lines[k]);
        FirstTextAscii(lines, k - 1);
        AsciiAppend(FirstText(prev), FirstText(lines[k]));
        ReplaceFirstText(prev, merged);
        WellFormedUpdate(rest, k - 1, WithFirstText(prev, merged));
      }
    }
  }

  /** The forward delete keeps the invariant and the cursor. */
  lemma DeleteForwardKeepsInv(ed: Editor, lines: seq<DocumentLine>)
    requires Inv(ed, lines)
    ensures var r := DeleteForward(ed, lines);
            Inv(r.ed, r.lines) && r.ed == ed
  {
    InvEnablesEdits(ed, lines);
    var k := ed.line;
    var l := lines[k];
    var r := DeleteForward(ed, lines);
    if FirstIsText(l) {
      var t := FirstText(l);
      if ed.col < |t| {
        AsciiRemove(t, ed.col);
        ReplaceFirstText(l, RemoveNth(t, ed.col));
        WellFormedUpdate(lines, k, WithFirstText(l, RemoveNth(t, ed.col)));
      } else if k < |lines| - 1 {
        var next := lines[k + 1];
        var rest := lines[..k + 1] + lines[k + 2..];
        WellFormedSlice(lines, k + 1, k + 2);
        WellFormedAppend(lines[..k + 1], lines[k + 2..]);
        assert rest[k] == l;
        FirstTextAscii(lines, k + 1);
        AsciiAppend(t, FirstText(next));
        ReplaceFirstText(l, t + FirstText(next));
        WellFormedUpdate(rest, k, WithFirstText(l, t + FirstText(next)));
      }
    }
  }

  /**
   * Backspace right after typing a character removes it again: the
   * document's text and the cursor are restored, and where the line
   * started with text the document is restored exactly.
   */
  lemma InsertThenBackspace(ed: Editor, lines: seq<DocumentLine>, c: char)
    requires Inv(ed, lines) && IsAscii(c)
    ensures CursorEditable(ed, lines)
    ensures Inv(InsertChar(ed, lines, c).ed, InsertChar(ed, lines, c).lines)
    ensures var r1 := InsertChar(ed, lines, c);
            var r2 := HandleBackspace(r1.ed, r1.lines);
            && r2.modified && r2.ed == ClearSelection(ed)
            && |r2.lines| == |lines|
            && (forall i :: 0 <= i < |lines| && i != ed.line ==> r2.lines[i] == lines[i])
            && TextContent(r2.lines[ed.line]) == TextContent(lines[ed.line])
            && (FirstIsText(lines[ed.line]) ==> r2.lines == lines)
  {
    InsertCharKeepsInv(ed, lines, c);
    InvEnablesEdits(ed, lines);
    var r1 := InsertChar(ed, lines, c);
    InvEnablesEdits(r1.ed, r1.lines);
    if FirstIsText(lines[ed.line]) {
      UndoTyped(ed, lines, c, r1);
    } else {
      UndoOpened(ed, lines, c);
    }
  }

  /** Backspace after typing into a line that starts with text gives the document back. */
  lemma UndoTyped(ed: Editor, lines: seq<DocumentLine>, c: char, r1: Outcome)
    requires SingleByte(lines) && IsAscii(c) && CursorEditable(ed, lines)
    requires ed.line < |lines| && FirstIsText(lines[ed.line]) && ed.col <= |FirstText(lines[ed.line])|
    requires r1 == InsertChar(ed, lines, c) && SingleByte(r1.lines)
    ensures BackspaceSafe(r1.ed, r1.lines)
    ensures var r2 := HandleBackspace(r1.ed, r1.lines);
            r2.modified && r2.ed == ClearSelection(ed) && r2.lines == lines
  {
    var k := ed.line;
    var t := FirstText(lines[k]);
    assert |r1.lines| == |lines|;
    assert r1.ed.col == ed.col + 1 && FirstText(r1.lines[k]) == t[..ed.col] + [c] + t[ed.col..];
    var r2 := HandleBackspace(r1.ed, r1.lines);
    DropInserted(t, ed.col, c);
    assert FirstText(r2.lines[k]) == t;
    LineFromFirst(lines[k], r2.lines[k]);
    assert forall i :: 0 <= i < |lines| ==> r2.lines[i] == lines[i];
  }

  lemma DropInserted<T>(t: seq<T>, k: nat, c: T)
    requires k <= |t|
    ensures var u := t[..k] + [c] + t[k..]; u[..k] + u[k + 1..] == t
  {
    var u := t[..k] + [c] + t[k..];
    assert u[..k] == t[..k] && u[k + 1..] == t[k..];
  }

  /**
   * Backspace after typing into a line that starts with an image leaves
   * an empty text in front of it: the same text as before.
   */
  lemma UndoOpened(ed: Editor, lines: seq<DocumentLine>, c: char)
    requires SingleByte(lines) && IsAscii(c) && CursorEditable(ed, lines)
    requires ed.line < |lines| && !FirstIsText(lines[ed.line]) && ed.col == 0 && AllSimple(lines)
    requires SingleByte(InsertChar(ed, lines, c).lines)
    ensures var r1 := InsertChar(ed, lines, c);
            && BackspaceSafe(r1.ed, r1.lines)
            && var r2 := HandleBackspace(r1.ed, r1.lines);
            && r2.modified && r2.ed == ClearSelection(ed)
            && |r2.lines| == |lines|
            && (forall i :: 0 <= i < |lines| && i != ed.line ==> r2.lines[i] == lines[i])
            && TextContent(r2.lines[ed.line]) == TextContent(lines[ed.line])
  {
    var k := ed.line;
    var l := lines[k];
    var r1 := InsertChar(ed, lines, c);
    var r2 := HandleBackspace(r1.ed, r1.lines);
    assert r2.lines[k] == DocumentLine([Text([])] + l.elements);
    SimpleTextContent(r2.lines[k]);
    SimpleTextContent(l);
  }

  /** Backspace at the start of the line Enter just opened joins the two halves again. */
  lemma EnterThenBackspace(ed: Editor, lines: seq<DocumentLine>)
    requires Inv(ed, lines)
    ensures CursorEditable(ed, lines)
    ensures Inv(HandleEnter(ed, lines).ed, HandleEnter(ed, lines).lines)
    ensures var r1 := HandleEnter(ed, lines);
            HandleBackspace(r1.ed, r1.lines) == Outcome(ed, lines, true)
  {
    HandleEnterKeepsInv(ed, lines);
    InvEnablesEdits(ed, lines);
    if FirstIsText(lines[ed.line]) {
      SplitThenJoin(ed, lines);
    } else {
      OpenThenClose(ed, lines);
    }
  }

  lemma SplitThenJoin(ed: Editor, lines: seq<DocumentLine>)
    requires SingleByte(lines) && CursorEditable(ed, lines)
    requires ed.line < |lines| && FirstIsText(lines[ed.line])
    requires SingleByte(HandleEnter(ed, lines).lines)
    ensures var r1 := HandleEnter(ed, lines);
            HandleBackspace(r1.ed, r1.lines) == Outcome(ed, lines, true)
  {
    var k := ed.line;
    var r1 := HandleEnter(ed, lines);
    var r2 := HandleBackspace(r1.ed, r1.lines);
    LineFromFirst(lines[k], r2.lines[k]);
    SeqFromParts(r2.lines, lines, k);
  }

  /** Two lines starting with the same text and ending with the same elements are equal. */
  lemma LineFromFirst(l: DocumentLine, m: DocumentLine)
    requires FirstIsText(l) && FirstIsText(m) && FirstText(m) == FirstText(l)
    requires m.elements[1..] == l.elements[1..]
    ensures m == l
  {
    assert m.elements == [m.elements[0]] + m.elements[1..];
    assert l.elements == [l.elements[0]] + l.elements[1..];
  }

  /** Sequences agreeing before, at and after position `k` are equal. */
  lemma SeqFromParts<T>(x: seq<T>, y: seq<T>, k: nat)
    requires |x| == |y| && k < |x|
    requires x[..k] == y[..k] && x[k] == y[k] && x[k + 1..] == y[k + 1..]
    ensures x == y
  {
    assert x == x[..k] + [x[k]] + x[k + 1..];
    assert y == y[..k] + [y[k]] + y[k + 1..];
  }

  lemma OpenThenClose(ed: Editor, lines: seq<DocumentLine>)
    requires SingleByte(lines) && CursorEditable(ed, lines)
    requires ed.line < |lines| && !FirstIsText(lines[ed.line])
    requires SingleByte(HandleEnter(ed, lines).lines) && ed.col == 0
    ensures var r1 := HandleEnter(ed, lines);
            HandleBackspace(r1.ed, r1.lines) == Outcome(ed, lines, true)
  {
    var k := ed.line;
    var r1 := HandleEnter(ed, lines);
    assert r1.lines == lines[..k + 1] + [NewLine()] + lines[k + 1..];
    assert r1.lines[..k + 1] + r1.lines[k + 2..] == lines;
  }

  /** Inside a line, the forward delete removes what Backspace removes one column further right. */
  lemma DeleteIsBackspaceAfterRight(ed: Editor, lines: seq<DocumentLine>)
    requires Inv(ed, lines) && ed.col < LineLen(lines, ed.line)
    ensures BackspaceSafe(MoveRight(ed, lines), lines)
    ensures DeleteForward(ed, lines).lines == HandleBackspace(MoveRight(ed, lines), lines).lines
    ensures HandleBackspace(MoveRight(ed, lines), lines).ed == DeleteForward(ed, lines).ed
  {
    InvEnablesEdits(ed, lines);
  }

  /** Typing "X" into "abc" at column 2 gives "abXc" with the cursor at column 3. */
  lemma InsertCharExample()
    ensures InsertChar(Editor(0, 2, None, None), [DocumentLine([Text("abc")])], 'X')
         == Outcome(Editor(0, 3, None, None), [DocumentLine([Text("abXc")])], true)
  {
    var r := InsertChar(Editor(0, 2, None, None), [DocumentLine([Text("abc")])], 'X');
    assert "abc"[..2] + "X" + "abc"[2..] == "abXc";
    assert r.lines[0].elements == [Text("abXc")];
  }

  /** Backspace at the start of "def" under "abc" joins them into "abcdef", cursor at (0, 3). */
  lemma BackspaceJoinExample()
    ensures HandleBackspace(Editor(1, 0, None, None), [DocumentLine([Text("abc")]), DocumentLine([Text("def")])])
         == Outcome(Editor(0, 3, None, None), [DocumentLine([Text("abcdef")])], true)
  {
    var lines := [DocumentLine([Text("abc")]), DocumentLine([Text("def")])];
    var r := HandleBackspace(Editor(1, 0, None, None), lines);
    assert lines[..1] + lines[2..] == [lines[0]];
    assert "abc" + "def" == "abcdef";
    assert lines[0].elements[1..] == [];
    assert WithFirstText(lines[0], "abcdef") == DocumentLine([Text("abcdef")]);
    assert r.lines == [lines[0]][0 := WithFirstText(lines[0], "abcdef")];
  }

  /** Delete at the end of "ab" above "cd" joins them into "abcd", the cursor staying put. */
  lemma DeleteJoinExample()
    ensures DeleteForward(Editor(0, 2, None, None), [DocumentLine([Text("ab")]), DocumentLine([Text("cd")])])
         == Outcome(Editor(0, 2, None, None), [DocumentLine([Text("abcd")])], true)
  {
    var lines := [DocumentLine([Text("ab")]), DocumentLine([Text("cd")])];
    var r := DeleteForward(Editor(0, 2, None, None), lines);
    assert lines[..1] + lines[2..] == [lines[0]];
    assert "ab" + "cd" == "abcd";
    assert lines[0].elements[1..] == [];
    assert WithFirstText(lines[0], "abcd") == DocumentLine([Text("abcd")]);
    assert r.lines == [lines[0]][0 := WithFirstText(lines[0], "abcd")];
  }
}
