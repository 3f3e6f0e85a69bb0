/**
 * State of the structured editor engine (`EditorCore` in
 * src/editor/core.rs): a cursor, two optional selection anchors, and the
 * selection bookkeeping shared by every edit. The scroll offset and the
 * blink timer are display state and are not part of the model.
 */
module CoreState {
  import opened Wrappers
  import opened Chars
  import opened Document

  /** A (line, column) position; columns count characters. */
  datatype Pos = Pos(line: nat, col: nat)

  datatype Editor = Editor(line: nat, col: nat, selStart: Option<Pos>, selEnd: Option<Pos>)

  /** The editor and the document after one step, and whether the step reported a change. */
  datatype Outcome = Outcome(ed: Editor, lines: seq<DocumentLine>, modified: bool)

  function Cursor(ed: Editor): Pos {
    Pos(ed.line, ed.col)
  }

  /** `EditorCore::default`: cursor at the origin, no selection. */
  function Initial(): Editor {
    Editor(0, 0, None, None)
  }

  /** Every text run of the line is single-byte text. */
  predicate AsciiLine(l: DocumentLine) {
    forall j :: 0 <= j < |l.elements| && l.elements[j].Text? ==> Ascii(l.elements[j].text)
  }

  /**
   * The engine indexes `String`s by byte but counts columns in the same
   * units as `text_content().len()`; the two agree when every character is
   * a single byte, which is the domain this model covers.
   */
  predicate SingleByte(lines: seq<DocumentLine>) {
    forall i :: 0 <= i < |lines| ==> AsciiLine(lines[i])
  }

  /** Every line has the shape the engine builds: text first, images after. */
  predicate AllSimple(lines: seq<DocumentLine>) {
    forall i :: 0 <= i < |lines| ==> Simple(lines[i])
  }

  predicate WellFormed(lines: seq<DocumentLine>) {
    forall i :: 0 <= i < |lines| ==> LineOk(lines[i])
  }

  /** `p` addresses an existing line and a column within its text. */
  predicate ValidPos(lines: seq<DocumentLine>, p: Pos) {
    p.line < |lines| && p.col <= |TextContent(lines[p.line])|
  }

  /** The engine's invariant: a well-formed document and a valid cursor. */
  predicate Inv(ed: Editor, lines: seq<DocumentLine>) {
    WellFormed(lines) && ValidPos(lines, Cursor(ed))
  }

  /** Every anchor that is set addresses a valid position. */
  predicate AnchorsValid(ed: Editor, lines: seq<DocumentLine>) {
    (ed.selStart.Some? ==> ValidPos(lines, ed.selStart.value))
    && (ed.selEnd.Some? ==> ValidPos(lines, ed.selEnd.value))
  }

  /** A line of the engine's shape (text first, images after) holding single-byte text. */
  predicate LineOk(l: DocumentLine) {
    Simple(l) && AsciiLine(l)
  }

  lemma WellFormedAppend(a: seq<DocumentLine>, b: seq<DocumentLine>)
    requires WellFormed(a) && WellFormed(b)
    ensures WellFormed(a + b)
  {
    forall i | 0 <= i < |a + b| ensures LineOk((a + b)[i]) {
      if i >= |a| {
        assert (a + b)[i] == b[i - |a|];
      }
    }
  }

  lemma WellFormedSlice(lines: seq<DocumentLine>, i: nat, j: nat)
    requires WellFormed(lines) && i <= j <= |lines|
    ensures WellFormed(lines[i..j]) && WellFormed(lines[..i]) && WellFormed(lines[j..])
  {
    forall k | 0 <= k < j - i ensures LineOk(lines[i..j][k]) {
      assert lines[i..j][k] == lines[i + k];
    }
    forall k | 0 <= k < |lines| - j ensures LineOk(lines[j..][k]) {
      assert lines[j..][k] == lines[j + k];
    }
  }

  /** Replacing one line of a well-formed document by a well-formed line. */
  lemma WellFormedUpdate(lines: seq<DocumentLine>, k: nat, l: DocumentLine)
    requires WellFormed(lines) && k < |lines| && LineOk(l)
    ensures WellFormed(lines[k := l])
  {
  }

  /** A new text for the first element keeps a well-formed line well formed. */
  lemma ReplaceFirstText(l: DocumentLine, t: string)
    requires LineOk(l) && FirstIsText(l) && Ascii(t)
    ensures LineOk(WithFirstText(l, t)) && TextContent(WithFirstText(l, t)) == t
  {
    var l' := WithFirstText(l, t);
    forall j | 1 <= j < |l'.elements| ensures l'.elements[j] == l.elements[j] {
      assert l'.elements[j] == l'.elements[1..][j - 1];
    }
    SimpleTextContent(l');
  }

  /** A line holding a single single-byte text run. */
  lemma TextLineOk(t: string)
    requires Ascii(t)
    ensures LineOk(DocumentLine([Text(t)])) && TextContent(DocumentLine([Text(t)])) == t
  {
    TextOfSingle(Text(t));
  }

  /** The text the engine edits on a line is a single-byte string. */
  lemma FirstTextAscii(lines: seq<DocumentLine>, i: nat)
    requires SingleByte(lines) && i < |lines|
    ensures Ascii(FirstText(lines[i]))
  {
    if FirstIsText(lines[i]) {
      assert lines[i].elements[0].Text?;
    }
  }

  /** `clear_selection`. */
  function ClearSelection(ed: Editor): (r: Editor)
    ensures r.selStart.None? && r.selEnd.None? && !HasSelection(r)
    ensures Cursor(r) == Cursor(ed)
  {
    ed.(selStart := None, selEnd := None)
  }

  /** `start_selection`: both anchors at the cursor. */
  function StartSelection(ed: Editor): (r: Editor)
    ensures !HasSelection(r)
    ensures r.selStart == Some(Cursor(ed)) && r.selEnd == Some(Cursor(ed)) && Cursor(r) == Cursor(ed)
  {
    ed.(selStart := Some(Cursor(ed)), selEnd := Some(Cursor(ed)))
  }

  /** `update_selection`: the end anchor follows the cursor once a selection has started. */
  function UpdateSelection(ed: Editor): (r: Editor)
    ensures ed.selStart.None? ==> r == ed
    ensures ed.selStart.Some? ==> r.selEnd == Some(Cursor(ed)) && r.selStart == ed.selStart
    ensures Cursor(r) == Cursor(ed)
  {
    if ed.selStart.Some? then ed.(selEnd := Some(Cursor(ed))) else ed
  }

  /** `has_selection`: both anchors set and different. */
  predicate HasSelection(ed: Editor) {
    ed.selStart.Some? && ed.selEnd.Some? && ed.selStart != ed.selEnd
  }

  /** Position `a` comes strictly before `b` in reading order. */
  predicate Before(a: Pos, b: Pos) {
    a.line < b.line || (a.line == b.line && a.col < b.col)
  }

  /** The two anchors in reading order, as both the deletion and the renderer order them. */
  function Ordered(a: Pos, b: Pos): (r: (Pos, Pos))
    ensures {r.0, r.1} == {a, b}
    ensures a != b ==> Before(r.0, r.1)
  {
    if Before(a, b) then (a, b) else (b, a)
  }

  /** Ordering does not depend on which anchor came first. */
  lemma OrderedSymmetric(a: Pos, b: Pos)
    requires a != b
    ensures Ordered(a, b) == Ordered(b, a)
  {
  }

  /** The active selection's anchors in reading order. */
  function Span(ed: Editor): (Pos, Pos)
    requires HasSelection(ed)
  {
    Ordered(ed.selStart.value, ed.selEnd.value)
  }
}
