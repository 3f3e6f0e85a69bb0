/**
 * The per-line selection span the structured editor's renderer computes
 * before drawing a text run (src/editor/renderer.rs), and the test that
 * decides whether a character is drawn highlighted.
 */
module Renderer {
  import opened Wrappers
  import opened Document
  import opened CoreState
  import opened CoreSelection

  /** Half-open column range `[start, end)` of a line that lies in the selection. */
  datatype ColSpan = ColSpan(start: nat, end: nat)

  /**
   * The span of line `i`, whose text is `len` characters long: None when
   * no selection is active or the line lies outside it; otherwise from
   * the start column (on the first line) or 0, to the end column (on the
   * last line) or the line's end.
   */
  function LineSpan(ed: Editor, i: nat, len: nat): (r: Option<ColSpan>)
    ensures !HasSelection(ed) ==> r.None?
    ensures HasSelection(ed) ==> (r.Some? <==> Span(ed).0.line <= i <= Span(ed).1.line)
  {
    if !HasSelection(ed) then None
    else
      var (s, e) := Span(ed);
      if s.line <= i <= e.line then
        Some(ColSpan(if i == s.line then s.col else 0, if i == e.line then e.col else len))
      else None
  }

  /** The character at column `k` of line `i` is drawn highlighted. */
  predicate Highlighted(ed: Editor, i: nat, len: nat, k: nat) {
    && k < len
    && var sp := LineSpan(ed, i, len);
    && sp.Some? && sp.value.start <= k < sp.value.end
  }

  /** `a` is `b` or comes before it in reading order. */
  predicate AtOrBefore(a: Pos, b: Pos) {
    a == b || Before(a, b)
  }

  /** Lines strictly inside the selection are highlighted from end to end. */
  lemma InteriorLineSpan(ed: Editor, i: nat, len: nat)
    requires HasSelection(ed) && Span(ed).0.line < i < Span(ed).1.line
    ensures LineSpan(ed, i, len) == Some(ColSpan(0, len))
  {
  }

  /** A selection on one line spans exactly its two columns. */
  lemma SingleLineSpan(ed: Editor, len: nat)
    requires HasSelection(ed) && Span(ed).0.line == Span(ed).1.line
    ensures LineSpan(ed, Span(ed).0.line, len) == Some(ColSpan(Span(ed).0.col, Span(ed).1.col))
  {
  }

  /** The span does not depend on which anchor was set first. */
  lemma LineSpanSymmetric(ed: Editor, i: nat, len: nat)
    ensures LineSpan(ed.(selStart := ed.selEnd, selEnd := ed.selStart), i, len) == LineSpan(ed, i, len)
  {
    if HasSelection(ed) {
      OrderedSymmetric(ed.selStart.value, ed.selEnd.value);
    }
  }

  /**
   * A character is highlighted exactly when its position lies in the
   * half-open reading-order range from the first anchor to the second.
   */
  lemma HighlightedIff(ed: Editor, i: nat, len: nat, k: nat)
    ensures Highlighted(ed, i, len, k) <==>
      k < len && HasSelection(ed) && AtOrBefore(Span(ed).0, Pos(i, k)) && Before(Pos(i, k), Span(ed).1)
  {
  }

  /**
   * On a one-line selection the deletion removes precisely the characters
   * the renderer highlights, and keeps every other one in order.
   */
  lemma DeletionRemovesHighlighted(ed: Editor, lines: seq<DocumentLine>)
    requires WellFormed(lines) && AnchorsValid(ed, lines) && HasSelection(ed)
    requires Span(ed).0.line == Span(ed).1.line
    ensures var i := Span(ed).0.line;
            var t := TextContent(lines[i]);
            && DeleteSelectionSafe(ed, lines)
            && (forall k :: 0 <= k < |t| ==> (Highlighted(ed, i, |t|, k) <==> Span(ed).0.col <= k < Span(ed).1.col))
            && TextContent(DeleteSelection(ed, lines).lines[i]) == t[..Span(ed).0.col] + t[Span(ed).1.col..]
  {
    var (s, e) := Span(ed);
    AnchorsValidSafe(ed, lines);
    DeleteSelectionKeepsInv(ed, lines);
    SimpleTextContent(lines[s.line]);
    if FirstIsText(lines[s.line]) {
      DeleteSelectionSingleLine(ed, lines);
      SimpleTextContent(DeleteSelection(ed, lines).lines[s.line]);
    } else {
      assert false;
    }
  }
}
