/**
 * The structured document of the line/element editor: a document is a
 * sequence of lines, a line a sequence of elements, an element either a run
 * of text or a reference to an embedded image (src/models/document.rs).
 */
module Document {

  /** Rust's `u32`. */
  type u32 = x: nat | x < 0x1_0000_0000

  datatype LineElement =
    | Text(text: string)
    | Image(id: string, width: u32, height: u32)

  datatype DocumentLine = DocumentLine(elements: seq<LineElement>)

  /** `DocumentLine::new`. */
  function NewLine(): DocumentLine {
    DocumentLine([Text("")])
  }

  /** The text of the elements `els`, images contributing nothing. */
  function TextOf(els: seq<LineElement>): string {
    if els == [] then []
    else
      var head := match els[0] case Text(t) => t case Image(_, _, _) => [];
      head + TextOf(els[1..])
  }

  /** `DocumentLine::text_content`. */
  function TextContent(l: DocumentLine): string {
    TextOf(l.elements)
  }

  /** `DocumentLine::is_empty`. */
  predicate IsEmpty(l: DocumentLine) {
    forall i :: 0 <= i < |l.elements| ==> l.elements[i].Text? && l.elements[i].text == []
  }

  /** Number of `Image` elements in `els`. */
  function ImagesOf(els: seq<LineElement>): nat {
    if els == [] then 0 else (if els[0].Image? then 1 else 0) + ImagesOf(els[1..])
  }

  /** A fresh line is one empty text element: empty, with empty text. */
  lemma NewLineIsEmpty()
    ensures |NewLine().elements| == 1 && NewLine().elements[0] == Text([])
    ensures IsEmpty(NewLine())
    ensures TextContent(NewLine()) == []
    ensures ImagesOf(NewLine().elements) == 0
  {
  }

  /**
   * `TextOf` is the in-order concatenation of the text runs: it maps
   * concatenation of element lists to concatenation of strings, a text
   * element to its text, and an image element to nothing.
   */
  lemma {:induction false} TextOfAppend(a: seq<LineElement>, b: seq<LineElement>)
    ensures TextOf(a + b) == TextOf(a) + TextOf(b)
    ensures ImagesOf(a + b) == ImagesOf(a) + ImagesOf(b)
  {
    if a == [] {
      assert a + b == b;
    } else {
      assert (a + b)[1..] == a[1..] + b;
      TextOfAppend(a[1..], b);
    }
  }

  lemma TextOfSingle(e: LineElement)
    ensures e.Text? ==> TextOf([e]) == e.text
    ensures e.Image? ==> TextOf([e]) == [] && ImagesOf([e]) == 1
  {
    assert [e][1..] == [];
  }

  /** A line made of images only has no text. */
  lemma {:induction false} ImageOnlyHasNoText(els: seq<LineElement>)
    requires forall i :: 0 <= i < |els| ==> els[i].Image?
    ensures TextOf(els) == []
    ensures ImagesOf(els) == |els|
  {
    if els != [] {
      ImageOnlyHasNoText(els[1..]);
    }
  }

  /**
   * A line is empty exactly when it has no image and no text; in
   * particular an empty line has empty text, and an image makes a line
   * non-empty.
   */
  lemma {:induction false} IsEmptyIff(l: DocumentLine)
    ensures IsEmpty(l) <==> TextContent(l) == [] && ImagesOf(l.elements) == 0
  {
    EmptyElements(l.elements);
  }

  lemma {:induction false} EmptyElements(els: seq<LineElement>)
    ensures (forall i :: 0 <= i < |els| ==> els[i].Text? && els[i].text == [])
        <==> TextOf(els) == [] && ImagesOf(els) == 0
  {
    if els != [] {
      EmptyElements(els[1..]);
      var head := match els[0] case Text(t) => t case Image(_, _, _) => [];
      assert TextOf(els) == head + TextOf(els[1..]);
      if forall i :: 0 <= i < |els| ==> els[i].Text? && els[i].text == [] {
        assert forall i :: 0 <= i < |els[1..]| ==> els[1..][i] == els[i + 1];
      }
      if TextOf(els) == [] && ImagesOf(els) == 0 {
        assert |head| == 0;
        forall i | 0 <= i < |els| ensures els[i].Text? && els[i].text == [] {
          if i > 0 {
            assert els[i] == els[1..][i - 1];
          }
        }
      }
    }
  }

  /** The line's first element is a text run (the element the editor edits). */
  predicate FirstIsText(l: DocumentLine) {
    |l.elements| > 0 && l.elements[0].Text?
  }

  /** The first element's text, or "" when the line does not start with text. */
  function FirstText(l: DocumentLine): string {
    if FirstIsText(l) then l.elements[0].text else []
  }

  /** The line with its first (text) element replaced by `t`. */
  function WithFirstText(l: DocumentLine, t: string): (r: DocumentLine)
    requires FirstIsText(l)
    ensures FirstIsText(r) && FirstText(r) == t
    ensures |r.elements| == |l.elements| && r.elements[1..] == l.elements[1..]
  {
    DocumentLine([Text(t)] + l.elements[1..])
  }

  /**
   * Every element after the first is an image. Every line the editor
   * builds has this shape; on such a line the first element carries the
   * whole text.
   */
  predicate Simple(l: DocumentLine) {
    forall i :: 1 <= i < |l.elements| ==> l.elements[i].Image?
  }

  lemma SimpleTextContent(l: DocumentLine)
    requires Simple(l)
    ensures TextContent(l) == FirstText(l)
  {
    var els := l.elements;
    if els != [] {
      ImageOnlyHasNoText(els[1..]);
      assert TextOf(els) == (match els[0] case Text(t) => t case Image(_, _, _) => []) + TextOf(els[1..]);
    }
  }
}
