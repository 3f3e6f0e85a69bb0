/**
 * Inserting a pasted image into the structured document
 * (`process_image_bytes` in src/image/handler.rs). The image decoder, the
 * id generator and the base64 encoder are outside the model: their answers
 * are parameters.
 */
module ImageHandler {
  import opened Wrappers
  import opened Document
  import opened Metadata
  import opened CoreState
  import opened Status

  /** The state the function updates through its `&mut` arguments. */
  datatype Session = Session(
    lines: seq<DocumentLine>,
    cursorLine: nat,
    cursorCol: nat,
    imageData: ImageData,
    images: map<string, ImageMetadata>)

  datatype Dimensions = Dimensions(width: u32, height: u32)

  datatype ImageError = DecodeFailed

  datatype Processed = Processed(session: Session, result: Result<(), ImageError>)

  /**
   * `process_image_bytes`: `decoded` is what the decoder made of `bytes`
   * (None when it failed), `id` the fresh id, `encoded` the base64 text of
   * `bytes`. On success the image goes on a new line after the cursor
   * line, followed by a fresh empty line that receives the cursor. A
   * failed decode returns before anything is changed. The insertion
   * position must exist (`Vec::insert` panics past the end).
   */
  function ProcessImageBytes(bytes: seq<byte>, s: Session, decoded: Option<Dimensions>, id: string, encoded: string): (r: Processed)
    requires decoded.Some? ==> s.cursorLine < |s.lines|
    ensures decoded.None? ==> r.session == s && r.result == Failure(DecodeFailed)
    ensures decoded.Some? ==>
      var c := s.cursorLine;
      var d := decoded.value;
      && r.result.Success?
      && |r.session.lines| == |s.lines| + 2
      && r.session.lines[..c + 1] == s.lines[..c + 1]
      && r.session.lines[c + 1] == DocumentLine([Image(id, d.width, d.height)])
      && r.session.lines[c + 2] == NewLine()
      && r.session.lines[c + 3..] == s.lines[c + 1..]
      && r.session.cursorLine == c + 2 && r.session.cursorCol == 0
      && r.session.imageData == s.imageData[id := bytes]
      && r.session.images == s.images[id := ImageMetadata(id, encoded, d.width, d.height)]
  {
    match decoded
    case None => Processed(s, Failure(DecodeFailed))
    case Some(d) =>
      var c := s.cursorLine;
      var imageLine := DocumentLine([Image(id, d.width, d.height)]);
      var lines' := s.lines[..c + 1] + [imageLine, NewLine()] + s.lines[c + 1..];
      Processed(
        Session(lines', c + 2, 0, s.imageData[id := bytes], s.images[id := ImageMetadata(id, encoded, d.width, d.height)]),
        Success(()))
  }

  /**
   * Pasting an image keeps the structured editor's invariant, with the
   * cursor on the fresh line below the image; the status bar then shows
   * two more lines and one more character.
   */
  lemma ProcessImageKeepsInv(bytes: seq<byte>, s: Session, d: Dimensions, id: string, encoded: string, ed: Editor)
    requires Inv(ed, s.lines) && ed.line == s.cursorLine
    ensures var r := ProcessImageBytes(bytes, s, Some(d), id, encoded);
            && Inv(ed.(line := r.session.cursorLine, col := r.session.cursorCol), r.session.lines)
            && GetStats(r.session.lines) == (|s.lines| + 2, GetStats(s.lines).1 + 1)
  {
    var c := s.cursorLine;
    var imageLine := DocumentLine([Image(id, d.width, d.height)]);
    var r := ProcessImageBytes(bytes, s, Some(d), id, encoded);
    assert r.session.lines == s.lines[..c + 1] + [imageLine, NewLine()] + s.lines[c + 1..];
    assert s.lines[..c + 1] + s.lines[c + 1..] == s.lines;
    WellFormedSlice(s.lines, c + 1, c + 1);
    ImageLinesOk(s.lines[..c + 1], imageLine, s.lines[c + 1..]);
    NewLineIsEmpty();
    ImageLineStats(id, d.width, d.height);
    ImageLinesStats(s.lines[..c + 1], imageLine, s.lines[c + 1..]);
  }

  /** An image line and an empty line between two well-formed runs of lines keep the document well-formed. */
  lemma ImageLinesOk(a: seq<DocumentLine>, imageLine: DocumentLine, b: seq<DocumentLine>)
    requires WellFormed(a) && WellFormed(b) && |imageLine.elements| == 1 && imageLine.elements[0].Image?
    ensures WellFormed(a + [imageLine, NewLine()] + b)
  {
    var mid := [imageLine, NewLine()];
    TextLineOk([]);
    assert LineOk(imageLine);
    assert WellFormed(mid);
    WellFormedAppend(a, mid);
    WellFormedAppend(a + mid, b);
  }

  /** An image line and an empty line add two lines and one character to the statistics. */
  lemma ImageLinesStats(a: seq<DocumentLine>, imageLine: DocumentLine, b: seq<DocumentLine>)
    requires GetStats([imageLine]) == (1, 1)
    ensures GetStats(a + [imageLine, NewLine()] + b) == (|a| + |b| + 2, GetStats(a + b).1 + 1)
  {
    var mid := [imageLine, NewLine()];
    assert mid == [imageLine] + [NewLine()];
    StatsAppend(a + mid, b);
    StatsAppend(a, mid);
    StatsAppend([imageLine], [NewLine()]);
    NewLineStats();
    StatsAppend(a, b);
  }
}
