/**
 * The status bar's statistics (`StatusBar::get_stats` in
 * src/ui/status.rs): the number of lines, and a character count in which
 * every image counts as one character.
 */
module Status {
  import opened Document

  /** Sum over the lines of the characters of `text_content`. */
  function TextChars(lines: seq<DocumentLine>): nat {
    if lines == [] then 0 else |TextContent(lines[0])| + TextChars(lines[1..])
  }

  /** Sum over the lines of the number of image elements. */
  function ImageCount(lines: seq<DocumentLine>): nat {
    if lines == [] then 0 else ImagesOf(lines[0].elements) + ImageCount(lines[1..])
  }

  /** `get_stats`: (line count, character count). */
  function GetStats(lines: seq<DocumentLine>): (r: (nat, nat))
    ensures r.0 == |lines|
    ensures lines == [] ==> r == (0, 0)
  {
    (|lines|, TextChars(lines) + ImageCount(lines))
  }

  /** Both statistics add up over a concatenation of documents. */
  lemma {:induction false} StatsAppend(a: seq<DocumentLine>, b: seq<DocumentLine>)
    ensures GetStats(a + b).0 == GetStats(a).0 + GetStats(b).0
    ensures GetStats(a + b).1 == GetStats(a).1 + GetStats(b).1
  {
    SumsAppend(a, b);
  }

  lemma {:induction false} SumsAppend(a: seq<DocumentLine>, b: seq<DocumentLine>)
    ensures TextChars(a + b) == TextChars(a) + TextChars(b)
    ensures ImageCount(a + b) == ImageCount(a) + ImageCount(b)
  {
    if a == [] {
      assert a + b == b;
    } else {
      assert (a + b)[0] == a[0];
      assert (a + b)[1..] == a[1..] + b;
      SumsAppend(a[1..], b);
    }
  }

  /** A one-line document counts its line's characters and images. */
  lemma SingleLineStats(l: DocumentLine)
    ensures GetStats([l]) == (1, |TextContent(l)| + ImagesOf(l.elements))
  {
    assert [l][1..] == [];
    assert TextChars([l]) == |TextContent(l)| + TextChars([]);
    assert ImageCount([l]) == ImagesOf(l.elements) + ImageCount([]);
  }

  /** A fresh document line counts as one line without characters. */
  lemma NewLineStats()
    ensures GetStats([NewLine()]) == (1, 0)
  {
    NewLineIsEmpty();
    SingleLineStats(NewLine());
  }

  /** A line holding one image counts as one line of one character. */
  lemma ImageLineStats(id: string, w: u32, h: u32)
    ensures GetStats([DocumentLine([Image(id, w, h)])]) == (1, 1)
  {
    TextOfSingle(Image(id, w, h));
    SingleLineStats(DocumentLine([Image(id, w, h)]));
  }

  /**
   * Replacing line `k` changes the character count by the difference of
   * the two lines' counts, and leaves the line count alone.
   */
  lemma StatsUpdate(lines: seq<DocumentLine>, k: nat, l: DocumentLine)
    requires k < |lines|
    ensures GetStats(lines[k := l]).0 == |lines|
    ensures GetStats(lines[k := l]).1 + |TextContent(lines[k])| + ImagesOf(lines[k].elements)
         == GetStats(lines).1 + |TextContent(l)| + ImagesOf(l.elements)
  {
    assert lines == lines[..k] + [lines[k]] + lines[k + 1..];
    assert lines[k := l] == lines[..k] + [l] + lines[k + 1..];
    SumsAppend(lines[..k] + [lines[k]], lines[k + 1..]);
    SumsAppend(lines[..k], [lines[k]]);
    SumsAppend(lines[..k] + [l], lines[k + 1..]);
    SumsAppend(lines[..k], [l]);
  }
}
