/**
 * Cursor-to-byte-offset conversion and the edits at that offset in the
 * flat-string editor (src/components/text_editor/text_ops.rs; the editor
 * repeats the same computation in src/components/text_editor/editor.rs).
 */
module TextOps {
  import opened Wrappers
  import opened Chars
  import opened Strings
  import opened RustLines
  import opened FlatCursor

  /**
   * The byte offset of a cursor: every line before the cursor's with its
   * line feed, then the bytes of the first `column` characters of the
   * cursor's line. When `lines()` has no such line, all lines with a line
   * feed each, which is one byte past the end of an unterminated text.
   */
  function BytePosition(text: string, c: Cursor): nat {
    var ls := Lines(text);
    if c.line < |ls| then LinesBytes(ls[..c.line]) + ByteLen(ls[c.line][..Min(c.column, |ls[c.line]|)])
    else LinesBytes(ls)
  }

  /** The same position counted in characters. */
  function CharOffset(text: string, c: Cursor): nat {
    var ls := Lines(text);
    if c.line < |ls| then LinesChars(ls[..c.line]) + Min(c.column, |ls[c.line]|)
    else LinesChars(ls)
  }

  /**
   * `get_byte_position` (and `get_cursor_byte_position`): walk the lines,
   * adding each line's byte length and one for its line feed, until the
   * cursor's line, then add the bytes of the characters before the column.
   */
  method GetBytePosition(text: string, c: Cursor) returns (pos: nat)
    ensures pos == BytePosition(text, c)
  {
    var lines := Lines(text);
    pos := 0;
    var i := 0;
    while i < |lines|
      invariant i <= |lines| && i <= c.line
      invariant pos == LinesBytes(lines[..i])
    {
      if i == c.line {
        var taken := TakeBytes(lines[i], c.column);
        pos := pos + taken;
        return;
      }
      LinesSumsAppend(lines[..i], [lines[i]]);
      assert lines[..i + 1] == lines[..i] + [lines[i]];
      pos := pos + ByteLen(lines[i]) + 1;
      i := i + 1;
    }
    assert lines[..i] == lines;
  }

  /** `line.chars().take(n).map(char::len_utf8).sum()`. */
  method TakeBytes(line: string, n: nat) returns (sum: nat)
    ensures sum == ByteLen(line[..Min(n, |line|)])
  {
    sum := 0;
    var j := 0;
    while j < |line| && j < n
      invariant j <= |line| && j <= n
      invariant sum == ByteLen(line[..j])
    {
      assert line[..j + 1] == line[..j] + [line[j]];
      ByteLenAppend(line[..j], [line[j]]);
      assert ByteLen([line[j]]) == Utf8Len(line[j]);
      sum := sum + Utf8Len(line[j]);
      j := j + 1;
    }
  }

  /**
   * For a cursor on a reachable line of a text without carriage returns,
   * the byte offset is a character boundary: the one at `CharOffset`.
   */
  lemma CursorBoundary(text: string, c: Cursor)
    requires NoCR(text) && c.line <= MaxLineIndex(text)
    ensures CharOffset(text, c) <= |text|
    ensures CharIndexAt(text, BytePosition(text, c)) == Some(CharOffset(text, c))
  {
    if HasLine(text, c.line) {
      LineBoundary(text, c);
    } else {
      PhantomBoundary(text, c);
    }
  }

  lemma LineBoundary(text: string, c: Cursor)
    requires NoCR(text) && HasLine(text, c.line)
    ensures CharOffset(text, c) <= |text|
    ensures CharIndexAt(text, BytePosition(text, c)) == Some(CharOffset(text, c))
  {
    var k := CursorPrefix(text, c);
    CharIndexAtBoundary(text, k);
  }

  /** The character offset of a cursor on a line `lines()` yields, whose prefix takes the cursor's byte offset. */
  lemma CursorPrefix(text: string, c: Cursor) returns (k: nat)
    requires NoCR(text) && HasLine(text, c.line)
    ensures k == CharOffset(text, c) && k <= |text|
    ensures ByteLen(text[..k]) == BytePosition(text, c)
  {
    var p, m, s := Decompose(text, c.line);
    SplitOffsets(text, c, p, m);
    var j := Min(c.column, |m|);
    k := |p| + j;
    assert text[..k] == p + m[..j];
    ByteLenAppend(p, m[..j]);
  }

  /** The offsets of a cursor, read off the split of the text around its line. */
  lemma SplitOffsets(text: string, c: Cursor, p: string, m: string)
    requires HasLine(text, c.line) && Terminated(p) && NoCR(p)
    requires Lines(p) == Lines(text)[..c.line] && m == Lines(text)[c.line]
    ensures BytePosition(text, c) == ByteLen(p) + ByteLen(m[..Min(c.column, |m|)])
    ensures CharOffset(text, c) == |p| + Min(c.column, |m|)
  {
    TerminatedSums(p);
  }

  /** On the phantom line the offset is the end of the text. */
  lemma PhantomBoundary(text: string, c: Cursor)
    requires NoCR(text) && c.line <= MaxLineIndex(text) && !HasLine(text, c.line)
    ensures CharOffset(text, c) == |text|
    ensures CharIndexAt(text, BytePosition(text, c)) == Some(|text|)
  {
    assert Terminated(text);
    TerminatedSums(text);
    assert text[..|text|] == text;
    CharIndexAtBoundary(text, |text|);
  }

  lemma BoundaryWhenReachable(text: string, c: Cursor)
    ensures NoCR(text) && c.line <= MaxLineIndex(text) ==>
      CharOffset(text, c) <= |text| && CharIndexAt(text, BytePosition(text, c)) == Some(CharOffset(text, c))
  {
    if NoCR(text) && c.line <= MaxLineIndex(text) {
      CursorBoundary(text, c);
    }
  }

  /** `insert_str` at the offset does not panic: it is a character boundary within the text. */
  predicate Insertable(text: string, c: Cursor) {
    CharIndexAt(text, BytePosition(text, c)).Some?
  }

  /**
   * `insert_text_at_position`. On a text without carriage returns and a
   * reachable cursor line, the text goes in at the cursor's character
   * offset.
   */
  function InsertText(text: string, c: Cursor, added: string): (r: string)
    requires Insertable(text, c)
    ensures |r| == |text| + |added| && ByteLen(r) == ByteLen(text) + ByteLen(added)
    ensures NewlineCount(r) == NewlineCount(text) + NewlineCount(added)
    ensures NoCR(text) && c.line <= MaxLineIndex(text) ==>
      CharOffset(text, c) <= |text| && r == InsertAt(text, CharOffset(text, c), added)
  {
    var k := CharIndexAt(text, BytePosition(text, c)).value;
    ByteLenAppend(text[..k], added);
    ByteLenAppend(text[..k] + added, text[k..]);
    ByteLenAppend(text[..k], text[k..]);
    NewlineCountAppend(text[..k], added);
    NewlineCountAppend(text[..k] + added, text[k..]);
    NewlineCountAppend(text[..k], text[k..]);
    assert text[..k] + text[k..] == text;
    BoundaryWhenReachable(text, c);
    text[..k] + added + text[k..]
  }

  /** `insert_newline_at_position`: one more line feed, so one more reachable line. */
  function InsertNewline(text: string, c: Cursor): (r: string)
    requires Insertable(text, c)
    ensures MaxLineIndex(r) == MaxLineIndex(text) + 1
    ensures NoCR(text) && c.line <= MaxLineIndex(text) ==>
      CharOffset(text, c) <= |text| && r == InsertAt(text, CharOffset(text, c), "\n")
  {
    assert NewlineCount("\n") == 1 by {
      assert "\n"[1..] == [];
    }
    InsertText(text, c, "\n")
  }

  /**
   * `delete_char_at_position` as written: the byte offset minus one is
   * used as a character index (`char_indices().nth`), and the character
   * there, if any, is removed.
   */
  function DeleteCharAtPosition(text: string, c: Cursor): (r: string)
    ensures Pred(BytePosition(text, c)) < |text| ==> |r| == |text| - 1
    ensures Pred(BytePosition(text, c)) >= |text| ==> r == text
  {
    RemoveNth(text, Pred(BytePosition(text, c)))
  }

  /**
   * The intended deletion: the character just before the cursor, found
   * at the character index of its byte offset; nothing at the start.
   */
  function DeleteCharBefore(text: string, c: Cursor): (r: string)
    ensures NoCR(text) && c.line <= MaxLineIndex(text) && CharOffset(text, c) > 0 ==>
      r == RemoveNth(text, CharOffset(text, c) - 1) && |r| == |text| - 1
    ensures NoCR(text) && c.line <= MaxLineIndex(text) && CharOffset(text, c) == 0 ==> r == text
  {
    BoundaryWhenReachable(text, c);
    match CharIndexAt(text, BytePosition(text, c))
    case Some(k) => if k > 0 then RemoveNth(text, k - 1) else text
    case None => text
  }

  /** Lines of single-byte text take as many bytes as characters. */
  lemma AsciiLines(text: string)
    requires Ascii(text)
    ensures forall k :: 0 <= k < |Lines(text)| ==> Ascii(Lines(text)[k])
  {
    forall k | 0 <= k < |Lines(text)| ensures Ascii(Lines(text)[k]) {
      AsciiLinesAt(text, k);
    }
  }

  lemma {:induction false} AsciiLinesAt(text: string, k: nat)
    requires Ascii(text) && k < |Lines(text)|
    ensures Ascii(Lines(text)[k])
    decreases |text|
  {
    var i := IndexOf(text, '\n');
    if i < |text| {
      AsciiSlice(text, 0, i);
      AsciiSlice(text, i + 1, |text|);
      if k > 0 {
        AsciiLinesAt(text[i + 1..], k - 1);
      } else {
        AsciiSlice(text[..i], 0, |StripCR(text[..i])|);
        assert StripCR(text[..i]) == text[..i][..|StripCR(text[..i])|];
      }
    }
  }

  /** On single-byte text the byte offset is the character offset. */
  lemma AsciiBytePosition(text: string, c: Cursor)
    requires Ascii(text)
    ensures BytePosition(text, c) == CharOffset(text, c)
  {
    var ls := Lines(text);
    AsciiLines(text);
    if c.line < |ls| {
      LinesSumsAscii(ls[..c.line]);
      AsciiSlice(ls[c.line], 0, Min(c.column, |ls[c.line]|));
      AsciiByteLen(ls[c.line][..Min(c.column, |ls[c.line]|)]);
    } else {
      LinesSumsAscii(ls);
    }
  }

  /**
   * On single-byte text the code as written removes the character before
   * the cursor, except at offset 0, where it removes the first character.
   */
  lemma AsciiDeleteAgrees(text: string, c: Cursor)
    requires Ascii(text) && NoCR(text) && c.line <= MaxLineIndex(text)
    ensures CharOffset(text, c) > 0 ==> DeleteCharAtPosition(text, c) == DeleteCharBefore(text, c)
    ensures CharOffset(text, c) == 0 ==> DeleteCharAtPosition(text, c) == RemoveNth(text, 0)
  {
    AsciiBytePosition(text, c);
  }

  /**
   * Deleting at the column just after a character typed at the cursor
   * gives the text back (the character is neither a line feed nor a
   * carriage return).
   */
  lemma InsertThenDelete(text: string, c: Cursor, ch: char)
    requires NoCR(text) && Valid(c, text) && ch != '\n' && ch != '\r'
    ensures Insertable(text, c)
    ensures DeleteCharBefore(InsertText(text, c, [ch]), Cursor(c.line, c.column + 1)) == text
  {
    CursorBoundary(text, c);
    SingleIsLine(ch);
    InsertedOffset(text, c, [ch]);
    var k := CharOffset(text, c);
    DeleteBeforeAt(InsertText(text, c, [ch]), Cursor(c.line, c.column + 1), k);
    RemoveInsert(text, k, ch);
  }

  /** Deleting before a cursor whose character offset is `k + 1` removes character `k`. */
  lemma DeleteBeforeAt(t: string, c: Cursor, k: nat)
    requires NoCR(t) && c.line <= MaxLineIndex(t) && CharOffset(t, c) == k + 1
    ensures DeleteCharBefore(t, c) == RemoveNth(t, k)
  {
  }

  lemma SingleIsLine(ch: char)
    requires ch != '\n' && ch != '\r'
    ensures NoNewline([ch]) && NoCR([ch])
  {
  }

  /** Inserting a piece without line breaks keeps a string free of them. */
  lemma InsertKeeps(m: string, j: nat, added: string)
    requires j <= |m|
    ensures NoNewline(m) && NoNewline(added) ==> NoNewline(InsertAt(m, j, added))
    ensures NoCR(m) && NoCR(added) ==> NoCR(InsertAt(m, j, added))
  {
    var m' := InsertAt(m, j, added);
    forall i | 0 <= i < |m'|
      ensures || (i < j && m'[i] == m[i])
              || (j <= i < j + |added| && m'[i] == added[i - j])
              || (j + |added| <= i && m'[i] == m[i - |added|])
    {
      if i < j {
        assert m'[i] == m'[..j][i];
      } else if i < j + |added| {
        assert m'[i] == m'[j..j + |added|][i - j];
      } else {
        assert m'[i] == m'[j + |added|..][i - j - |added|];
      }
    }
  }

  /** Removing a character keeps a string free of line breaks. */
  lemma RemoveKeeps(m: string, n: nat)
    ensures NoNewline(m) ==> NoNewline(RemoveNth(m, n))
    ensures NoCR(m) ==> NoCR(RemoveNth(m, n))
  {
    var m' := RemoveNth(m, n);
    if n < |m| {
      forall i | 0 <= i < |m'| ensures m'[i] == m[i] || m'[i] == m[i + 1] {
        if i < n {
          assert m'[i] == m'[..n][i];
        } else {
          assert m'[i] == m'[n..][i - n];
        }
      }
    }
  }

  /** The cursor's line of a text without carriage returns, with what comes before and after it. */
  predicate SplitAround(p: string, m: string, s: string) {
    && Terminated(p) && NoCR(p)
    && NoNewline(m) && NoCR(m)
    && (s == [] || s[0] == '\n') && NoCR(s)
  }

  /** `Decompose`, with the suffix free of carriage returns too. */
  lemma SplitLine(text: string, L: nat) returns (p: string, m: string, s: string)
    requires NoCR(text) && L < |Lines(text)|
    ensures text == p + m + s && SplitAround(p, m, s)
    ensures Lines(p) == Lines(text)[..L] && m == Lines(text)[L]
  {
    p, m, s := Decompose(text, L);
    assert s == text[|p| + |m|..];
  }

  /** The line after those of `p`, and the cursor offsets on it. */
  lemma LineOfSplit(p: string, m: string, s: string, col: nat)
    requires SplitAround(p, m, s)
    ensures NoCR(p + m + s)
    ensures MaxLineIndex(p + m + s) >= |Lines(p)|
    ensures m != [] || s != [] ==> HasLine(p + m + s, |Lines(p)|) && Lines(p + m + s)[|Lines(p)|] == m
    ensures m == [] && s == [] ==> !HasLine(p + m + s, |Lines(p)|)
    ensures CharOffset(p + m + s, Cursor(|Lines(p)|, col)) == |p| + Min(col, |m|)
  {
    var t := p + m + s;
    BreaksAppend(p, m);
    BreaksAppend(p + m, s);
    AppendAssoc(p, m, s);
    LinesAppend(p, m + s);
    TerminatedSums(p);
    if m == [] && s == [] {
      assert t == p;
    } else {
      LinesOfLine(m, s);
      assert Lines(t)[..|Lines(p)|] == Lines(p);
    }
  }

  /**
   * A cursor at a column of the line of a split is valid there, and
   * at column 0 when the line is the phantom one.
   */
  lemma SettledInSplit(p: string, m: string, s: string, col: nat)
    requires SplitAround(p, m, s) && col <= |m|
    ensures NoCR(p + m + s)
    ensures Settled(Cursor(|Lines(p)|, col), p + m + s)
    ensures CharOffset(p + m + s, Cursor(|Lines(p)|, col)) == |p| + col
  {
    LineOfSplit(p, m, s, col);
  }

  /**
   * Typing a piece without line breaks at the cursor: the number of
   * lines stays, and the cursor moved on by the piece's length stands
   * right after it.
   */
  lemma InsertedOffset(text: string, c: Cursor, added: string)
    requires NoCR(text) && Valid(c, text) && NoNewline(added) && NoCR(added)
    ensures Insertable(text, c)
    ensures var t' := InsertText(text, c, added);
            && NoCR(t') && MaxLineIndex(t') == MaxLineIndex(text)
            && CharOffset(t', Cursor(c.line, c.column + |added|)) == CharOffset(text, c) + |added|
            && (Settled(c, text) ==> Settled(Cursor(c.line, c.column + |added|), t'))
  {
    CursorBoundary(text, c);
    NoNewlineCount(added);
    var t' := InsertText(text, c, added);
    if HasLine(text, c.line) {
      InsertedOnLine(text, c, added);
    } else {
      InsertedOnPhantom(text, c, added);
    }
  }

  /** `InsertedOffset` on a line `lines()` yields. */
  lemma InsertedOnLine(text: string, c: Cursor, added: string)
    requires NoCR(text) && HasLine(text, c.line) && c.column <= LineLen(text, c.line)
    requires NoNewline(added) && NoCR(added)
    ensures CharOffset(text, c) <= |text|
    ensures var t' := InsertAt(text, CharOffset(text, c), added);
            && NoCR(t')
            && Settled(Cursor(c.line, c.column + |added|), t')
            && CharOffset(t', Cursor(c.line, c.column + |added|)) == CharOffset(text, c) + |added|
  {
    var p, m, s := CursorSplit(text, c);
    InsertOnLine(p, m, s, c.column, added);
  }

  /** The split of a text around the line a valid cursor stands on. */
  lemma CursorSplit(text: string, c: Cursor) returns (p: string, m: string, s: string)
    requires NoCR(text) && HasLine(text, c.line) && c.column <= LineLen(text, c.line)
    ensures text == p + m + s && SplitAround(p, m, s)
    ensures c.line == |Lines(p)| && c.column <= |m|
    ensures CharOffset(text, c) == |p| + c.column
  {
    p, m, s := SplitLine(text, c.line);
    SplitOffsets(text, c, p, m);
  }

  /** `InsertedOffset` on the phantom line, where the cursor stands at the end of the text. */
  lemma InsertedOnPhantom(text: string, c: Cursor, added: string)
    requires NoCR(text) && c.line <= MaxLineIndex(text) && !HasLine(text, c.line)
    requires NoNewline(added) && NoCR(added)
    ensures CharOffset(text, c) == |text|
    ensures var t' := InsertAt(text, |text|, added);
            && NoCR(t')
            && CharOffset(t', Cursor(c.line, c.column + |added|)) == |text| + |added|
            && (c.column == 0 ==> Settled(Cursor(c.line, c.column + |added|), t'))
  {
    PhantomBoundary(text, c);
    assert Terminated(text);
    assert c.line == |Lines(text)|;
    if added == [] {
      assert InsertAt(text, |text|, added) == text;
    } else {
      InsertOnPhantom(text, c.column, added);
    }
  }

  lemma InsertOnLine(p: string, m: string, s: string, j: nat, added: string)
    requires SplitAround(p, m, s) && j <= |m| && NoNewline(added) && NoCR(added)
    ensures |p| + j <= |p + m + s|
    ensures var t' := InsertAt(p + m + s, |p| + j, added);
            && NoCR(t')
            && Settled(Cursor(|Lines(p)|, j + |added|), t')
            && CharOffset(t', Cursor(|Lines(p)|, j + |added|)) == |p| + j + |added|
  {
    InsertInMiddle(p, m, s, j, added);
    InsertKeeps(m, j, added);
    var m' := InsertAt(m, j, added);
    var t' := InsertAt(p + m + s, |p| + j, added);
    assert t' == p + m' + s;
    SettledInSplit(p, m', s, j + |added|);
    var c' := Cursor(|Lines(p)|, j + |added|);
    assert Settled(c', t');
    assert CharOffset(t', c') == |p| + j + |added|;
  }

  lemma InsertOnPhantom(text: string, col: nat, added: string)
    requires Terminated(text) && NoCR(text) && NoNewline(added) && NoCR(added) && added != []
    ensures var t' := InsertAt(text, |text|, added);
            && NoCR(t')
            && (col == 0 ==> Settled(Cursor(|Lines(text)|, col + |added|), t'))
            && CharOffset(t', Cursor(|Lines(text)|, col + |added|)) == |text| + |added|
  {
    var t' := InsertAt(text, |text|, added);
    assert t' == text + added + [];
    LineOfSplit(text, added, [], col + |added|);
    var c' := Cursor(|Lines(text)|, col + |added|);
    assert CharOffset(t', c') == |text| + |added|;
    if col == 0 {
      SettledInSplit(text, added, [], col + |added|);
      assert Settled(c', t');
    }
  }

  lemma InsertInMiddle(p: string, m: string, s: string, j: nat, added: string)
    requires j <= |m|
    ensures |p| + j <= |p + m + s|
    ensures InsertAt(p + m + s, |p| + j, added) == p + InsertAt(m, j, added) + s
  {
    var t := p + m + s;
    assert t[..|p| + j] == p + m[..j];
    assert t[|p| + j..] == m[j..] + s;
  }

  lemma RemoveInMiddle(p: string, m: string, s: string, j: nat)
    requires j < |m|
    ensures RemoveNth(p + m + s, |p| + j) == p + RemoveNth(m, j) + s
  {
    var t := p + m + s;
    assert t[..|p| + j] == p + m[..j];
    assert t[|p| + j + 1..] == m[j + 1..] + s;
  }

  /**
   * Deleting the character before a cursor past column 0: the number of
   * lines stays, and the cursor one column back stands where the
   * character was.
   */
  lemma DeletedOffset(text: string, c: Cursor)
    requires NoCR(text) && Settled(c, text) && c.column > 0
    ensures var t' := DeleteCharBefore(text, c);
            && NoCR(t') && MaxLineIndex(t') == MaxLineIndex(text)
            && Settled(Cursor(c.line, c.column - 1), t')
            && CharOffset(t', Cursor(c.line, c.column - 1)) == CharOffset(text, c) - 1
  {
    CursorBoundary(text, c);
    var t' := DeleteCharBefore(text, c);
    assert t' == RemoveNth(text, CharOffset(text, c) - 1);
    DeletedOnLine(text, c);
  }

  /** `DeletedOffset` for the character removed at the cursor's offset. */
  lemma DeletedOnLine(text: string, c: Cursor)
    requires NoCR(text) && HasLine(text, c.line) && 0 < c.column <= LineLen(text, c.line)
    ensures 0 < CharOffset(text, c) <= |text|
    ensures var t' := RemoveNth(text, CharOffset(text, c) - 1);
            && NewlineCount(t') == NewlineCount(text)
            && SettledAt(t', Cursor(c.line, c.column - 1), CharOffset(text, c) - 1)
  {
    var p, m, s := CursorSplit(text, c);
    DeleteOnLine(p, m, s, c.column - 1);
  }

  /** A text without carriage returns with a settled cursor at character offset `k`. */
  predicate SettledAt(t: string, c: Cursor, k: nat) {
    NoCR(t) && Settled(c, t) && CharOffset(t, c) == k
  }

  /** Removing character `j` of line `m` keeps the line, and the cursor at column `j` stands there. */
  lemma DeleteOnLine(p: string, m: string, s: string, j: nat)
    requires SplitAround(p, m, s) && j < |m|
    ensures var t' := RemoveNth(p + m + s, |p| + j);
            && NewlineCount(t') == NewlineCount(p + m + s)
            && SettledAt(t', Cursor(|Lines(p)|, j), |p| + j)
  {
    RemoveInMiddle(p, m, s, j);
    RemoveKeeps(m, j);
    var m' := RemoveNth(m, j);
    SettledInSplit(p, m', s, j);
    NoNewlineCount(m);
    NoNewlineCount(m');
    NewlineCountAppend(p, m);
    NewlineCountAppend(p + m, s);
    NewlineCountAppend(p, m');
    NewlineCountAppend(p + m', s);
  }

  /**
   * A line feed typed at the cursor: one more line, and the start of the
   * next line stands right after it.
   */
  lemma EnteredOffset(text: string, c: Cursor)
    requires NoCR(text) && Valid(c, text)
    ensures Insertable(text, c)
    ensures var t' := InsertNewline(text, c);
            && NoCR(t') && Settled(Cursor(c.line + 1, 0), t')
            && CharOffset(t', Cursor(c.line + 1, 0)) == CharOffset(text, c) + 1
  {
    CursorBoundary(text, c);
    var t' := InsertNewline(text, c);
    assert t' == InsertAt(text, CharOffset(text, c), "\n");
    if HasLine(text, c.line) {
      EnteredOnLine(text, c);
    } else {
      EnteredOnPhantom(text, c);
    }
  }

  lemma EnteredOnLine(text: string, c: Cursor)
    requires NoCR(text) && HasLine(text, c.line) && c.column <= LineLen(text, c.line)
    ensures CharOffset(text, c) <= |text|
    ensures SettledAt(InsertAt(text, CharOffset(text, c), "\n"), Cursor(c.line + 1, 0), CharOffset(text, c) + 1)
  {
    var p, m, s := CursorSplit(text, c);
    EnterOnLine(text, c, CharOffset(text, c), p, m, s);
  }

  lemma EnteredOnPhantom(text: string, c: Cursor)
    requires NoCR(text) && c.line <= MaxLineIndex(text) && !HasLine(text, c.line)
    ensures CharOffset(text, c) == |text|
    ensures var t' := InsertAt(text, |text|, "\n");
            && NoCR(t') && Settled(Cursor(c.line + 1, 0), t')
            && CharOffset(t', Cursor(c.line + 1, 0)) == |text| + 1
  {
    PhantomBoundary(text, c);
    assert Terminated(text);
    assert c.line == |Lines(text)|;
    assert InsertAt(text, |text|, "\n") == text + "\n";
    EnterOnPhantom(text);
  }

  lemma EnterOnLine(text: string, c: Cursor, k: nat, p: string, m: string, s: string)
    requires text == p + m + s && SplitAround(p, m, s)
    requires c.line == |Lines(p)| && c.column <= |m| && k == |p| + c.column
    ensures k <= |text|
    ensures SettledAt(InsertAt(text, k, "\n"), Cursor(c.line + 1, 0), k + 1)
  {
    var p', m' := EnterParts(text, c, k, p, m, s);
    SettledInSplit(p', m', s, 0);
  }

  /** The text after a line feed at column `c.column` of line `m`, cut around the new line. */
  lemma EnterParts(text: string, c: Cursor, k: nat, p: string, m: string, s: string) returns (p': string, m': string)
    requires text == p + m + s && SplitAround(p, m, s)
    requires c.line == |Lines(p)| && c.column <= |m| && k == |p| + c.column
    ensures k <= |text|
    ensures InsertAt(text, k, "\n") == p' + m' + s && SplitAround(p', m', s)
    ensures |Lines(p')| == c.line + 1 && |p'| == k + 1
  {
    p' := EnterSplit(p, m, s, c.column);
    m' := m[c.column..];
    SliceKeeps(m, c.column);
    NewLinePrefix(p, m[..c.column]);
  }

  /** A line feed put into line `m` ends a line: the text splits after it. */
  lemma EnterSplit(p: string, m: string, s: string, j: nat) returns (p': string)
    requires j <= |m|
    ensures |p| + j <= |p + m + s|
    ensures p' == p + (m[..j] + "\n") && |p'| == |p| + j + 1
    ensures InsertAt(p + m + s, |p| + j, "\n") == p' + m[j..] + s
  {
    InsertInMiddle(p, m, s, j, "\n");
    p' := p + (m[..j] + "\n");
    AppendAssoc(m[..j], "\n", m[j..]);
    AppendAssoc(p, m[..j] + "\n", m[j..]);
  }

  /** Both sides of a cut of a line hold no line breaks. */
  lemma SliceKeeps(m: string, j: nat)
    requires NoNewline(m) && NoCR(m) && j <= |m|
    ensures NoNewline(m[..j]) && NoCR(m[..j]) && NoNewline(m[j..]) && NoCR(m[j..])
  {
  }

  lemma EnterOnPhantom(text: string)
    requires Terminated(text) && NoCR(text)
    ensures NoCR(text + "\n") && Settled(Cursor(|Lines(text)| + 1, 0), text + "\n")
    ensures CharOffset(text + "\n", Cursor(|Lines(text)| + 1, 0)) == |text| + 1
  {
    var q := text + "\n";
    TerminateText(text);
    assert q == q + [] + [];
    SettledInSplit(q, [], [], 0);
  }

  lemma TerminateText(text: string)
    requires Terminated(text) && NoCR(text)
    ensures Terminated(text + "\n") && NoCR(text + "\n")
    ensures |Lines(text + "\n")| == |Lines(text)| + 1
  {
    assert [] + "\n" == "\n";
    NewLinePrefix(text, []);
  }

  /** Ending a line: a terminated prefix followed by a line and its line feed. */
  lemma NewLinePrefix(p: string, x: string)
    requires Terminated(p) && NoCR(p) && NoNewline(x) && NoCR(x)
    ensures Terminated(p + (x + "\n")) && NoCR(p + (x + "\n"))
    ensures |Lines(p + (x + "\n"))| == |Lines(p)| + 1
    ensures |p + (x + "\n")| == |p| + |x| + 1
  {
    LinesAppend(p, x + "\n");
    LinesOfTerminatedLine(x);
    BreaksAppend(x, "\n");
    BreaksAppend(p, x + "\n");
  }
}
