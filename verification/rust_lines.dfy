/**
 * Rust's `str::lines()`: the text is split at every '\n'; a '\r' right
 * before a '\n' is dropped with it; the final line needs no terminator, so a
 * text ending in '\n' has no empty last line and the empty text has no lines.
 * Both editor generations count lines and columns through this function.
 */
module RustLines {
  import opened Chars
  import opened Strings

  predicate NoNewline(s: string) {
    forall i :: 0 <= i < |s| ==> s[i] != '\n'
  }

  /** A concatenation is free of line breaks exactly when both parts are. */
  lemma BreaksAppend(a: string, b: string)
    ensures NoNewline(a + b) <==> NoNewline(a) && NoNewline(b)
    ensures NoCR(a + b) <==> NoCR(a) && NoCR(b)
  {
    forall i | 0 <= i < |a| ensures (a + b)[i] == a[i] {
    }
    forall i | 0 <= i < |b| ensures (a + b)[|a| + i] == b[i] {
    }
  }

  /** The text is empty or its last character is a line feed. */
  predicate Terminated(s: string) {
    s == [] || s[|s| - 1] == '\n'
  }

  predicate EndsWithNewline(s: string) {
    |s| > 0 && s[|s| - 1] == '\n'
  }

  function StripCR(s: string): string {
    if |s| > 0 && s[|s| - 1] == '\r' then s[..|s| - 1] else s
  }

  function Lines(s: string): seq<string>
    decreases |s|
  {
    if s == [] then []
    else
      var i := IndexOf(s, '\n');
      if i == |s| then [s]
      else [StripCR(s[..i])] + Lines(s[i + 1..])
  }

  /** No line of `Lines(s)` holds a line feed, nor a carriage return if `s` holds none. */
  lemma {:induction false} LinesElements(s: string)
    ensures forall k :: 0 <= k < |Lines(s)| ==> NoNewline(Lines(s)[k])
    ensures NoCR(s) ==> forall k :: 0 <= k < |Lines(s)| ==> NoCR(Lines(s)[k])
    decreases |s|
  {
    if s != [] {
      var i := IndexOf(s, '\n');
      if i < |s| {
        LinesElements(s[i + 1..]);
        var x := FirstLine(s, i);
        ElementsCons(x, Lines(s[i + 1..]), NoCR(s));
      }
    }
  }

  /** The first line `lines()` yields from `s`, whose first line feed is at `i`. */
  lemma FirstLine(s: string, i: nat) returns (x: string)
    requires i == IndexOf(s, '\n') && i < |s|
    ensures x == StripCR(s[..i]) && Lines(s) == [x] + Lines(s[i + 1..])
    ensures NoNewline(x) && (NoCR(s) ==> NoCR(x) && NoCR(s[i + 1..]))
  {
    x := StripCR(s[..i]);
  }

  lemma ElementsCons(x: string, ls: seq<string>, cr: bool)
    requires NoNewline(x) && forall k :: 0 <= k < |ls| ==> NoNewline(ls[k])
    requires cr ==> NoCR(x) && forall k :: 0 <= k < |ls| ==> NoCR(ls[k])
    ensures forall k :: 0 <= k < |[x] + ls| ==> NoNewline(([x] + ls)[k])
    ensures cr ==> forall k :: 0 <= k < |[x] + ls| ==> NoCR(([x] + ls)[k])
  {
    forall k | 0 < k < |[x] + ls| ensures ([x] + ls)[k] == ls[k - 1] {
    }
  }

  /** A terminated prefix contributes its own lines, whatever follows it. */
  lemma {:induction false} LinesAppend(a: string, b: string)
    requires Terminated(a)
    ensures Lines(a + b) == Lines(a) + Lines(b)
    decreases |a|
  {
    if a == [] {
      assert a + b == b;
    } else {
      var x, rest := LinesAppendStep(a, b);
      LinesAppend(rest, b);
      ConsAssoc(x, Lines(rest), Lines(b));
    }
  }

  lemma ConsAssoc<T>(x: T, u: seq<T>, v: seq<T>)
    ensures [x] + (u + v) == [x] + u + v
  {
  }

  /** `Lines(a + b)` and `Lines(a)` unfold at the same first line feed, inside `a`. */
  lemma LinesAppendStep(a: string, b: string) returns (x: string, rest: string)
    requires Terminated(a) && a != []
    ensures |rest| < |a| && Terminated(rest)
    ensures Lines(a) == [x] + Lines(rest)
    ensures Lines(a + b) == [x] + Lines(rest + b)
  {
    var i := IndexOf(a, '\n');
    assert a[|a| - 1] == '\n';
    IndexOfAppend(a, b, '\n');
    x, rest := StripCR(a[..i]), a[i + 1..];
    AppendSlices(a, b, i);
    AppendSlices(a, b, i + 1);
  }

  /** The lines of a line body `m` followed by nothing or by a line feed and more text. */
  lemma LinesOfLine(m: string, s: string)
    requires NoNewline(m) && NoCR(m)
    requires s == [] || s[0] == '\n'
    ensures s == [] && m == [] ==> Lines(m + s) == []
    ensures s == [] && m != [] ==> Lines(m + s) == [m]
    ensures s != [] ==> Lines(m + s) == [m] + Lines(s[1..])
  {
    var t := m + s;
    if s == [] {
      assert t == m;
      if m != [] {
        IndexOfUnique(m, '\n', |m|);
      }
    } else {
      assert t[|m|] == '\n';
      forall j | 0 <= j < |m| ensures t[j] != '\n' {
        assert t[j] == m[j];
      }
      IndexOfUnique(t, '\n', |m|);
      assert t[..|m|] == m;
      assert t[|m| + 1..] == s[1..];
    }
  }

  /** Characters taken by the lines `ls`, each with its line feed. */
  function LinesChars(ls: seq<string>): nat {
    if ls == [] then 0 else |ls[0]| + 1 + LinesChars(ls[1..])
  }

  /** Bytes taken by the lines `ls`, each with its line feed. */
  function LinesBytes(ls: seq<string>): nat {
    if ls == [] then 0 else ByteLen(ls[0]) + 1 + LinesBytes(ls[1..])
  }

  lemma {:induction false} LinesSumsAppend(a: seq<string>, b: seq<string>)
    ensures LinesChars(a + b) == LinesChars(a) + LinesChars(b)
    ensures LinesBytes(a + b) == LinesBytes(a) + LinesBytes(b)
  {
    if a == [] {
      assert a + b == b;
    } else {
      assert (a + b)[1..] == a[1..] + b;
      LinesSumsAppend(a[1..], b);
    }
  }

  /** Every line of single-byte text takes as many bytes as characters. */
  lemma {:induction false} LinesSumsAscii(ls: seq<string>)
    requires forall k :: 0 <= k < |ls| ==> Ascii(ls[k])
    ensures LinesBytes(ls) == LinesChars(ls)
  {
    if ls != [] {
      AsciiByteLen(ls[0]);
      LinesSumsAscii(ls[1..]);
    }
  }

  /** A terminated text without carriage returns is exactly its lines, each with a line feed. */
  lemma {:induction false} TerminatedSums(p: string)
    requires Terminated(p) && NoCR(p)
    ensures |p| == LinesChars(Lines(p))
    ensures ByteLen(p) == LinesBytes(Lines(p))
    decreases |p|
  {
    if p != [] {
      assert IndexOf(p, '\n') < |p| by {
        assert p[|p| - 1] == '\n';
      }
      var i := LinesStep(p);
      var rest := p[i + 1..];
      var ls := [p[..i]] + Lines(rest);
      assert ls[0] == p[..i] && ls[1..] == Lines(rest);
      TerminatedSums(rest);
      ByteLenAround(p, i);
    }
  }

  /** One unfolding of `Lines` at the first line feed of `t`. */
  lemma LinesStep(t: string) returns (i: nat)
    requires NoCR(t)
    requires IndexOf(t, '\n') < |t|
    ensures i == IndexOf(t, '\n') && i < |t| && t[i] == '\n'
    ensures NoNewline(t[..i]) && NoCR(t[..i]) && NoCR(t[i + 1..])
    ensures Lines(t) == [t[..i]] + Lines(t[i + 1..])
  {
    i := IndexOf(t, '\n');
    assert StripCR(t[..i]) == t[..i];
  }

  /** A single line with its line feed. */
  lemma LinesOfTerminatedLine(x: string)
    requires NoNewline(x) && NoCR(x)
    ensures Lines(x + "\n") == [x]
  {
    LinesOfLine(x, "\n");
    assert ("\n")[1..] == [];
  }

  /**
   * Line `L` of `t` sits between a terminated prefix `p` holding lines
   * `0..L` and a suffix that is empty or starts with the line's line feed.
   */
  lemma {:induction false} Decompose(t: string, L: nat) returns (p: string, m: string, s: string)
    requires NoCR(t)
    requires L < |Lines(t)|
    ensures t == p + m + s
    ensures Terminated(p) && NoCR(p)
    ensures NoNewline(m) && NoCR(m)
    ensures s == [] || s[0] == '\n'
    ensures Lines(p) == Lines(t)[..L]
    ensures m == Lines(t)[L]
    decreases |t|
  {
    if IndexOf(t, '\n') == |t| {
      p, m, s := DecomposeLast(t);
    } else {
      var i := LinesStep(t);
      if L == 0 {
        p, m, s := DecomposeFirst(t, i);
      } else {
        var rest := t[i + 1..];
        var p', m', s' := Decompose(rest, L - 1);
        p := DecomposeExtend(t, i, p', m', s');
        m, s := m', s';
        ConsIndex(Lines(t), t[..i], Lines(rest), Lines(p'), L);
      }
    }
  }

  /** A text without line feeds is its one line. */
  lemma DecomposeLast(t: string) returns (p: string, m: string, s: string)
    requires NoCR(t) && t != [] && IndexOf(t, '\n') == |t|
    ensures p == [] && m == t && s == [] && t == p + m + s
    ensures NoNewline(m) && Lines(t) == [m]
  {
    p, m, s := [], t, [];
    assert t == p + m + s;
  }

  /** The first line of a text holding a line feed. */
  lemma DecomposeFirst(t: string, i: nat) returns (p: string, m: string, s: string)
    requires i < |t| && t[i] == '\n' && Lines(t) == [t[..i]] + Lines(t[i + 1..])
    ensures p == [] && m == t[..i] && s == t[i..] && t == p + m + s
    ensures Lines(t)[0] == m && s[0] == '\n'
  {
    p, m, s := [], t[..i], t[i..];
    SplitAt(t, i);
    assert p + m == m;
    ConsTail(t[..i], Lines(t[i + 1..]));
  }

  /** Lines `..L` and line `L` of `[x] + ls` come from `ls`, shifted by one. */
  lemma ConsIndex<T>(whole: seq<T>, x: T, ls: seq<T>, pre: seq<T>, L: nat)
    requires whole == [x] + ls && 0 < L <= |ls| && pre == ls[..L - 1]
    ensures [x] + pre == whole[..L]
    ensures whole[L] == ls[L - 1]
  {
  }

  /** The inductive step of `Decompose`: prefix the first line to a split of the rest. */
  lemma DecomposeExtend(t: string, i: nat, p': string, m': string, s': string) returns (p: string)
    requires NoCR(t)
    requires i < |t| && t[i] == '\n' && NoNewline(t[..i]) && NoCR(t[..i])
    requires t[i + 1..] == p' + m' + s'
    requires Terminated(p') && NoCR(p')
    ensures p == t[..i + 1] + p'
    ensures t == p + m' + s'
    ensures Terminated(p) && NoCR(p)
    ensures Lines(p) == [t[..i]] + Lines(p')
  {
    var head := t[..i + 1];
    HeadOfLine(t, i);
    p := head + p';
    SplitAt(t, i + 1);
    AppendAssoc(p', m', s');
    AppendAssoc(head, p', m' + s');
    AppendAssoc(p, m', s');
    LinesAppend(head, p');
    LinesOfTerminatedLine(t[..i]);
  }

  /** The first line of `t`, with its line feed. */
  lemma HeadOfLine(t: string, i: nat)
    requires i < |t| && t[i] == '\n'
    ensures t[..i + 1] == t[..i] + "\n"
  {
    assert t[..i + 1] == t[..i] + [t[i]];
  }

  lemma SplitAt<T>(t: seq<T>, k: nat)
    requires k <= |t|
    ensures t == t[..k] + t[k..]
  {
  }

  /** `lines` joined back with "\n", as `Vec<String>::join("\n")` does. */
  function JoinLines(xs: seq<string>): string {
    if xs == [] then []
    else if |xs| == 1 then xs[0]
    else xs[0] + "\n" + JoinLines(xs[1..])
  }

  /** `xs` without its last element when that element is empty. */
  function DropTrailingEmpty(xs: seq<string>): seq<string> {
    if xs != [] && xs[|xs| - 1] == [] then xs[..|xs| - 1] else xs
  }

  /** Splitting a join gives the lines back, except a final empty line. */
  lemma {:induction false} LinesOfJoin(xs: seq<string>)
    requires forall k :: 0 <= k < |xs| ==> NoNewline(xs[k]) && NoCR(xs[k])
    ensures Lines(JoinLines(xs)) == DropTrailingEmpty(xs)
  {
    if |xs| == 1 {
      LinesOfLine(xs[0], []);
      assert xs[0] + [] == xs[0];
    } else if |xs| > 1 {
      JoinStep(xs);
      LinesOfJoin(xs[1..]);
      DropTrailingEmptyCons(xs);
    }
  }

  /** The first line of a join of at least two lines, with its line feed. */
  lemma JoinStep(xs: seq<string>)
    requires |xs| > 1 && NoNewline(xs[0]) && NoCR(xs[0])
    ensures Lines(JoinLines(xs)) == [xs[0]] + Lines(JoinLines(xs[1..]))
  {
    var rest := JoinLines(xs[1..]);
    LinesOfLine(xs[0], "\n" + rest);
    AppendAssoc(xs[0], "\n", rest);
    ConsTail('\n', rest);
  }

  lemma DropTrailingEmptyCons(xs: seq<string>)
    requires |xs| > 1
    ensures DropTrailingEmpty(xs) == [xs[0]] + DropTrailingEmpty(xs[1..])
  {
    assert xs == [xs[0]] + xs[1..];
    if xs[|xs| - 1] == [] {
      assert xs[1..][..|xs[1..]| - 1] == xs[1..|xs| - 1];
      assert xs[..|xs| - 1] == [xs[0]] + xs[1..|xs| - 1];
    }
  }
}
