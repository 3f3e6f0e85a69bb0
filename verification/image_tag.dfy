/**
 * The image tags of the flat-string editor (src/components/text_editor/util.rs):
 * a line may carry `[image(<id>)]`, whose id selects a texture, and the
 * line is drawn taller by the texture's height and padding.
 *
 * Rust's `find` and slicing work on byte offsets; the tag's delimiters
 * are single-byte, so character offsets give the same pieces.
 */
module ImageTag {
  import opened Wrappers
  import opened Strings

  const Open: string := "[image("
  const Close: string := ")]"

  /** `usize::MAX` on a 64-bit target. */
  const UsizeMax: nat := 0xFFFF_FFFF_FFFF_FFFF

  /** `IMAGE_PADDING`, above and below an image. */
  const ImagePadding: real := 8.0

  predicate IsDigit(c: char) {
    '0' <= c <= '9'
  }

  predicate AllDigits(s: string) {
    forall i :: 0 <= i < |s| ==> IsDigit(s[i])
  }

  /** The value of a string of decimal digits, most significant first. */
  function DigitsValue(s: string): nat
    requires AllDigits(s)
    decreases |s|
  {
    if s == [] then 0 else DigitsValue(s[..|s| - 1]) * 10 + (s[|s| - 1] as int - '0' as int)
  }

  function Digit(d: nat): (c: char)
    requires d < 10
    ensures IsDigit(c) && c as int - '0' as int == d
  {
    ('0' as int + d) as char
  }

  /** The decimal representation of `n`, without sign or leading zeros. */
  function ToDecimal(n: nat): (r: string)
    ensures r != [] && AllDigits(r)
    ensures n > 0 ==> r[0] != '0'
    decreases n
  {
    if n < 10 then [Digit(n)] else ToDecimal(n / 10) + [Digit(n % 10)]
  }

  /**
   * `<usize as FromStr>::from_str`: an optional '+', then at least one
   * decimal digit; a '-' is not a digit, and a value above `usize::MAX`
   * is an overflow error.
   */
  function ParseUsize(s: string): (r: Option<nat>)
    ensures r.Some? ==> r.value <= UsizeMax
    ensures s == [] || s == "+" ==> r.None?
    ensures |s| > 0 && s[0] == '-' ==> r.None?
    ensures AllDigits(s) && s != [] ==> (r.Some? <==> DigitsValue(s) <= UsizeMax)
  {
    if s == [] then None
    else
      var d := if s[0] == '+' then s[1..] else s;
      if d == [] || !AllDigits(d) then None
      else if DigitsValue(d) <= UsizeMax then Some(DigitsValue(d))
      else None
  }

  /** The digits of a number read back as the number. */
  lemma {:induction false} DecimalValue(n: nat)
    ensures DigitsValue(ToDecimal(n)) == n
    decreases n
  {
    if n >= 10 {
      DecimalValue(n / 10);
      var r := ToDecimal(n);
      assert r[..|r| - 1] == ToDecimal(n / 10);
    }
  }

  /** Parsing prints back: exactly the numbers up to `usize::MAX` parse, with or without '+'. */
  lemma ParseDecimal(n: nat)
    ensures ParseUsize(ToDecimal(n)) == (if n <= UsizeMax then Some(n) else None)
    ensures ParseUsize("+" + ToDecimal(n)) == ParseUsize(ToDecimal(n))
  {
    DecimalValue(n);
    var t := ToDecimal(n);
    assert ("+" + t)[1..] == t;
  }

  /**
   * `extract_image_id`: the text between the first "[image(" and the
   * first ")]" after it, parsed as a `usize`.
   */
  function ExtractImageId(line: string): (r: Option<nat>)
    ensures (forall j :: 0 <= j <= |line| ==> !OccursAt(line, Open, j)) ==> r.None?
    ensures r.Some? ==> r.value <= UsizeMax
  {
    match Find(line, Open)
    case None => None
    case Some(start) =>
      var rest := line[start + |Open|..];
      match Find(rest, Close)
      case None => None
      case Some(end) => ParseUsize(rest[..end])
  }

  /** No "[image(" starts anywhere in `s`. */
  predicate NoOpen(s: string) {
    forall j :: 0 <= j <= |s| ==> !OccursAt(s, Open, j)
  }

  /** No ")]" starts anywhere in `s`. */
  predicate NoClose(s: string) {
    forall j :: 0 <= j <= |s| ==> !OccursAt(s, Close, j)
  }

  /**
   * The first tag decides: the id is whatever lies between the first
   * "[image(" and the ")]" after it, parsed, and anything later on the
   * line, another tag included, is ignored.
   */
  lemma FirstTagDecides(pre: string, id: string, post: string)
    requires NoOpen(pre) && NoClose(id)
    ensures ExtractImageId(pre + Open + id + Close + post) == ParseUsize(id)
  {
    var rest := id + Close + post;
    assert pre + Open + id + Close + post == pre + Open + rest;
    FindsFirst(pre, Open, rest);
    assert (pre + Open + rest)[|pre| + |Open|..] == rest;
    FindsFirst(id, Close, post);
    assert rest[..|id|] == id;
  }

  /** A tag whose id is a number up to `usize::MAX` yields that number. */
  lemma TagYieldsId(pre: string, n: nat, post: string)
    requires NoOpen(pre) && n <= UsizeMax
    ensures ExtractImageId(pre + Open + ToDecimal(n) + Close + post) == Some(n)
  {
    DigitsHaveNoClose(ToDecimal(n));
    FirstTagDecides(pre, ToDecimal(n), post);
    ParseDecimal(n);
  }

  /** Brackets before the tag do not matter: `- [x] [image(12)]` has the id 12. */
  lemma CheckboxBeforeTag()
    ensures ExtractImageId("- [x] " + Open + "12" + Close) == Some(12)
  {
    ShortHasNoOpen("- [x] ");
    TagYieldsId("- [x] ", 12, []);
    Twelve();
    AppendEmpty("- [x] " + Open + "12" + Close);
  }

  lemma Twelve()
    ensures ToDecimal(12) == "12"
  {
    assert ToDecimal(1) == "1";
  }

  lemma AppendEmpty(s: string)
    ensures s + [] == s
  {
  }

  /** A string shorter than "[image(" cannot hold it. */
  lemma ShortHasNoOpen(s: string)
    requires |s| < |Open|
    ensures NoOpen(s)
  {
  }

  /** A malformed first tag hides a well-formed one after it: `[image(x)][image(12)]` has no id. */
  lemma LaterTagIgnored()
    ensures ExtractImageId(Open + "x" + Close + Open + "12" + Close) == None
  {
    var post := Open + "12" + Close;
    DigitsHaveNoClose([]);
    OneCharHasNoClose('x');
    FirstTagDecides([], "x", post);
    assert [] + Open + "x" + Close + post == Open + "x" + Close + Open + "12" + Close;
    assert !IsDigit("x"[0]);
  }

  /**
   * `pat` occurs first right after `pre` when `pre` holds no occurrence
   * of its own and the first character of `pat` does not recur in it, so
   * that no occurrence can straddle the two.
   */
  lemma FindsFirst(pre: string, pat: string, rest: string)
    requires |pat| > 0 && forall k :: 0 < k < |pat| ==> pat[k] != pat[0]
    requires forall j :: 0 <= j <= |pre| ==> !OccursAt(pre, pat, j)
    ensures Find(pre + pat + rest, pat) == Some(|pre|)
  {
    var line := pre + pat + rest;
    assert OccursAt(line, pat, |pre|) by {
      assert line[|pre|..|pre| + |pat|] == pat;
    }
    forall j | 0 <= j < |pre| ensures !OccursAt(line, pat, j) {
      if j + |pat| <= |pre| {
        assert !OccursAt(pre, pat, j);
        assert line[j..j + |pat|] == pre[j..j + |pat|];
      } else {
        NoStraddle(pre, pat, rest, j);
      }
    }
    FindFirst(line, pat, |pre|);
  }

  /** An occurrence starting inside `pre` and reaching into `pat` would put `pat[0]` at a later position of `pat`. */
  lemma NoStraddle(pre: string, pat: string, rest: string, j: nat)
    requires forall k :: 0 < k < |pat| ==> pat[k] != pat[0]
    requires j < |pre| < j + |pat|
    ensures !OccursAt(pre + pat + rest, pat, j)
  {
    var line := pre + pat + rest;
    var k := |pre| - j;
    assert line[|pre|] == pat[0];
    assert line[j..j + |pat|][k] == pat[0] != pat[k];
  }

  /** A string of digits holds no ")]". */
  lemma DigitsHaveNoClose(s: string)
    requires AllDigits(s)
    ensures NoClose(s)
  {
    forall j | 0 <= j <= |s| ensures !OccursAt(s, Close, j) {
      if j + |Close| <= |s| {
        assert s[j..j + |Close|][0] == s[j];
      }
    }
  }

  lemma OneCharHasNoClose(c: char)
    ensures NoClose([c])
  {
    forall j | 0 <= j <= 1 ensures !OccursAt([c], Close, j) {
      assert j + |Close| > 1;
    }
  }

  /** An empty tag has no id. */
  lemma EmptyTagHasNoId()
    ensures ExtractImageId("[image()]") == None
  {
    DigitsHaveNoClose([]);
    FirstTagDecides("", "", "");
    assert "" + Open + "" + Close + "" == "[image()]";
  }

  /**
   * `calculate_line_height`: the base height, or for a line whose tag
   * names a known texture the base plus the texture's height and
   * padding above and below.
   */
  function LineHeight(line: string, base: real, heights: map<nat, real>): (r: real)
    ensures ExtractImageId(line).None? ==> r == base
    ensures ExtractImageId(line).Some? && ExtractImageId(line).value !in heights ==> r == base
    ensures ExtractImageId(line).Some? && ExtractImageId(line).value in heights ==>
      r == base + ImagePadding + heights[ExtractImageId(line).value] + ImagePadding
  {
    match ExtractImageId(line)
    case Some(id) =>
      if id in heights then base + ImagePadding + heights[id] + ImagePadding else base
    case None => base
  }

  /** A line tagged with a known texture's id is taller by the texture and its padding. */
  lemma TaggedLineHeight(pre: string, n: nat, post: string, base: real, heights: map<nat, real>)
    requires NoOpen(pre) && n <= UsizeMax && n in heights
    ensures LineHeight(pre + Open + ToDecimal(n) + Close + post, base, heights) == base + 2.0 * ImagePadding + heights[n]
  {
    TagYieldsId(pre, n, post);
  }

  /** No line is drawn shorter than the base height when no texture has a negative height. */
  lemma LineHeightAtLeastBase(line: string, base: real, heights: map<nat, real>)
    requires forall id :: id in heights ==> heights[id] >= 0.0
    ensures LineHeight(line, base, heights) >= base
  {
  }
}
