/**
 * Characters and their UTF-8 encoding. Rust strings are UTF-8 byte buffers
 * indexed by byte, while the editor's cursor counts characters; this module
 * holds the conversions between the two views (RFC 3629 section 3 for the
 * encoded lengths).
 */
module Chars {
  import opened Wrappers

  /** Number of bytes `char::len_utf8` reports for `c`. */
  function Utf8Len(c: char): (n: nat)
    ensures 1 <= n <= 4
    ensures n == 1 <==> c as int < 0x80
  {
    if c as int < 0x80 then 1
    else if c as int < 0x800 then 2
    else if c as int < 0x1_0000 then 3
    else 4
  }

  /** `str::len`: the UTF-8 byte length of a string. */
  function ByteLen(s: string): nat
  {
    if s == [] then 0 else Utf8Len(s[0]) + ByteLen(s[1..])
  }

  lemma {:induction false} ByteLenAppend(a: string, b: string)
    ensures ByteLen(a + b) == ByteLen(a) + ByteLen(b)
  {
    if a != [] {
      assert (a + b)[1..] == a[1..] + b;
      ByteLenAppend(a[1..], b);
    } else {
      assert a + b == b;
    }
  }

  /** The bytes of `s` split around its character `i`. */
  lemma ByteLenAround(s: string, i: nat)
    requires i < |s|
    ensures ByteLen(s) == ByteLen(s[..i]) + Utf8Len(s[i]) + ByteLen(s[i + 1..])
  {
    assert s == s[..i] + s[i..];
    ByteLenAppend(s[..i], s[i..]);
    assert s[i..][1..] == s[i + 1..];
  }

  predicate IsAscii(c: char) {
    c as int < 0x80
  }

  /** Every character of `s` is encoded in one byte. */
  predicate Ascii(s: string) {
    forall i :: 0 <= i < |s| ==> IsAscii(s[i])
  }

  /** For single-byte text the byte length and the character count agree. */
  lemma {:induction false} AsciiByteLen(s: string)
    requires Ascii(s)
    ensures ByteLen(s) == |s|
  {
    if s != [] {
      assert Ascii(s[1..]) by {
        forall i | 0 <= i < |s[1..]| ensures IsAscii(s[1..][i]) {
          assert s[1..][i] == s[i + 1];
        }
      }
      AsciiByteLen(s[1..]);
    }
  }

  lemma AsciiAppend(a: string, b: string)
    requires Ascii(a) && Ascii(b)
    ensures Ascii(a + b)
  {
    forall i | 0 <= i < |a + b| ensures IsAscii((a + b)[i]) {
      if i >= |a| {
        assert (a + b)[i] == b[i - |a|];
      }
    }
  }

  lemma AsciiSlice(a: string, i: nat, j: nat)
    requires Ascii(a) && i <= j <= |a|
    ensures Ascii(a[i..j]) && Ascii(a[..i]) && Ascii(a[j..])
  {
    forall k | 0 <= k < j - i ensures IsAscii(a[i..j][k]) {
      assert a[i..j][k] == a[i + k];
    }
    forall k | 0 <= k < |a| - j ensures IsAscii(a[j..][k]) {
      assert a[j..][k] == a[j + k];
    }
  }

  /** Rust's `char::is_control`: the general category Cc (C0 and C1 controls). */
  predicate IsControl(c: char) {
    c as int <= 0x1F || 0x7F <= c as int <= 0x9F
  }

  /** The text holds no carriage return. */
  predicate NoCR(s: string) {
    forall i :: 0 <= i < |s| ==> s[i] != '\r'
  }

  /**
   * The character index at which byte offset `p` of `s` starts, or None
   * when `p` is past the end or falls inside a character's encoding (the
   * cases in which `String::insert_str` panics).
   */
  function CharIndexAt(s: string, p: nat): (r: Option<nat>)
    ensures r.Some? ==> r.value <= |s| && ByteLen(s[..r.value]) == p
  {
    if p == 0 then
      assert s[..0] == [];
      Some(0)
    else if s == [] || p < Utf8Len(s[0]) then None
    else
      match CharIndexAt(s[1..], p - Utf8Len(s[0]))
      case None => None
      case Some(k) =>
        assert s[..k + 1] == [s[0]] + s[1..][..k];
        assert ByteLen(s[..k + 1]) == Utf8Len(s[0]) + ByteLen(s[1..][..k]);
        Some(k + 1)
  }

  /** Every character boundary is found by `CharIndexAt`. */
  lemma {:induction false} CharIndexAtBoundary(s: string, k: nat)
    requires k <= |s|
    ensures CharIndexAt(s, ByteLen(s[..k])) == Some(k)
  {
    if k == 0 {
      assert s[..0] == [];
    } else {
      assert s[..k][1..] == s[1..][..k - 1];
      assert s[..k][0] == s[0];
      CharIndexAtBoundary(s[1..], k - 1);
    }
  }

  /** `String::insert_str` at a character boundary, in character terms. */
  function InsertAt(s: string, k: nat, t: string): (r: string)
    requires k <= |s|
    ensures |r| == |s| + |t|
    ensures r[..k] == s[..k] && r[k..k + |t|] == t && r[k + |t|..] == s[k..]
  {
    s[..k] + t + s[k..]
  }

  /**
   * Removal of the `n`-th character (`String::remove` at that character's
   * boundary); a no-op when there is no such character.
   */
  function RemoveNth(s: string, n: nat): (r: string)
    ensures n < |s| ==> |r| == |s| - 1 && r[..n] == s[..n] && r[n..] == s[n + 1..]
    ensures n >= |s| ==> r == s
  {
    if n < |s| then s[..n] + s[n + 1..] else s
  }

  /** Removing the character just inserted gives back the original string. */
  lemma RemoveInsert(s: string, k: nat, c: char)
    requires k <= |s|
    ensures RemoveNth(InsertAt(s, k, [c]), k) == s
  {
    var r := InsertAt(s, k, [c]);
    assert r[..k] + r[k + 1..] == s[..k] + s[k..];
    assert s[..k] + s[k..] == s;
  }

  /** Inserting `c` and then `p` right after it inserts `[c] + p`. */
  lemma InsertAtTwice(s: string, k: nat, c: char, p: string)
    requires k <= |s|
    ensures InsertAt(InsertAt(s, k, [c]), k + 1, p) == InsertAt(s, k, [c] + p)
  {
    var u := InsertAt(s, k, [c]);
    assert u[..k + 1] == s[..k] + [c];
    assert u[k + 1..] == s[k..];
    assert s[..k] + [c] + p + s[k..] == s[..k] + ([c] + p) + s[k..];
  }

  /** Inserting a single-byte character keeps a string single-byte. */
  lemma AsciiInsert(s: string, k: nat, t: string)
    requires Ascii(s) && Ascii(t) && k <= |s|
    ensures Ascii(InsertAt(s, k, t))
  {
    AsciiSlice(s, k, k);
    AsciiAppend(s[..k], t);
    AsciiAppend(s[..k] + t, s[k..]);
  }

  lemma AsciiRemove(s: string, n: nat)
    requires Ascii(s)
    ensures Ascii(RemoveNth(s, n))
  {
    if n < |s| {
      AsciiSlice(s, n, n + 1);
      AsciiAppend(s[..n], s[n + 1..]);
    }
  }

  /** `Ord::min` on `usize`. */
  function Min(a: nat, b: nat): (r: nat)
    ensures r <= a && r <= b && (r == a || r == b)
  {
    if a <= b then a else b
  }

  /** `Ord::max` on `usize`. */
  function Max(a: nat, b: nat): (r: nat)
    ensures r >= a && r >= b && (r == a || r == b)
  {
    if a >= b then a else b
  }

  /** `usize::saturating_sub(1)`. */
  function Pred(n: nat): nat {
    if n == 0 then 0 else n - 1
  }
}
