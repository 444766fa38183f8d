/** Whitespace and trimming, as used by the line framer (`buf.toString().trim()`). */
module Text {

  /** The characters Kotlin's `Char.isWhitespace()` accepts on the JVM
      (`Character.isWhitespace(c) || Character.isSpaceChar(c)`): the ASCII
      controls TAB, LF, VT, FF, CR and FS..US, and the Unicode space, line and
      paragraph separators. This set is an assumption of the model. */
  predicate IsWhitespace(c: char) {
    c == '\t' || c == '\n' || c == '\U{000B}' || c == '\U{000C}' || c == '\r'
    || ('\U{001C}' <= c <= '\U{001F}')
    || c == ' ' || c == '\U{00A0}' || c == '\U{1680}'
    || ('\U{2000}' <= c <= '\U{200A}')
    || c == '\U{2028}' || c == '\U{2029}' || c == '\U{202F}' || c == '\U{205F}'
    || c == '\U{3000}'
  }

  predicate AllWhitespace(s: string) {
    forall k :: 0 <= k < |s| ==> IsWhitespace(s[k])
  }

  /** Neither end of `s` is whitespace (vacuously true of the empty string). */
  predicate Unpadded(s: string) {
    s == [] || (!IsWhitespace(s[0]) && !IsWhitespace(s[|s| - 1]))
  }

  /** The first index at or after `i` whose character is not whitespace
      (`|s|` if there is none): the forward scan of `trim()`. */
  function SkipForward(s: string, i: nat): (j: nat)
    requires i <= |s|
    ensures i <= j <= |s|
    ensures forall k :: i <= k < j ==> IsWhitespace(s[k])
    ensures j == |s| || !IsWhitespace(s[j])
    decreases |s| - i
  {
    if i < |s| && IsWhitespace(s[i]) then SkipForward(s, i + 1) else i
  }

  /** The least end `e`, between `lo` and `j`, such that `s[e..j]` is all
      whitespace: the backward scan of `trim()`. */
  function SkipBackward(s: string, lo: nat, j: nat): (e: nat)
    requires lo <= j <= |s|
    ensures lo <= e <= j
    ensures forall k :: e <= k < j ==> IsWhitespace(s[k])
    ensures e == lo || !IsWhitespace(s[e - 1])
    decreases j
  {
    if lo < j && IsWhitespace(s[j - 1]) then SkipBackward(s, lo, j - 1) else j
  }

  /** Where the slice kept by `trim()` starts. */
  function TrimStart(s: string): (i: nat)
    ensures i <= |s|
  {
    SkipForward(s, 0)
  }

  /** Where the slice kept by `trim()` ends. */
  function TrimEnd(s: string): (j: nat)
    ensures TrimStart(s) <= j <= |s|
  {
    SkipBackward(s, TrimStart(s), |s|)
  }

  /** Kotlin's `String.trim()`: `s` with the whitespace at both ends removed. */
  function Trim(s: string): (r: string)
    ensures Unpadded(r)
    ensures |r| <= |s|
  {
    s[TrimStart(s)..TrimEnd(s)]
  }

  /** Trim removes only whitespace, and only at the two ends: `s` is a
      whitespace prefix, then `Trim(s)`, then a whitespace suffix. */
  lemma TrimIsSlice(s: string)
    ensures s == s[..TrimStart(s)] + Trim(s) + s[TrimEnd(s)..]
    ensures AllWhitespace(s[..TrimStart(s)])
    ensures AllWhitespace(s[TrimEnd(s)..])
  {
    var i, j := TrimStart(s), TrimEnd(s);
    assert s == s[..i] + s[i..j] + s[j..];
  }

  /** Every character of the trimmed string occurs in the original. */
  lemma TrimChars(s: string, c: char)
    requires c in Trim(s)
    ensures c in s
  {
    var i := TrimStart(s);
    var r := Trim(s);
    var k :| 0 <= k < |r| && r[k] == c;
    assert s[i + k] == c;
  }

  /** Trim is determined by its contract: whatever whitespace surrounds an
      unpadded middle, trimming gives back exactly that middle. */
  lemma TrimUnique(p: string, m: string, q: string)
    requires AllWhitespace(p) && AllWhitespace(q) && Unpadded(m)
    ensures Trim(p + m + q) == m
  {
    var s := p + m + q;
    var i, j := TrimStart(s), TrimEnd(s);
    if m == [] {
      assert s == p + q;
      assert forall k :: 0 <= k < |s| ==> IsWhitespace(s[k]) by {
        forall k | 0 <= k < |s| ensures IsWhitespace(s[k]) {
          if k < |p| { assert s[k] == p[k]; } else { assert s[k] == q[k - |p|]; }
        }
      }
      assert i == |s|;
    } else {
      assert s[|p|] == m[0];
      assert forall k :: 0 <= k < |p| ==> s[k] == p[k];
      assert i == |p|;
      assert s[|p| + |m| - 1] == m[|m| - 1];
      assert forall k :: |p| + |m| <= k < |s| ==> s[k] == q[k - |p| - |m|];
      assert j == |p| + |m|;
      assert s[i..j] == m;
    }
  }

  /** Trimming an unpadded string changes nothing; in particular trimming is idempotent. */
  lemma TrimUnpadded(s: string)
    requires Unpadded(s)
    ensures Trim(s) == s
  {
    TrimUnique([], s, []);
    assert [] + s + [] == s;
  }

  lemma TrimIdempotent(s: string)
    ensures Trim(Trim(s)) == Trim(s)
  {
    TrimUnpadded(Trim(s));
  }
}
