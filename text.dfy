/**
 * The three string primitives of the browser that the search engine relies
 * on: `String.prototype.toLowerCase`, `String.prototype.trim` and
 * `String.prototype.includes`.  Strings are sequences of characters.
 *
 * Case folding is modelled for the ASCII letters and for the upper-case
 * letters of the Latin-1 Supplement (U+00C0..U+00DE except the
 * multiplication sign U+00D7), the characters a Portuguese catalog uses;
 * every other character is left as it is.  Trimming removes exactly the
 * characters ECMAScript calls WhiteSpace and LineTerminator.
 */
module Text {

  /** An upper-case letter that `toLowerCase` maps to the code point 32 higher. */
  predicate IsUpper(c: char) {
    ('A' <= c <= 'Z') || ('\U{00C0}' <= c <= '\U{00DE}' && c != '\U{00D7}')
  }

  /** `toLowerCase` on one character. */
  function LowerChar(c: char): (r: char)
    ensures IsUpper(c) ==> r as int == c as int + 32
    ensures !IsUpper(c) ==> r == c
    ensures !IsUpper(r)
  {
    if IsUpper(c) then (c as int + 32) as char else c
  }

  /** `toLowerCase`: folds every character on its own and keeps the length. */
  function Lower(s: string): (r: string)
    ensures |r| == |s|
    ensures forall i :: 0 <= i < |s| ==> r[i] == LowerChar(s[i])
    ensures forall i :: 0 <= i < |r| ==> !IsUpper(r[i])
  {
    seq(|s|, i requires 0 <= i < |s| => LowerChar(s[i]))
  }

  /** Folding an already folded string changes nothing. */
  lemma LowerIdempotent(s: string)
    ensures Lower(Lower(s)) == Lower(s)
  {
    var t := Lower(s);
    assert forall i :: 0 <= i < |t| ==> Lower(t)[i] == t[i];
  }

  /** Folding distributes over concatenation. */
  lemma LowerAppend(s: string, t: string)
    ensures Lower(s + t) == Lower(s) + Lower(t)
  {
    assert forall i :: 0 <= i < |s + t| ==> Lower(s + t)[i] == (Lower(s) + Lower(t))[i];
  }

  /**
   * ECMAScript WhiteSpace (tab, vertical tab, form feed, space, no-break
   * space, the byte order mark and the space separators) and LineTerminator
   * (line feed, carriage return, line and paragraph separators).
   */
  predicate IsWhiteSpace(c: char)
    ensures IsWhiteSpace(c) ==> !IsUpper(c) && LowerChar(c) == c
  {
    c == '\t' || c == '\n' || c == '\U{000B}' || c == '\U{000C}' || c == '\r' || c == ' '
    || c == '\U{00A0}' || c == '\U{1680}' || ('\U{2000}' <= c <= '\U{200A}')
    || c == '\U{2028}' || c == '\U{2029}' || c == '\U{202F}' || c == '\U{205F}'
    || c == '\U{3000}' || c == '\U{FEFF}'
  }

  predicate AllWhiteSpace(s: string) {
    forall i :: 0 <= i < |s| ==> IsWhiteSpace(s[i])
  }

  /** Folding never turns a white-space character into another one or back. */
  lemma LowerKeepsWhiteSpace(s: string)
    ensures AllWhiteSpace(Lower(s)) == AllWhiteSpace(s)
  {
    forall i | 0 <= i < |s| ensures IsWhiteSpace(Lower(s)[i]) == IsWhiteSpace(s[i]) {
      assert IsWhiteSpace(s[i]) ==> !IsUpper(s[i]);
    }
  }

  /** The index of the first character at or after `i` that is not white space (|s| if none). */
  function SkipBlanks(s: string, i: nat): (k: nat)
    requires i <= |s|
    ensures i <= k <= |s|
    ensures forall x :: i <= x < k ==> IsWhiteSpace(s[x])
    ensures k == |s| || !IsWhiteSpace(s[k])
    decreases |s| - i
  {
    if i < |s| && IsWhiteSpace(s[i]) then SkipBlanks(s, i + 1) else i
  }

  /** The end of `s[lo..j]` once its trailing white space is dropped. */
  function BackBlanks(s: string, lo: nat, j: nat): (m: nat)
    requires lo <= j <= |s|
    ensures lo <= m <= j
    ensures forall x :: m <= x < j ==> IsWhiteSpace(s[x])
    ensures m == lo || !IsWhiteSpace(s[m - 1])
    decreases j
  {
    if lo < j && IsWhiteSpace(s[j - 1]) then BackBlanks(s, lo, j - 1) else j
  }

  /**
   * `trim`: the slice of `s` left once its leading and its trailing white
   * space are dropped.  It neither starts nor ends with white space, what
   * was dropped is all white space, and it is empty exactly when `s` is all
   * white space.
   */
  function Trim(s: string): (r: string)
    ensures exists k: nat :: BlankAround(s, k, r)
    ensures r != [] ==> !IsWhiteSpace(r[0]) && !IsWhiteSpace(r[|r| - 1])
    ensures r == [] <==> AllWhiteSpace(s)
  {
    var k := SkipBlanks(s, 0);
    var m := BackBlanks(s, k, |s|);
    assert BlankAround(s, k, s[k..m]);
    assert m == k ==> AllWhiteSpace(s);
    s[k..m]
  }

  /** `r` stands at index `k` of `s`, and everything before and after it is white space. */
  predicate BlankAround(s: string, k: nat, r: string) {
    k + |r| <= |s| && s[k..k + |r|] == r
    && (forall x :: 0 <= x < k ==> IsWhiteSpace(s[x]))
    && (forall x :: k + |r| <= x < |s| ==> IsWhiteSpace(s[x]))
  }

  /**
   * `trim` is determined by its shape: whenever `r` stands in `s` with only
   * white space around it and neither starts nor ends with white space,
   * `r` is what `trim` returns.
   */
  lemma TrimUnique(s: string, k: nat, r: string)
    requires BlankAround(s, k, r)
    requires r != [] ==> !IsWhiteSpace(r[0]) && !IsWhiteSpace(r[|r| - 1])
    ensures Trim(s) == r
  {
    var i := SkipBlanks(s, 0);
    if r == [] {
      assert AllWhiteSpace(s);
    } else {
      assert s[k] == r[0];
      assert i == k;
      assert s[k + |r| - 1] == r[|r| - 1];
      assert BackBlanks(s, i, |s|) == k + |r|;
    }
  }

  /** Padding a string with white space keeps the shape of what `trim` keeps, shifted by the padding. */
  lemma BlankAroundPadded(p: string, s: string, q: string, k: nat, r: string)
    requires AllWhiteSpace(p) && AllWhiteSpace(q) && BlankAround(s, k, r)
    ensures BlankAround(p + s + q, |p| + k, r)
  {
    var t := p + s + q;
    assert t[|p| + k..|p| + k + |r|] == r by {
      forall i | 0 <= i < |r| ensures t[|p| + k + i] == r[i] {
        assert t[|p| + k + i] == s[k + i] == s[k..k + |r|][i];
      }
    }
    forall x | 0 <= x < |p| + k ensures IsWhiteSpace(t[x]) {
      if x >= |p| { assert t[x] == s[x - |p|]; }
    }
    forall x | |p| + k + |r| <= x < |t| ensures IsWhiteSpace(t[x]) {
      if x < |p| + |s| { assert t[x] == s[x - |p|]; } else { assert t[x] == q[x - |p| - |s|]; }
    }
  }

  /** Surrounding a string with white space does not change what `trim` returns. */
  lemma TrimIgnoresPadding(p: string, s: string, q: string)
    requires AllWhiteSpace(p) && AllWhiteSpace(q)
    ensures Trim(p + s + q) == Trim(s)
  {
    var r := Trim(s);
    var k: nat :| BlankAround(s, k, r);
    BlankAroundPadded(p, s, q, k, r);
    TrimUnique(p + s + q, |p| + k, r);
  }

  /** `p` occurs in `s` starting at index `k`. */
  predicate OccursAt(s: string, p: string, k: nat)
    requires k <= |s|
  {
    |p| <= |s| - k && s[k..][..|p|] == p
  }

  /** `includes`: `p` is a contiguous part of `s` (the empty string is part of every string). */
  predicate Contains(s: string, p: string)
    ensures p == [] ==> Contains(s, p)
    ensures Contains(s, p) ==> |p| <= |s|
  {
    assert p == [] ==> OccursAt(s, p, 0);
    exists k: nat :: k <= |s| && OccursAt(s, p, k)
  }

  /** A string with no upper-case letter is its own lower-case form. */
  lemma LowerOfLower(s: string)
    requires forall i :: 0 <= i < |s| ==> !IsUpper(s[i])
    ensures Lower(s) == s
  {
  }

  /** Trimming a string without capitals leaves none: `trim` only removes characters. */
  lemma TrimNoUpper(s: string)
    requires forall i :: 0 <= i < |s| ==> !IsUpper(s[i])
    ensures forall i :: 0 <= i < |Trim(s)| ==> !IsUpper(Trim(s)[i])
  {
    var r := Trim(s);
    var k: nat :| BlankAround(s, k, r);
    forall i | 0 <= i < |r| ensures !IsUpper(r[i]) {
      assert r[i] == s[k..k + |r|][i] == s[k + i];
    }
  }

  /** A string that neither starts nor ends with white space is its own trimmed form. */
  lemma TrimOfTrimmed(s: string)
    requires s != [] ==> !IsWhiteSpace(s[0]) && !IsWhiteSpace(s[|s| - 1])
    ensures Trim(s) == s
  {
    assert s[0..|s|] == s;
    TrimUnique(s, 0, s);
  }

  /** Every string contains each of its prefixes. */
  lemma ContainsPrefix(s: string, p: string)
    requires |p| <= |s| && s[..|p|] == p
    ensures Contains(s, p)
  {
    assert s[0..] == s;
    assert OccursAt(s, p, 0);
  }

  /** A non-empty part of `s` starts with a character of `s`. */
  lemma ContainsFirst(s: string, p: string)
    requires Contains(s, p) && p != []
    ensures p[0] in s
  {
    var k: nat :| k <= |s| && OccursAt(s, p, k);
    assert s[k] == s[k..][..|p|][0];
  }

  /** A part at least as long as the whole is the whole. */
  lemma ContainsNoLonger(s: string, p: string)
    requires Contains(s, p)
    ensures |p| <= |s|
    ensures |p| == |s| ==> p == s
  {
    var k: nat :| k <= |s| && OccursAt(s, p, k);
    if |p| == |s| {
      assert k == 0 && s[0..] == s;
    }
  }
}
