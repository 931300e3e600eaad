/** The Python string operations the race dashboard relies on: `str.strip()`,
    `str.lower()` and the substring test `a in b` for the name search, and
    ASCII decimal digits for file names and clock text. */
module Text {

  /** `str.isspace()` for a single character: the characters Python treats as
      whitespace (Unicode separators and the ASCII/Latin-1 control spaces). */
  predicate IsSpace(c: char) {
    c in Spaces
  }

  /** The whitespace characters of `str.isspace()`, listed one by one. */
  const Spaces: set<char> := {
    '\t', '\n', '\U{B}', '\U{C}', '\r', '\U{1C}', '\U{1D}', '\U{1E}', '\U{1F}', ' ',
    '\U{85}', '\U{A0}', '\U{1680}',
    '\U{2000}', '\U{2001}', '\U{2002}', '\U{2003}', '\U{2004}', '\U{2005}',
    '\U{2006}', '\U{2007}', '\U{2008}', '\U{2009}', '\U{200A}',
    '\U{2028}', '\U{2029}', '\U{202F}', '\U{205F}', '\U{3000}'
  }

  /** The first index at or after `i` that does not hold whitespace. */
  function SkipLeading(s: string, i: nat): (j: nat)
    requires i <= |s|
    ensures i <= j <= |s|
    ensures forall k :: i <= k < j ==> IsSpace(s[k])
    ensures j < |s| ==> !IsSpace(s[j])
    decreases |s| - i
  {
    if i < |s| && IsSpace(s[i]) then SkipLeading(s, i + 1) else i
  }

  /** The end of `s[lo..j]` once its trailing whitespace is dropped. */
  function SkipTrailing(s: string, j: nat, lo: nat): (e: nat)
    requires lo <= j <= |s|
    ensures lo <= e <= j
    ensures forall k :: e <= k < j ==> IsSpace(s[k])
    ensures lo < e ==> !IsSpace(s[e - 1])
    decreases j
  {
    if lo < j && IsSpace(s[j - 1]) then SkipTrailing(s, j - 1, lo) else j
  }

  /** `r` is the slice of `s` at `i` with only whitespace before and after it,
      and neither starts nor ends with whitespace. */
  predicate StrippedAt(s: string, r: string, i: int) {
    && 0 <= i <= |s| - |r| && r == s[i..i + |r|]
    && (forall k :: 0 <= k < i ==> IsSpace(s[k]))
    && (forall k :: i + |r| <= k < |s| ==> IsSpace(s[k]))
    && (r == [] || (!IsSpace(r[0]) && !IsSpace(r[|r| - 1])))
  }

  /** `str.strip()`: the slice of `s` left after removing whitespace at both ends. */
  function Strip(s: string): (r: string)
    ensures exists i :: StrippedAt(s, r, i)
  {
    var a := SkipLeading(s, 0);
    var b := SkipTrailing(s, |s|, a);
    assert StrippedAt(s, s[a..b], a);
    s[a..b]
  }

  /** Only one slice of `s` fits that description, so it is `strip()`'s. */
  lemma {:induction false} StripUnique(s: string, r: string, i: int)
    requires StrippedAt(s, r, i)
    ensures Strip(s) == r
  {
    var t := Strip(s);
    var j :| StrippedAt(s, t, j);
    if r != [] {
      assert !IsSpace(s[i]) && !IsSpace(s[i + |r| - 1]);
      assert |t| > 0;
      assert !IsSpace(s[j]) && !IsSpace(s[j + |t| - 1]);
      assert i == j;
      assert |r| == |t|;
    } else {
      assert forall k :: 0 <= k < |s| ==> IsSpace(s[k]);
      assert |t| == 0;
    }
  }

  /** `strip()` ignores whatever whitespace surrounds the text. */
  lemma {:induction false} StripPadded(w1: string, s: string, w2: string)
    requires forall k :: 0 <= k < |w1| ==> IsSpace(w1[k])
    requires forall k :: 0 <= k < |w2| ==> IsSpace(w2[k])
    ensures Strip(w1 + s + w2) == Strip(s)
  {
    var r := Strip(s);
    var i :| StrippedAt(s, r, i);
    var x := w1 + s + w2;
    var n := |w1|;
    MiddleSlice(w1, s, w2, i, i + |r|);
    SpacesBefore(w1, s, w2, i);
    SpacesAfter(w1, s, w2, i + |r|);
    assert StrippedAt(x, r, n + i);
    StripUnique(x, r, n + i);
  }

  /** A slice of `s` is the same slice of `s` with text around it. */
  lemma {:induction false} MiddleSlice(w1: string, s: string, w2: string, a: nat, b: nat)
    requires a <= b <= |s|
    ensures (w1 + s + w2)[|w1| + a..|w1| + b] == s[a..b]
  {
    var m := (w1 + s + w2)[|w1| + a..|w1| + b];
    assert forall k :: 0 <= k < b - a ==> m[k] == s[a + k];
  }

  /** Whitespace padding followed by whitespace of `s` is whitespace. */
  lemma {:induction false} SpacesBefore(w1: string, s: string, w2: string, i: nat)
    requires i <= |s|
    requires forall k :: 0 <= k < |w1| ==> IsSpace(w1[k])
    requires forall k :: 0 <= k < i ==> IsSpace(s[k])
    ensures forall k :: 0 <= k < |w1| + i ==> IsSpace((w1 + s + w2)[k])
  {
    var x := w1 + s + w2;
    forall k | 0 <= k < |w1| + i ensures IsSpace(x[k]) {
      if k >= |w1| {
        assert x[k] == s[k - |w1|];
      } else {
        assert x[k] == w1[k];
      }
    }
  }

  /** Whitespace at the end of `s` followed by whitespace padding is whitespace. */
  lemma {:induction false} SpacesAfter(w1: string, s: string, w2: string, e: nat)
    requires e <= |s|
    requires forall k :: 0 <= k < |w2| ==> IsSpace(w2[k])
    requires forall k :: e <= k < |s| ==> IsSpace(s[k])
    ensures forall k :: |w1| + e <= k < |w1 + s + w2| ==> IsSpace((w1 + s + w2)[k])
  {
    var x := w1 + s + w2;
    forall k | |w1| + e <= k < |x| ensures IsSpace(x[k]) {
      if k < |w1| + |s| {
        assert x[k] == s[k - |w1|];
      } else {
        assert x[k] == w2[k - |w1| - |s|];
      }
    }
  }

  /** Text without whitespace at either end is its own `strip()`. */
  lemma {:induction false} StripClean(s: string)
    requires s == [] || (!IsSpace(s[0]) && !IsSpace(s[|s| - 1]))
    ensures Strip(s) == s
  {
    assert s[0..|s|] == s;
    StripUnique(s, s, 0);
  }

  /** `str.lower()` on one character: ASCII and Latin-1 capitals. */
  function LowerChar(c: char): char {
    if 'A' <= c <= 'Z' || ('\U{C0}' <= c <= '\U{DE}' && c != '\U{D7}')
    then (c as int + 32) as char
    else c
  }

  /** `str.lower()`. */
  function Lower(s: string): (r: string)
    ensures |r| == |s|
    ensures forall i :: 0 <= i < |s| ==> r[i] == LowerChar(s[i])
  {
    seq(|s|, i requires 0 <= i < |s| => LowerChar(s[i]))
  }

  /** `s.strip().lower()`, the form in which the dashboard compares names. */
  function Normalize(s: string): string {
    Lower(Strip(s))
  }

  /** `needle` occurs in `hay` starting at index `i`. */
  predicate OccursAt(needle: string, hay: string, i: int) {
    0 <= i <= |hay| - |needle| && hay[i..i + |needle|] == needle
  }

  /** Python's `needle in hay` for strings. */
  predicate IsSubstring(needle: string, hay: string) {
    exists i | 0 <= i <= |hay| :: OccursAt(needle, hay, i)
  }

  /** An ASCII decimal digit (what `\d` matches in an ASCII file name). */
  predicate IsDigit(c: char) {
    '0' <= c <= '9'
  }

  predicate AllDigits(s: string) {
    forall i :: 0 <= i < |s| ==> IsDigit(s[i])
  }
}
