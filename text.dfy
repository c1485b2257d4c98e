/** String helpers standing in for `str.strip`, `str.find` and the `in` operator on strings. */
module Text {
  import opened Wrappers

  /**
   * Python's `str.isspace()`, which is also the set `\s` matches in a str
   * pattern: tab to carriage return, the four information separators, space,
   * NEL, NBSP, and the Unicode space separators and line/paragraph separators.
   */
  predicate IsSpace(c: char) {
    || ('\U{9}' <= c <= '\U{D}')
    || ('\U{1C}' <= c <= '\U{20}')
    || c == '\U{85}' || c == '\U{A0}' || c == '\U{1680}'
    || ('\U{2000}' <= c <= '\U{200A}')
    || c == '\U{2028}' || c == '\U{2029}' || c == '\U{202F}' || c == '\U{205F}' || c == '\U{3000}'
  }

  /** Among ASCII characters, the whitespace is tab, newline, the vertical tab, form feed, carriage return, the four separators and space. */
  lemma AsciiSpaces(c: char)
    requires c < '\U{80}'
    ensures IsSpace(c) <==> c in "\t\n\U{B}\U{C}\r\U{1C}\U{1D}\U{1E}\U{1F} "
  {
  }

  /** The first index at or after `i` that does not hold whitespace (or `|s|`). */
  function SkipSpaces(s: string, i: nat): (j: nat)
    requires i <= |s|
    decreases |s| - i
    ensures i <= j <= |s|
    ensures forall k :: i <= k < j ==> IsSpace(s[k])
    ensures j < |s| ==> !IsSpace(s[j])
  {
    if i < |s| && IsSpace(s[i]) then SkipSpaces(s, i + 1) else i
  }

  /** Moving back from `j`, the first index whose predecessor is not whitespace (or `lo`). */
  function BackOverSpaces(s: string, lo: nat, j: nat): (h: nat)
    requires lo <= j <= |s|
    decreases j - lo
    ensures lo <= h <= j
    ensures forall k :: h <= k < j ==> IsSpace(s[k])
    ensures h > lo ==> !IsSpace(s[h - 1])
  {
    if j > lo && IsSpace(s[j - 1]) then BackOverSpaces(s, lo, j - 1) else j
  }

  /** `r` is `s[i..i + |r|]` and everything of `s` outside that slice is whitespace. */
  predicate SliceWithSpaceAround(s: string, r: string, i: int) {
    && 0 <= i <= |s| - |r| && r == s[i..i + |r|]
    && (forall k :: 0 <= k < i ==> IsSpace(s[k]))
    && (forall k :: i + |r| <= k < |s| ==> IsSpace(s[k]))
  }

  /** Where the text kept by `Strip` begins. */
  function StripOffset(s: string): nat {
    SkipSpaces(s, 0)
  }

  /**
   * `s.strip()`: the slice of `s` left once whitespace is removed at both ends;
   * everything cut off is whitespace and the result neither starts nor ends with it.
   */
  function Strip(s: string): (r: string)
    ensures SliceWithSpaceAround(s, r, StripOffset(s))
    ensures r != [] ==> !IsSpace(r[0]) && !IsSpace(r[|r| - 1])
  {
    var lo := SkipSpaces(s, 0);
    var hi := BackOverSpaces(s, lo, |s|);
    s[lo..hi]
  }

  /** `pat` occurs in `t` at index `k`. */
  predicate OccursAt(t: string, pat: string, k: nat) {
    k + |pat| <= |t| && t[k..k + |pat|] == pat
  }

  /** `t.find(pat, from)`: the least index at or after `from` where `pat` occurs. */
  function IndexOf(t: string, pat: string, from: nat): (r: Option<nat>)
    decreases |t| - from
    ensures r.Some? ==> from <= r.value && OccursAt(t, pat, r.value)
    ensures r.Some? ==> forall k :: from <= k < r.value ==> !OccursAt(t, pat, k)
    ensures r.None? ==> forall k :: from <= k ==> !OccursAt(t, pat, k)
  {
    if from + |pat| > |t| then None
    else if OccursAt(t, pat, from) then Some(from)
    else IndexOf(t, pat, from + 1)
  }

  /** An occurrence inside a slice is an occurrence in the whole text. */
  lemma OccursInSlice(t: string, pat: string, a: nat, b: nat, m: nat)
    requires a <= b <= |t| && OccursAt(t[a..b], pat, m)
    ensures OccursAt(t, pat, a + m) && a + m + |pat| <= b
  {
    forall j | 0 <= j < |pat|
      ensures t[a + m..a + m + |pat|][j] == pat[j]
    {
      assert t[a..b][m..m + |pat|][j] == pat[j];
    }
    assert t[a + m..a + m + |pat|] == pat;
  }

  /** A slice of a slice is a slice. */
  lemma SliceOfSlice(t: string, a: nat, b: nat, i: nat, j: nat)
    requires a <= b <= |t| && i <= j <= b - a
    ensures t[a..b][i..j] == t[a + i..a + j]
  {
    forall q | 0 <= q < j - i
      ensures t[a..b][i..j][q] == t[a + i..a + j][q]
    {
    }
  }

  /** Skipping positions where `pat` does not occur does not change the find. */
  lemma {:induction false} IndexOfSkips(t: string, pat: string, from: nat, to: nat)
    requires from <= to
    requires forall k :: from <= k < to ==> !OccursAt(t, pat, k)
    ensures IndexOf(t, pat, from) == IndexOf(t, pat, to)
    decreases (to as int) - (from as int)
  {
    if from < to {
      IndexOfSkips(t, pat, from + 1, to);
    }
  }

  /** `pat` occurs somewhere in `t`. */
  predicate Contains(t: string, pat: string) {
    IndexOf(t, pat, 0).Some?
  }

  lemma ContainsIff(t: string, pat: string)
    ensures Contains(t, pat) <==> exists k :: OccursAt(t, pat, k)
  {
    if !Contains(t, pat) {
      assert forall k :: !OccursAt(t, pat, k);
    }
  }
}
