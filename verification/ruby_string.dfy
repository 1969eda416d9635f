/**
 * Ruby's `String#strip`, on strings taken as plain sequences of characters.
 * Every form parameter is stripped before the store validates or keeps it.
 */
module RubyString {

  /** The characters `strip` removes: NUL, tab, line feed, vertical tab,
      form feed, carriage return and space. */
  predicate IsStripSpace(c: char) {
    c == '\0' || c == '\t' || c == '\n' || c == '\U{B}' || c == '\U{C}' || c == '\r' || c == ' '
  }

  /** Neither end of `s` is a character `strip` would remove. */
  predicate Stripped(s: string) {
    s == [] || (!IsStripSpace(s[0]) && !IsStripSpace(s[|s| - 1]))
  }

  /** `t` is the slice of `s` starting at `lo`, and everything of `s` outside
      that slice is strippable whitespace. */
  predicate Trims(s: string, lo: int, t: string) {
    && 0 <= lo <= lo + |t| <= |s|
    && t == s[lo..lo + |t|]
    && (forall k :: 0 <= k < lo ==> IsStripSpace(s[k]))
    && (forall k :: lo + |t| <= k < |s| ==> IsStripSpace(s[k]))
  }

  /** `lstrip`: drops the leading whitespace run. */
  function StripLeading(s: string): (r: string)
    ensures |r| <= |s| && r == s[|s| - |r|..]
    ensures forall k :: 0 <= k < |s| - |r| ==> IsStripSpace(s[k])
    ensures r == [] || !IsStripSpace(r[0])
  {
    if s != [] && IsStripSpace(s[0]) then StripLeading(s[1..]) else s
  }

  /** `rstrip`: drops the trailing whitespace run. */
  function StripTrailing(s: string): (r: string)
    ensures |r| <= |s| && r == s[..|r|]
    ensures forall k :: |r| <= k < |s| ==> IsStripSpace(s[k])
    ensures r == [] || !IsStripSpace(r[|r| - 1])
  {
    if s != [] && IsStripSpace(s[|s| - 1]) then StripTrailing(s[..|s| - 1]) else s
  }

  /** `strip`: the result is a slice of `s` with only whitespace cut away on
      either side, and neither of its ends is whitespace. */
  function Strip(s: string): (r: string)
    ensures Stripped(r)
    ensures exists lo :: Trims(s, lo, r)
  {
    var l := StripLeading(s);
    var r := StripTrailing(l);
    assert Trims(s, |s| - |l|, r);
    r
  }

  /** The two postconditions of `Strip` pin its result down: any whitespace-
      trimmed slice of `s` with non-whitespace ends is `Strip(s)`. */
  lemma StripUnique(s: string, lo: int, t: string)
    requires Trims(s, lo, t) && Stripped(t)
    ensures Strip(s) == t
  {
    var r := Strip(s);
    var lo' :| Trims(s, lo', r);
    TrimmedSlicesEqual(s, lo', r, lo, t);
  }

  /** Two trimmed slices of `s` with non-whitespace ends are the same slice:
      each starts at the first and ends at the last non-whitespace character. */
  lemma TrimmedSlicesEqual(s: string, lo: int, t: string, lo': int, u: string)
    requires Trims(s, lo, t) && Stripped(t)
    requires Trims(s, lo', u) && Stripped(u)
    ensures t == u
  {
    if t != [] {
      NonSpaceInside(s, lo', u, lo);
      NonSpaceInside(s, lo', u, lo + |t| - 1);
      NonSpaceInside(s, lo, t, lo');
      NonSpaceInside(s, lo, t, lo' + |u| - 1);
    } else if u != [] {
      NonSpaceInside(s, lo, t, lo');
    }
  }

  /** A non-whitespace character of `s` lies inside every trimmed slice. */
  lemma NonSpaceInside(s: string, lo: int, t: string, k: int)
    requires Trims(s, lo, t) && 0 <= k < |s| && !IsStripSpace(s[k])
    ensures lo <= k < lo + |t|
  {
  }

  /** A string with no whitespace at its ends is left as it is. */
  lemma StripStripped(t: string)
    requires Stripped(t)
    ensures Strip(t) == t
  {
    StripUnique(t, 0, t);
  }

  /** Stripping twice is stripping once. */
  lemma StripIdempotent(s: string)
    ensures Strip(Strip(s)) == Strip(s)
  {
    StripStripped(Strip(s));
  }

  /** `strip` yields the empty string exactly for whitespace-only input. */
  lemma StripEmptyIffBlank(s: string)
    ensures Strip(s) == [] <==> forall k :: 0 <= k < |s| ==> IsStripSpace(s[k])
  {
    var r := Strip(s);
    var lo :| Trims(s, lo, r);
  }
}
