/** Character-level vocabulary shared by the regular-expression engine and
    by the specification of the tag extractor. */
module Text {

  /** The characters Python's `\s` matches in a `str` pattern: exactly those
      for which `str.isspace()` is true. */
  predicate IsSpace(ch: char) {
    ch as int in SpaceCodes
  }

  /** The code points of those characters. */
  const SpaceCodes: set<int> :=
    {0x09, 0x0A, 0x0B, 0x0C, 0x0D, 0x1C, 0x1D, 0x1E, 0x1F, 0x20, 0x85, 0xA0, 0x1680,
     0x2000, 0x2001, 0x2002, 0x2003, 0x2004, 0x2005, 0x2006, 0x2007, 0x2008, 0x2009, 0x200A,
     0x2028, 0x2029, 0x202F, 0x205F, 0x3000}

  /** `t` occurs in `s` starting at index `k`. */
  predicate StartsAt(s: string, k: int, t: string) {
    0 <= k && k + |t| <= |s| && s[k..k + |t|] == t
  }

  /** Every character of `s` in `[lo, hi)` is whitespace. */
  ghost predicate AllSpace(s: string, lo: int, hi: int)
    requires 0 <= lo && hi <= |s|
  {
    forall k :: lo <= k < hi ==> IsSpace(s[k])
  }
}
