/** What the tag extractor is meant to return, stated without reference to
    any matching algorithm: the text between the earliest opening tag that
    admits a closing tag and the first such closing tag after it. */
module TagSpec {
  import opened Text

  /** `Trimmed`: the value is stripped of surrounding whitespace and may not
      span lines. `Verbatim`: everything between the tags, newlines included. */
  datatype Shape = Trimmed | Verbatim

  /** The first non-whitespace index in `[lo, hi)`, or `hi`. */
  function LeadEnd(s: string, lo: nat, hi: nat): (k: nat)
    requires lo <= hi <= |s|
    ensures lo <= k <= hi
    ensures AllSpace(s, lo, k)
    ensures k < hi ==> !IsSpace(s[k])
    decreases hi - lo
  {
    if lo < hi && IsSpace(s[lo]) then LeadEnd(s, lo + 1, hi) else lo
  }

  /** The index just after the last non-whitespace character in `[lo, hi)`, or `lo`. */
  function TrailStart(s: string, lo: nat, hi: nat): (k: nat)
    requires lo <= hi <= |s|
    ensures lo <= k <= hi
    ensures AllSpace(s, k, hi)
    ensures lo < k ==> !IsSpace(s[k - 1])
    decreases hi - lo
  {
    if lo < hi && IsSpace(s[hi - 1]) then TrailStart(s, lo, hi - 1) else hi
  }

  /** Python's `str.strip()` with no argument. */
  function Strip(t: string): string {
    var a := LeadEnd(t, 0, |t|);
    t[a..TrailStart(t, a, |t|)]
  }

  /** A closing tag that does not begin with whitespace, so that a `\s*`
      before it cannot swallow its first character. */
  predicate TagReady(c: string) {
    |c| > 0 && !IsSpace(c[0])
  }

  /** Opening tag `o` at `i` and closing tag `c` at `j` delimit a value; in the
      trimmed shape the stripped value must not contain a newline. */
  predicate Admits(s: string, o: string, c: string, shape: Shape, i: nat, j: nat) {
    StartsAt(s, i, o) && StartsAt(s, j, c) && i + |o| <= j
    && (shape == Trimmed ==> '\n' !in Strip(s[i + |o|..j]))
  }

  /** The value delimited by the tags at `i` and `j`. */
  function Value(s: string, o: string, c: string, shape: Shape, i: nat, j: nat): string
    requires i + |o| <= j <= |s|
  {
    if shape == Trimmed then Strip(s[i + |o|..j]) else s[i + |o|..j]
  }

  /** `(i, j)` is the least admitted pair: earliest opening tag first, then
      earliest closing tag for it. */
  ghost predicate FirstAdmitted(s: string, o: string, c: string, shape: Shape, i: nat, j: nat) {
    Admits(s, o, c, shape, i, j)
    && forall i': nat, j': nat :: Admits(s, o, c, shape, i', j') ==> i < i' || (i == i' && j <= j')
  }

  lemma LeadEndUnique(s: string, lo: nat, hi: nat, a: nat)
    requires lo <= a <= hi <= |s|
    requires AllSpace(s, lo, a) && (a < hi ==> !IsSpace(s[a]))
    ensures LeadEnd(s, lo, hi) == a
  {
  }

  lemma TrailStartUnique(s: string, lo: nat, hi: nat, b: nat)
    requires lo <= b <= hi <= |s|
    requires AllSpace(s, b, hi) && (lo < b ==> !IsSpace(s[b - 1]))
    ensures TrailStart(s, lo, hi) == b
  {
  }

  /** Stripping removes exactly the whitespace around the first and last
      non-whitespace characters. */
  lemma StripSlice(s: string, lo: nat, hi: nat, a: nat, b: nat)
    requires lo <= a <= b <= hi <= |s|
    requires AllSpace(s, lo, a) && AllSpace(s, b, hi)
    requires a < b ==> !IsSpace(s[a]) && !IsSpace(s[b - 1])
    ensures Strip(s[lo..hi]) == s[a..b]
  {
    var t := s[lo..hi];
    assert forall k :: 0 <= k < |t| ==> t[k] == s[lo + k];
    StripWhole(t, a - lo, b - lo);
    assert t[a - lo..b - lo] == s[a..b];
  }

  /** `StripSlice` for the whole of `t`. */
  lemma StripWhole(t: string, a: nat, b: nat)
    requires a <= b <= |t|
    requires AllSpace(t, 0, a) && AllSpace(t, b, |t|)
    requires a < b ==> !IsSpace(t[a]) && !IsSpace(t[b - 1])
    ensures Strip(t) == t[a..b]
  {
    if a == b {
      LeadEndUnique(t, 0, |t|, |t|);
      assert Strip(t) == t[|t|..|t|];
    } else {
      LeadEndUnique(t, 0, |t|, a);
      TrailStartUnique(t, a, |t|, b);
    }
  }

  /** `Strip` of a slice is the slice between `LeadEnd` and `TrailStart`. */
  lemma StripBounds(s: string, lo: nat, hi: nat)
    requires lo <= hi <= |s|
    ensures Strip(s[lo..hi]) == s[LeadEnd(s, lo, hi)..TrailStart(s, LeadEnd(s, lo, hi), hi)]
  {
    var a := LeadEnd(s, lo, hi);
    StripSlice(s, lo, hi, a, TrailStart(s, a, hi));
  }

  /** A stripped value neither begins nor ends with whitespace. */
  lemma StripHasNoOuterSpace(t: string)
    ensures var r := Strip(t); r == [] || (!IsSpace(r[0]) && !IsSpace(r[|r| - 1]))
  {
    assert t == t[0..|t|];
    StripBounds(t, 0, |t|);
  }

  /** Whitespace around `[x, y)` does not change the stripped value. */
  lemma StripIgnoresSpace(s: string, lo: nat, x: nat, y: nat, hi: nat)
    requires lo <= x <= y <= hi <= |s|
    requires AllSpace(s, lo, x) && AllSpace(s, y, hi)
    ensures Strip(s[lo..hi]) == Strip(s[x..y])
  {
    var a := LeadEnd(s, x, y);
    var b := TrailStart(s, a, y);
    StripBounds(s, x, y);
    StripSlice(s, lo, hi, a, b);
  }

  /** `ch` is missing from a slice exactly when no index of the slice holds it. */
  lemma NotInSlice(s: string, lo: nat, hi: nat, ch: char)
    requires lo <= hi <= |s|
    ensures ch !in s[lo..hi] <==> forall k :: lo <= k < hi ==> s[k] != ch
  {
    if ch in s[lo..hi] {
      var k :| 0 <= k < hi - lo && s[lo..hi][k] == ch;
      assert s[lo + k] == ch;
    }
  }

  /** Stripping a slice free of newlines leaves it free of newlines. */
  lemma StripKeepsNoNewline(s: string, lo: nat, hi: nat)
    requires lo <= hi <= |s|
    requires '\n' !in s[lo..hi]
    ensures '\n' !in Strip(s[lo..hi])
  {
    var a := LeadEnd(s, lo, hi);
    var b := TrailStart(s, a, hi);
    StripBounds(s, lo, hi);
    NotInSlice(s, lo, hi, '\n');
    NotInSlice(s, a, b, '\n');
  }

  /** Cutting the middle before a non-whitespace character keeps the stripped
      value free of newlines. */
  lemma StripPrefixNoNewline(s: string, lo: nat, mid: nat, hi: nat)
    requires lo <= mid < hi <= |s|
    requires !IsSpace(s[mid])
    requires '\n' !in Strip(s[lo..hi])
    ensures '\n' !in Strip(s[lo..mid])
  {
    var a := LeadEnd(s, lo, hi);
    var b := TrailStart(s, a, hi);
    StripBounds(s, lo, hi);
    NotInSlice(s, a, b, '\n');
    assert a <= mid < b;
    var a' := LeadEnd(s, lo, mid);
    var b' := TrailStart(s, a', mid);
    StripBounds(s, lo, mid);
    assert a' < b' ==> a <= a';
    NotInSlice(s, a', b', '\n');
  }

  /** Some admitted pair exists exactly when a first one does. */
  lemma {:induction false} FirstAdmittedExists(s: string, o: string, c: string, shape: Shape, i: nat, j: nat)
    requires Admits(s, o, c, shape, i, j)
    ensures exists i': nat, j': nat :: FirstAdmitted(s, o, c, shape, i', j')
    decreases i, j
  {
    if !FirstAdmitted(s, o, c, shape, i, j) {
      var i2: nat, j2: nat :| Admits(s, o, c, shape, i2, j2) && !(i < i2 || (i == i2 && j <= j2));
      FirstAdmittedExists(s, o, c, shape, i2, j2);
    }
  }

  /** The least admitted pair is unique. */
  lemma FirstAdmittedUnique(s: string, o: string, c: string, shape: Shape, i: nat, j: nat, i': nat, j': nat)
    requires FirstAdmitted(s, o, c, shape, i, j) && FirstAdmitted(s, o, c, shape, i', j')
    ensures i == i' && j == j'
  {
  }

  /** A closing tag found at `j` starts with a non-whitespace character. */
  lemma TagStartsSolid(s: string, c: string, j: nat)
    requires TagReady(c) && StartsAt(s, j, c)
    ensures j < |s| && !IsSpace(s[j])
  {
    assert s[j..j + |c|][0] == s[j];
  }

  /** An occurrence of `t` inside the slice `s[a..b]` is an occurrence in `s`
      that ends by `b`. */
  lemma StartsAtSlice(s: string, a: nat, b: nat, k: int, t: string)
    requires a <= b <= |s|
    ensures StartsAt(s[a..b], k, t) ==> StartsAt(s, a + k, t) && a + k + |t| <= b
  {
    if StartsAt(s[a..b], k, t) {
      var w := s[a + k..a + k + |t|];
      forall x | 0 <= x < |t| ensures w[x] == t[x] {
        assert t[x] == s[a..b][k..k + |t|][x] == s[a..b][k + x];
      }
      assert w == t;
    }
  }

  /** A closing tag between an opening tag and an admitted closing tag is
      admitted as well: in the trimmed shape its first character is not
      whitespace, so the stripped value in front of it is a prefix of the
      longer one. */
  lemma EarlierCloseAdmitted(s: string, o: string, c: string, shape: Shape, i: nat, j: nat, j': nat)
    requires shape == Trimmed ==> TagReady(c)
    requires Admits(s, o, c, shape, i, j') && StartsAt(s, j, c) && i + |o| <= j < j'
    ensures Admits(s, o, c, shape, i, j)
  {
    if shape == Trimmed {
      TagStartsSolid(s, c, j);
      StripPrefixNoNewline(s, i + |o|, j, j');
    }
  }

  /** The closing tag of the first admitted pair is the first closing tag
      after the opening tag. */
  lemma FirstCloseAfterOpening(s: string, o: string, c: string, shape: Shape, i: nat, j: nat)
    requires shape == Trimmed ==> TagReady(c)
    requires FirstAdmitted(s, o, c, shape, i, j)
    ensures forall j' :: i + |o| <= j' < j ==> !StartsAt(s, j', c)
  {
    forall j' | i + |o| <= j' < j
      ensures !StartsAt(s, j', c)
    {
      if StartsAt(s, j', c) {
        EarlierCloseAdmitted(s, o, c, shape, i, j', j);
      }
    }
  }

  /** A slice that ends before the first closing tag after `lo` does not
      contain the closing tag. */
  lemma NoCloseInside(s: string, c: string, lo: nat, a: nat, b: nat, j: nat)
    requires |c| > 0 && lo <= a <= b <= j <= |s|
    requires forall j' :: lo <= j' < j ==> !StartsAt(s, j', c)
    ensures forall k :: !StartsAt(s[a..b], k, c)
  {
    forall k
      ensures !StartsAt(s[a..b], k, c)
    {
      StartsAtSlice(s, a, b, k, c);
    }
  }

  /** The value of the first admitted pair never contains the closing tag. */
  lemma ValueHasNoClose(s: string, o: string, c: string, shape: Shape, i: nat, j: nat)
    requires |c| > 0 && (shape == Trimmed ==> TagReady(c))
    requires FirstAdmitted(s, o, c, shape, i, j)
    ensures forall k :: !StartsAt(Value(s, o, c, shape, i, j), k, c)
  {
    var m0 := i + |o|;
    FirstCloseAfterOpening(s, o, c, shape, i, j);
    if shape == Trimmed {
      var a := LeadEnd(s, m0, j);
      StripBounds(s, m0, j);
      NoCloseInside(s, c, m0, a, TrailStart(s, a, j), j);
    } else {
      NoCloseInside(s, c, m0, m0, j, j);
    }
  }

  /** A trimmed value lies on one line and carries no surrounding whitespace. */
  lemma TrimmedValueClean(s: string, o: string, c: string, i: nat, j: nat)
    requires Admits(s, o, c, Trimmed, i, j)
    ensures var v := Value(s, o, c, Trimmed, i, j);
            '\n' !in v && (v == [] || (!IsSpace(v[0]) && !IsSpace(v[|v| - 1])))
  {
    StripHasNoOuterSpace(s[i + |o|..j]);
  }

  /** In the verbatim shape the first admitted pair is the first opening tag
      together with the first closing tag after it. */
  lemma VerbatimFirstIff(s: string, o: string, c: string, i: nat, j: nat)
    ensures FirstAdmitted(s, o, c, Verbatim, i, j)
        <==> && StartsAt(s, i, o) && StartsAt(s, j, c) && i + |o| <= j
             && (forall i': nat :: i' < i ==> !StartsAt(s, i', o))
             && (forall j' :: i + |o| <= j' < j ==> !StartsAt(s, j', c))
  {
    if FirstAdmitted(s, o, c, Verbatim, i, j) {
      FirstCloseAfterOpening(s, o, c, Verbatim, i, j);
      forall i': nat | i' < i
        ensures !StartsAt(s, i', o)
      {
        assert StartsAt(s, i', o) ==> Admits(s, o, c, Verbatim, i', j);
      }
    }
  }

  /** Whether a pair that ends inside `s` is admitted does not depend on
      what follows `s`. */
  lemma AdmitsAppend(s: string, t: string, o: string, c: string, shape: Shape, i: nat, j: nat)
    requires j + |c| <= |s|
    ensures Admits(s + t, o, c, shape, i, j) <==> Admits(s, o, c, shape, i, j)
  {
    if i + |o| <= j {
      StartsAtAppend(s, t, i, o);
      StartsAtAppend(s, t, j, c);
      assert (s + t)[i + |o|..j] == s[i + |o|..j];
    }
  }

  /** An occurrence inside `s` stays where it is when text is appended. */
  lemma StartsAtAppend(s: string, t: string, k: nat, u: string)
    requires k + |u| <= |s|
    ensures StartsAt(s + t, k, u) <==> StartsAt(s, k, u)
  {
    assert (s + t)[k..k + |u|] == s[k..k + |u|];
  }

  /** Text appended after the first admitted pair does not displace it. */
  lemma FirstAdmittedAppend(s: string, t: string, o: string, c: string, shape: Shape, i: nat, j: nat)
    requires shape == Trimmed ==> TagReady(c)
    requires FirstAdmitted(s, o, c, shape, i, j)
    ensures FirstAdmitted(s + t, o, c, shape, i, j)
  {
    AdmitsAppend(s, t, o, c, shape, i, j);
    forall i': nat, j': nat | Admits(s + t, o, c, shape, i', j')
      ensures i < i' || (i == i' && j <= j')
    {
      if j' + |c| <= |s| {
        AdmitsAppend(s, t, o, c, shape, i', j');
      } else if i' < i {
        EarlierCloseAdmitted(s + t, o, c, shape, i', j, j');
        AdmitsAppend(s, t, o, c, shape, i', j);
      }
    }
  }

  /** The value of a pair that ends inside `s` does not depend on what follows. */
  lemma ValueAppend(s: string, t: string, o: string, c: string, shape: Shape, i: nat, j: nat)
    requires i + |o| <= j <= |s|
    ensures Value(s + t, o, c, shape, i, j) == Value(s, o, c, shape, i, j)
  {
    assert (s + t)[i + |o|..j] == s[i + |o|..j];
  }

  /** In the lemmas below `s` is the suffix of `u` from `k`: `u` is `s` with
      `k` characters of text put in front. */

  /** A slice of `s` is the slice of `u` moved by `k`. */
  lemma SuffixSlice(u: string, s: string, k: nat, x: nat, y: nat)
    requires k <= |u| && u[k..] == s && x <= y <= |s|
    ensures u[k + x..k + y] == s[x..y]
  {
    forall m | 0 <= m < y - x
      ensures u[k + x..k + y][m] == s[x..y][m]
    {
      assert s[x + m] == u[k..][x + m];
    }
  }

  /** A slice of `u` at or after `k` is a slice of `s`. */
  lemma SliceInSuffix(u: string, s: string, k: nat, x: nat, y: nat)
    requires k <= |u| && u[k..] == s && k <= x <= y <= |u|
    ensures u[x..y] == s[x - k..y - k]
  {
    SuffixSlice(u, s, k, x - k, y - k);
  }

  /** An occurrence in `u` at or after `k` is an occurrence in `s`. */
  lemma StartsAtInSuffix(u: string, s: string, k: nat, y: nat, t: string)
    requires k <= |u| && u[k..] == s && k <= y
    ensures StartsAt(u, y, t) <==> StartsAt(s, y - k, t)
  {
    if y + |t| <= |u| {
      SliceInSuffix(u, s, k, y, y + |t|);
    }
  }

  /** An occurrence moves by `k`. */
  lemma StartsAtSuffix(u: string, s: string, k: nat, x: nat, t: string)
    requires k <= |u| && u[k..] == s
    ensures StartsAt(u, k + x, t) <==> StartsAt(s, x, t)
  {
    if x + |t| <= |s| {
      SuffixSlice(u, s, k, x, x + |t|);
    }
  }

  /** Whether a pair is admitted does not depend on text put in front. */
  lemma AdmitsSuffix(u: string, s: string, k: nat, o: string, c: string, shape: Shape, i: nat, j: nat)
    requires k <= |u| && u[k..] == s
    ensures Admits(u, o, c, shape, k + i, k + j) <==> Admits(s, o, c, shape, i, j)
  {
    StartsAtSuffix(u, s, k, i, o);
    StartsAtSuffix(u, s, k, j, c);
    if i + |o| <= j <= |s| {
      assert k + i + |o| == k + (i + |o|);
      SuffixSlice(u, s, k, i + |o|, j);
    }
  }

  /** An admitted pair of `u` that opens at or after `k` is an admitted pair
      of `s`, moved back by `k`. */
  lemma AdmitsInSuffix(u: string, s: string, k: nat, o: string, c: string, shape: Shape, i': nat, j': nat)
    requires k <= |u| && u[k..] == s && k <= i'
    requires Admits(u, o, c, shape, i', j')
    ensures i' <= j' && Admits(s, o, c, shape, i' - k, j' - k)
  {
    StartsAtInSuffix(u, s, k, i', o);
    StartsAtInSuffix(u, s, k, j', c);
    SliceInSuffix(u, s, k, i' + |o|, j');
    assert i' + |o| - k == i' - k + |o|;
  }

  /** Text in front in which no opening tag begins moves the first admitted pair
      by its length. */
  lemma FirstAdmittedSuffix(u: string, s: string, k: nat, o: string, c: string, shape: Shape, i: nat, j: nat)
    requires k <= |u| && u[k..] == s
    requires forall k' :: 0 <= k' < k ==> !StartsAt(u, k', o)
    requires FirstAdmitted(s, o, c, shape, i, j)
    ensures FirstAdmitted(u, o, c, shape, k + i, k + j)
  {
    AdmitsSuffix(u, s, k, o, c, shape, i, j);
    forall i': nat, j': nat | Admits(u, o, c, shape, i', j')
      ensures k + i < i' || (k + i == i' && k + j <= j')
    {
      assert StartsAt(u, i', o);
      AdmitsInSuffix(u, s, k, o, c, shape, i', j');
    }
  }

  /** Text in front in which no opening tag begins creates no admitted pair. */
  lemma NoAdmittedSuffix(u: string, s: string, k: nat, o: string, c: string, shape: Shape)
    requires k <= |u| && u[k..] == s
    requires forall k' :: 0 <= k' < k ==> !StartsAt(u, k', o)
    requires forall i: nat, j: nat :: !Admits(s, o, c, shape, i, j)
    ensures forall i: nat, j: nat :: !Admits(u, o, c, shape, i, j)
  {
    forall i': nat, j': nat | Admits(u, o, c, shape, i', j')
      ensures false
    {
      assert StartsAt(u, i', o);
      AdmitsInSuffix(u, s, k, o, c, shape, i', j');
    }
  }

  /** The value of a pair moves with the text put in front. */
  lemma ValueSuffix(u: string, s: string, k: nat, o: string, c: string, shape: Shape, i: nat, j: nat)
    requires k <= |u| && u[k..] == s && i + |o| <= j <= |s|
    ensures Value(u, o, c, shape, k + i, k + j) == Value(s, o, c, shape, i, j)
  {
    assert k + i + |o| == k + (i + |o|);
    assert u[k + i + |o|..k + j] == s[i + |o|..j];
  }
}
