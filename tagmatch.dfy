/** The two pattern shapes of the indexer, run through the matcher, meet the
    declarative specification of TagSpec. */
module TagMatch {
  import opened Wrappers
  import opened Text
  import opened Regex
  import opened TagSpec

  /** `o\s*(.*?)\s*c`, compiled without DOTALL. */
  function TrimmedPattern(o: string, c: string): Pattern {
    Then(Lit(o), Then(Star(Space, true),
      Then(GroupOpen, Then(Star(Dot(false), false), Then(GroupClose,
        Then(Star(Space, true), Then(Lit(c), Done)))))))
  }

  /** `o(.*?)c`, compiled with DOTALL. */
  function VerbatimPattern(o: string, c: string): Pattern {
    Then(Lit(o), Then(GroupOpen, Then(Star(Dot(true), false), VerbatimTail(c))))
  }

  function PatternFor(o: string, c: string, shape: Shape): Pattern {
    if shape == Trimmed then TrimmedPattern(o, c) else VerbatimPattern(o, c)
  }

  /** `)c`: the tail of the verbatim pattern after the lazy group body. */
  function VerbatimTail(c: string): Pattern {
    Then(GroupClose, Then(Lit(c), Done))
  }

  /** `)\s*c`: the tail of the trimmed pattern after the lazy group body. */
  function CloseTail(c: string): Pattern {
    Then(GroupClose, Then(Star(Space, true), Then(Lit(c), Done)))
  }

  /** `(.*?)\s*c`: the tail of the trimmed pattern after the first `\s*`. */
  function LazyTail(c: string): Pattern {
    Then(GroupOpen, Then(Star(Dot(false), false), CloseTail(c)))
  }

  /** A closing tag cannot start on a whitespace character. */
  lemma SpaceBlocksTag(s: string, c: string, q: nat)
    requires TagReady(c) && q < |s| && IsSpace(s[q])
    ensures !StartsAt(s, q, c)
  {
    if q + |c| <= |s| {
      assert s[q..q + |c|][0] == s[q];
    }
  }

  /** The literal `c` at the end of a pattern. Stated on its own so that
      callers see `Match` unfolded two levels deep without raising fuel. */
  lemma LitDoneStep(s: string, c: string, q: nat, g: Span)
    requires q <= |s|
    ensures Match(Then(Lit(c), Done), s, q, g) == if StartsAt(s, q, c) then Some(g) else None
  {
  }

  /** Inside a whitespace run the final literal `c` cannot start. */
  lemma LitDoneFailsInSpace(s: string, c: string, q: nat, g: Span)
    requires TagReady(c) && q <= |s|
    ensures forall q': nat :: q <= q' < RunEnd(Space, s, q) ==> Match(Then(Lit(c), Done), s, q', g).None?
  {
    forall q': nat | q <= q' < RunEnd(Space, s, q)
      ensures Match(Then(Lit(c), Done), s, q', g).None?
    {
      RunEndRun(Space, s, q, q');
      SpaceBlocksTag(s, c, q');
      LitDoneStep(s, c, q', g);
    }
  }

  /** `)\s*c` at `q` succeeds exactly when `c` follows the whitespace run at `q`. */
  lemma CloseTailStep(s: string, c: string, q: nat, g: Span)
    requires TagReady(c) && q <= |s|
    ensures Match(CloseTail(c), s, q, g)
         == if StartsAt(s, RunEnd(Space, s, q), c) then Some(Span(g.lo, q)) else None
  {
    if StartsAt(s, RunEnd(Space, s, q), c) {
      CloseTailFound(s, c, q, Span(g.lo, q));
    } else {
      CloseTailMissing(s, c, q, Span(g.lo, q));
    }
  }

  lemma CloseTailFound(s: string, c: string, q: nat, g: Span)
    requires q <= |s| && StartsAt(s, RunEnd(Space, s, q), c)
    ensures Greedy(Then(Lit(c), Done), s, q, RunEnd(Space, s, q) - q, g) == Some(g)
  {
    var e := RunEnd(Space, s, q);
    assert q + (e - q) == e;
    LitDoneStep(s, c, e, g);
  }

  lemma CloseTailMissing(s: string, c: string, q: nat, g: Span)
    requires TagReady(c) && q <= |s| && !StartsAt(s, RunEnd(Space, s, q), c)
    ensures Greedy(Then(Lit(c), Done), s, q, RunEnd(Space, s, q) - q, g).None?
  {
    var e := RunEnd(Space, s, q);
    LitDoneFailsInSpace(s, c, q, g);
    LitDoneStep(s, c, e, g);
    GreedyFails(Then(Lit(c), Done), s, q, e - q, g);
  }

  /** A path of the trimmed pattern that reaches `q` and finds `c` after the
      whitespace there is an admitted pair. */
  lemma TrimmedCandidate(s: string, o: string, c: string, i: nat, p: nat, q: nat)
    requires StartsAt(s, i, o) && i + |o| <= p <= q <= |s|
    requires p <= RunEnd(Space, s, i + |o|)
    requires q <= RunEnd(Dot(false), s, p)
    ensures StartsAt(s, RunEnd(Space, s, q), c) ==> Admits(s, o, c, Trimmed, i, RunEnd(Space, s, q))
  {
    var j := RunEnd(Space, s, q);
    PathNoNewline(s, i + |o|, p, q);
    assert q <= j;
  }

  /** The text a path of `\s*(.*?)\s*` without DOTALL consumes strips to a
      value without a newline. */
  lemma PathNoNewline(s: string, m0: nat, p: nat, q: nat)
    requires m0 <= p <= q <= |s|
    requires p <= RunEnd(Space, s, m0)
    requires q <= RunEnd(Dot(false), s, p)
    ensures '\n' !in Strip(s[m0..RunEnd(Space, s, q)])
  {
    var j := RunEnd(Space, s, q);
    SpaceRun(s, m0, p);
    SpaceRun(s, q, j);
    LineRun(s, p, q);
    StripLineBetweenSpace(s, m0, p, q, j);
  }

  lemma StripLineBetweenSpace(s: string, lo: nat, x: nat, y: nat, hi: nat)
    requires lo <= x <= y <= hi <= |s|
    requires AllSpace(s, lo, x) && AllSpace(s, y, hi)
    requires '\n' !in s[x..y]
    ensures '\n' !in Strip(s[lo..hi])
  {
    StripIgnoresSpace(s, lo, x, y, hi);
    StripKeepsNoNewline(s, x, y);
  }

  /** Inside the run `\s*` takes, every character is whitespace. */
  lemma SpaceRun(s: string, pos: nat, x: nat)
    requires pos <= |s| && pos <= x <= RunEnd(Space, s, pos)
    ensures AllSpace(s, pos, x)
  {
    forall k | pos <= k < x ensures IsSpace(s[k]) {
      RunEndRun(Space, s, pos, k);
    }
  }

  /** Inside the run `.*?` can take without DOTALL, there is no newline. */
  lemma LineRun(s: string, p: nat, q: nat)
    requires p <= |s| && p <= q <= RunEnd(Dot(false), s, p)
    ensures '\n' !in s[p..q]
  {
    forall k | 0 <= k < q - p ensures s[p..q][k] != '\n' {
      assert s[p..q][k] == s[p + k];
      RunEndRun(Dot(false), s, p, p + k);
    }
  }

  lemma TrimmedAtNone(s: string, o: string, c: string, i: nat, g: Span)
    requires TagReady(c) && i <= |s|
    requires forall j: nat :: !Admits(s, o, c, Trimmed, i, j)
    ensures Match(TrimmedPattern(o, c), s, i, g).None?
  {
    if StartsAt(s, i, o) {
      var m0 := i + |o|;
      var e1 := RunEnd(Space, s, m0);
      forall p: nat | m0 <= p <= e1
        ensures Match(LazyTail(c), s, p, g).None?
      {
        var ep := RunEnd(Dot(false), s, p);
        forall q: nat | p <= q <= ep
          ensures Match(CloseTail(c), s, q, Span(p, g.hi)).None?
        {
          CloseTailStep(s, c, q, Span(p, g.hi));
          TrimmedCandidate(s, o, c, i, p, q);
        }
        LazyFails(CloseTail(c), s, p, 0, ep - p, Span(p, g.hi));
      }
      GreedyFails(LazyTail(c), s, m0, e1 - m0, g);
    }
  }

  /** A whitespace run from `lo` that stops at a non-whitespace index `a`
      (or at `hi`, followed by one) is the longest run. */
  lemma SpaceRunStops(s: string, lo: nat, a: nat, hi: nat)
    requires lo <= a <= hi < |s| && !IsSpace(s[hi])
    requires AllSpace(s, lo, a) && (a < hi ==> !IsSpace(s[a]))
    ensures RunEnd(Space, s, lo) == a
  {
    RunEndCovers(Space, s, lo, a);
    RunEndMax(Space, s, lo, a);
  }

  /** A stretch without a newline lies inside the run of `.` without DOTALL. */
  lemma LineCovers(s: string, a: nat, b: nat)
    requires a <= b <= |s| && '\n' !in s[a..b]
    ensures b <= RunEnd(Dot(false), s, a)
  {
    NotInSlice(s, a, b, '\n');
    RunEndCovers(Dot(false), s, a, b);
  }

  /** Where the pieces of the trimmed pattern fall for an admitted pair: the
      first `\s*` ends where the stripped value begins, the lazy group can
      reach its end, and the second `\s*` runs from there to the closing tag. */
  lemma TrimmedLayout(s: string, o: string, c: string, i: nat, j: nat)
    requires TagReady(c) && Admits(s, o, c, Trimmed, i, j)
    ensures var a := LeadEnd(s, i + |o|, j);
            var b := TrailStart(s, a, j);
            && RunEnd(Space, s, i + |o|) == a
            && RunEnd(Space, s, b) == j
            && b <= RunEnd(Dot(false), s, a)
            && Strip(s[i + |o|..j]) == s[a..b]
  {
    var m0 := i + |o|;
    var a := LeadEnd(s, m0, j);
    var b := TrailStart(s, a, j);
    StripBounds(s, m0, j);
    TagStartsSolid(s, c, j);
    LeadRunStops(s, m0, j);
    TrailRunStops(s, a, j);
    StripOnOneLine(s, m0, j);
  }

  /** A stripped slice without a newline is covered by the run of `.` from
      its first character. */
  lemma StripOnOneLine(s: string, lo: nat, hi: nat)
    requires lo <= hi <= |s| && '\n' !in Strip(s[lo..hi])
    ensures TrailStart(s, LeadEnd(s, lo, hi), hi) <= RunEnd(Dot(false), s, LeadEnd(s, lo, hi))
  {
    StripBounds(s, lo, hi);
    LineCovers(s, LeadEnd(s, lo, hi), TrailStart(s, LeadEnd(s, lo, hi), hi));
  }

  /** The whitespace run after the opening tag ends where the value starts. */
  lemma LeadRunStops(s: string, lo: nat, j: nat)
    requires lo <= j < |s| && !IsSpace(s[j])
    ensures RunEnd(Space, s, lo) == LeadEnd(s, lo, j)
  {
    SpaceRunStops(s, lo, LeadEnd(s, lo, j), j);
  }

  /** The whitespace run after the value ends at the closing tag. */
  lemma TrailRunStops(s: string, a: nat, j: nat)
    requires a <= j < |s| && !IsSpace(s[j])
    ensures RunEnd(Space, s, TrailStart(s, a, j)) == j
  {
    SpaceRunStops(s, TrailStart(s, a, j), j, j);
  }

  /** Before the end of the stripped value of the first admitted pair, no
      whitespace run is followed by the closing tag: that would admit an
      earlier closing tag. */
  lemma NoTagBeforeTrail(s: string, o: string, c: string, i: nat, j: nat, a: nat, b: nat, q: nat)
    requires StartsAt(s, i, o) && i + |o| <= a <= q < b <= j <= |s|
    requires a <= RunEnd(Space, s, i + |o|) && b <= RunEnd(Dot(false), s, a) && !IsSpace(s[b - 1])
    requires forall j': nat :: Admits(s, o, c, Trimmed, i, j') ==> j <= j'
    ensures !StartsAt(s, RunEnd(Space, s, q), c)
  {
    RunEndMax(Space, s, q, b - 1);
    if StartsAt(s, RunEnd(Space, s, q), c) {
      TrimmedCandidate(s, o, c, i, a, q);
    }
  }

  /** The lazy group started at `a` stops at the first `b` whose whitespace
      run is followed by the closing tag. */
  lemma LazyTailFinds(s: string, c: string, a: nat, b: nat, g: Span)
    requires TagReady(c) && a <= |s| && a <= b <= RunEnd(Dot(false), s, a)
    requires StartsAt(s, RunEnd(Space, s, b), c)
    requires forall q: nat :: a <= q < b ==> !StartsAt(s, RunEnd(Space, s, q), c)
    ensures Match(LazyTail(c), s, a, g) == Some(Span(a, b))
  {
    var ep := RunEnd(Dot(false), s, a);
    var g' := Span(a, g.hi);
    CloseTailStep(s, c, b, g');
    forall q: nat | a <= q < b
      ensures Match(CloseTail(c), s, q, g').None?
    {
      CloseTailStep(s, c, q, g');
    }
    LazyFinds(CloseTail(c), s, a, 0, ep - a, g', b - a);
  }

  lemma TrimmedNoEarlierTags(s: string, o: string, c: string, i: nat, j: nat)
    requires TagReady(c) && Admits(s, o, c, Trimmed, i, j)
    requires forall j': nat :: Admits(s, o, c, Trimmed, i, j') ==> j <= j'
    ensures var a := LeadEnd(s, i + |o|, j);
            forall q: nat :: a <= q < TrailStart(s, a, j) ==> !StartsAt(s, RunEnd(Space, s, q), c)
  {
    var a := LeadEnd(s, i + |o|, j);
    var b := TrailStart(s, a, j);
    TrimmedLayout(s, o, c, i, j);
    NoTagsBeforeTrail(s, o, c, i, j, a, b);
  }

  lemma NoTagsBeforeTrail(s: string, o: string, c: string, i: nat, j: nat, a: nat, b: nat)
    requires StartsAt(s, i, o) && i + |o| <= a <= b <= j <= |s|
    requires a <= RunEnd(Space, s, i + |o|) && b <= RunEnd(Dot(false), s, a)
    requires a < b ==> !IsSpace(s[b - 1])
    requires forall j': nat :: Admits(s, o, c, Trimmed, i, j') ==> j <= j'
    ensures forall q: nat :: a <= q < b ==> !StartsAt(s, RunEnd(Space, s, q), c)
  {
    forall q: nat | a <= q < b
      ensures !StartsAt(s, RunEnd(Space, s, q), c)
    {
      NoTagBeforeTrail(s, o, c, i, j, a, b, q);
    }
  }

  /** The trimmed pattern at `i`: the first `\s*` keeps its whole run when the
      lazy tail succeeds right after it. */
  lemma TrimmedMatchAt(s: string, o: string, c: string, i: nat, a: nat, r: Span, g: Span)
    requires StartsAt(s, i, o) && RunEnd(Space, s, i + |o|) == a
    requires Match(LazyTail(c), s, a, g) == Some(r)
    ensures Match(TrimmedPattern(o, c), s, i, g) == Some(r)
  {
    GreedyFinds(LazyTail(c), s, i + |o|, a - (i + |o|), g, a - (i + |o|));
  }

  lemma TrimmedAtFirst(s: string, o: string, c: string, i: nat, j: nat, g: Span)
    requires TagReady(c) && Admits(s, o, c, Trimmed, i, j)
    requires forall j': nat :: Admits(s, o, c, Trimmed, i, j') ==> j <= j'
    ensures var r := Match(TrimmedPattern(o, c), s, i, g);
            r.Some? && r.value.lo <= r.value.hi <= |s|
            && s[r.value.lo..r.value.hi] == Strip(s[i + |o|..j])
  {
    var a := LeadEnd(s, i + |o|, j);
    var b := TrailStart(s, a, j);
    TrimmedLayout(s, o, c, i, j);
    TrimmedNoEarlierTags(s, o, c, i, j);
    LazyTailFinds(s, c, a, b, g);
    TrimmedMatchAt(s, o, c, i, a, Span(a, b), g);
  }

  lemma VerbatimStep(s: string, o: string, c: string, i: nat, g: Span)
    requires i <= |s|
    ensures Match(VerbatimPattern(o, c), s, i, g)
         == if StartsAt(s, i, o)
            then Lazy(VerbatimTail(c), s, i + |o|, 0, |s| - (i + |o|), Span(i + |o|, g.hi))
            else None
  {
    if StartsAt(s, i, o) {
      var m0 := i + |o|;
      var body := Then(Star(Dot(true), false), VerbatimTail(c));
      assert Match(VerbatimPattern(o, c), s, i, g) == Match(Then(GroupOpen, body), s, m0, g);
      assert Match(Then(GroupOpen, body), s, m0, g) == Match(body, s, m0, Span(m0, g.hi));
      RunEndCovers(Dot(true), s, m0, |s|);
    }
  }

  lemma VerbatimCloseStep(s: string, c: string, q: nat, g: Span)
    requires q <= |s|
    ensures Match(VerbatimTail(c), s, q, g) == if StartsAt(s, q, c) then Some(Span(g.lo, q)) else None
  {
    LitDoneStep(s, c, q, Span(g.lo, q));
  }

  lemma VerbatimAtNone(s: string, o: string, c: string, i: nat, g: Span)
    requires i <= |s|
    requires forall j: nat :: !Admits(s, o, c, Verbatim, i, j)
    ensures Match(VerbatimPattern(o, c), s, i, g).None?
  {
    VerbatimStep(s, o, c, i, g);
    if StartsAt(s, i, o) {
      var m0 := i + |o|;
      forall q: nat | m0 <= q <= |s|
        ensures Match(VerbatimTail(c), s, q, Span(m0, g.hi)).None?
      {
        VerbatimCloseStep(s, c, q, Span(m0, g.hi));
        assert StartsAt(s, q, c) ==> Admits(s, o, c, Verbatim, i, q);
      }
      LazyFails(VerbatimTail(c), s, m0, 0, |s| - m0, Span(m0, g.hi));
    }
  }

  lemma VerbatimAtFirst(s: string, o: string, c: string, i: nat, j: nat, g: Span)
    requires Admits(s, o, c, Verbatim, i, j)
    requires forall j': nat :: Admits(s, o, c, Verbatim, i, j') ==> j <= j'
    ensures var r := Match(VerbatimPattern(o, c), s, i, g);
            r.Some? && r.value.lo <= r.value.hi <= |s|
            && s[r.value.lo..r.value.hi] == s[i + |o|..j]
  {
    var m0 := i + |o|;
    var g' := Span(m0, g.hi);
    forall q: nat | m0 <= q < j
      ensures Match(VerbatimTail(c), s, q, g').None?
    {
      VerbatimCloseStep(s, c, q, g');
      assert StartsAt(s, q, c) ==> Admits(s, o, c, Verbatim, i, q);
    }
    VerbatimCloseStep(s, c, j, g');
    LazyFinds(VerbatimTail(c), s, m0, 0, |s| - m0, g', j - m0);
    VerbatimStep(s, o, c, i, g);
  }

  lemma AtNone(s: string, o: string, c: string, shape: Shape, i: nat)
    requires shape == Trimmed ==> TagReady(c)
    requires i <= |s|
    requires forall j: nat :: !Admits(s, o, c, shape, i, j)
    ensures Match(PatternFor(o, c, shape), s, i, Span(i, i)).None?
  {
    if shape == Trimmed {
      TrimmedAtNone(s, o, c, i, Span(i, i));
    } else {
      VerbatimAtNone(s, o, c, i, Span(i, i));
    }
  }

  /** `re.search(...).group(1)` returns the value of the first admitted pair. */
  lemma FindFirst(s: string, o: string, c: string, shape: Shape, i: nat, j: nat)
    requires shape == Trimmed ==> TagReady(c)
    requires FirstAdmitted(s, o, c, shape, i, j)
    ensures SearchGroup(PatternFor(o, c, shape), s) == Some(Value(s, o, c, shape, i, j))
  {
    var p := PatternFor(o, c, shape);
    forall q: nat | q < i
      ensures Match(p, s, q, Span(q, q)).None?
    {
      AtNone(s, o, c, shape, q);
    }
    if shape == Trimmed {
      TrimmedAtFirst(s, o, c, i, j, Span(i, i));
    } else {
      VerbatimAtFirst(s, o, c, i, j, Span(i, i));
    }
    SearchFinds(p, s, 0, i);
  }

  /** `re.search` returns None exactly when no pair is admitted. */
  lemma FindNone(s: string, o: string, c: string, shape: Shape)
    requires shape == Trimmed ==> TagReady(c)
    requires forall i: nat, j: nat :: !Admits(s, o, c, shape, i, j)
    ensures SearchGroup(PatternFor(o, c, shape), s) == None
  {
    var p := PatternFor(o, c, shape);
    forall q: nat | q <= |s|
      ensures Match(p, s, q, Span(q, q)).None?
    {
      AtNone(s, o, c, shape, q);
    }
    SearchFails(p, s, 0);
  }

  /** Text in front in which no opening tag begins, not even one that runs on
      into the rest, does not change the result of the search: `s` is the
      suffix of `u` from `k`. */
  lemma SearchSuffix(u: string, s: string, k: nat, o: string, c: string, shape: Shape)
    requires shape == Trimmed ==> TagReady(c)
    requires k <= |u| && u[k..] == s
    requires forall k' :: 0 <= k' < k ==> !StartsAt(u, k', o)
    ensures SearchGroup(PatternFor(o, c, shape), u) == SearchGroup(PatternFor(o, c, shape), s)
  {
    if i: nat, j: nat :| Admits(s, o, c, shape, i, j) {
      FirstAdmittedExists(s, o, c, shape, i, j);
      var i': nat, j': nat :| FirstAdmitted(s, o, c, shape, i', j');
      SearchSuffixFound(u, s, k, o, c, shape, i', j');
    } else {
      NoAdmittedSuffix(u, s, k, o, c, shape);
      FindNone(s, o, c, shape);
      FindNone(u, o, c, shape);
    }
  }

  lemma SearchSuffixFound(u: string, s: string, k: nat, o: string, c: string, shape: Shape, i: nat, j: nat)
    requires shape == Trimmed ==> TagReady(c)
    requires k <= |u| && u[k..] == s
    requires forall k' :: 0 <= k' < k ==> !StartsAt(u, k', o)
    requires FirstAdmitted(s, o, c, shape, i, j)
    ensures SearchGroup(PatternFor(o, c, shape), u) == SearchGroup(PatternFor(o, c, shape), s)
  {
    FirstAdmittedSuffix(u, s, k, o, c, shape, i, j);
    FindFirstShifted(u, k, o, c, shape, i, j);
    FindFirst(s, o, c, shape, i, j);
    ValueSuffix(u, s, k, o, c, shape, i, j);
  }

  /** `FindFirst` for a pair given by its offsets from `k`. It keeps the
      facts about `s` out of the proof of `FindFirst` on `u`, which is too
      costly for the solver when made in `SearchSuffixFound` directly. */
  lemma FindFirstShifted(u: string, k: nat, o: string, c: string, shape: Shape, i: nat, j: nat)
    requires shape == Trimmed ==> TagReady(c)
    requires FirstAdmitted(u, o, c, shape, k + i, k + j)
    ensures SearchGroup(PatternFor(o, c, shape), u) == Some(Value(u, o, c, shape, k + i, k + j))
  {
    FindFirst(u, o, c, shape, k + i, k + j);
  }

  /** Text after an admitted pair does not change the result of the search. */
  lemma SearchAppend(s: string, t: string, o: string, c: string, shape: Shape, i: nat, j: nat)
    requires shape == Trimmed ==> TagReady(c)
    requires Admits(s, o, c, shape, i, j)
    ensures SearchGroup(PatternFor(o, c, shape), s + t) == SearchGroup(PatternFor(o, c, shape), s)
  {
    FirstAdmittedExists(s, o, c, shape, i, j);
    var i': nat, j': nat :| FirstAdmitted(s, o, c, shape, i', j');
    FirstAdmittedAppend(s, t, o, c, shape, i', j');
    ValueAppend(s, t, o, c, shape, i', j');
    FindFirst(s, o, c, shape, i', j');
    FindFirst(s + t, o, c, shape, i', j');
  }
}
