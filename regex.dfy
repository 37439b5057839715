/** A backtracking matcher for the flat regular expressions the indexer uses:
    literals, `*` and `*?` over one character class, and the marks of one
    capturing group. Alternatives are tried in the order of Python's `re`
    engine: a greedy star first takes the longest run and gives characters
    back one at a time, a lazy star first takes nothing and extends one
    character at a time, and `re.search` tries start positions left to right. */
module Regex {
  import opened Wrappers
  import opened Text

  /** `.` (which matches a newline only under DOTALL) and `\s`. */
  datatype CharClass = Dot(dotAll: bool) | Space

  datatype Node =
    | Lit(text: string)                    // a literal string
    | Star(cls: CharClass, greedy: bool)   // `c*` when greedy, `c*?` otherwise
    | GroupOpen                            // `(` of group 1
    | GroupClose                           // `)` of group 1

  /** A compiled pattern: its nodes in order. */
  datatype Pattern = Done | Then(node: Node, rest: Pattern)

  /** Start and end offsets of group 1. */
  datatype Span = Span(lo: nat, hi: nat)

  predicate InClass(cls: CharClass, ch: char) {
    match cls
    case Dot(dotAll) => dotAll || ch != '\n'
    case Space => IsSpace(ch)
  }

  /** The end of the longest run of `cls` characters starting at `pos`. */
  function RunEnd(cls: CharClass, s: string, pos: nat): (e: nat)
    requires pos <= |s|
    ensures pos <= e <= |s|
    ensures e < |s| ==> !InClass(cls, s[e])
    decreases |s| - pos
  {
    if pos < |s| && InClass(cls, s[pos]) then RunEnd(cls, s, pos + 1) else pos
  }

  /** Matches `p` against `s` from `pos` with group state `g`; the group
      state of the first successful path, or None when every path fails. */
  function Match(p: Pattern, s: string, pos: nat, g: Span): Option<Span>
    requires pos <= |s|
    decreases p, 1
  {
    match p
    case Done => Some(g)
    case Then(Lit(t), rest) => if StartsAt(s, pos, t) then Match(rest, s, pos + |t|, g) else None
    case Then(GroupOpen, rest) => Match(rest, s, pos, Span(pos, g.hi))
    case Then(GroupClose, rest) => Match(rest, s, pos, Span(g.lo, pos))
    case Then(Star(cls, greedy), rest) =>
      var n := RunEnd(cls, s, pos) - pos;
      if greedy then Greedy(rest, s, pos, n, g) else Lazy(rest, s, pos, 0, n, g)
  }

  /** A greedy star that has taken `k` characters: try the rest of the
      pattern there, then give one character back. */
  function Greedy(rest: Pattern, s: string, pos: nat, k: nat, g: Span): Option<Span>
    requires pos + k <= |s|
    decreases rest, 2, k
  {
    var r := Match(rest, s, pos + k, g);
    if r.Some? || k == 0 then r else Greedy(rest, s, pos, k - 1, g)
  }

  /** A lazy star that has taken `k` of at most `n` characters: try the rest
      of the pattern there, then take one more. */
  function Lazy(rest: Pattern, s: string, pos: nat, k: nat, n: nat, g: Span): Option<Span>
    requires k <= n && pos + n <= |s|
    decreases rest, 2, n - k
  {
    var r := Match(rest, s, pos + k, g);
    if r.Some? || k == n then r else Lazy(rest, s, pos, k + 1, n, g)
  }

  /** `re.search` from start position `i` on. */
  function SearchFrom(p: Pattern, s: string, i: nat): Option<Span>
    requires i <= |s|
    decreases |s| - i
  {
    var r := Match(p, s, i, Span(i, i));
    if r.Some? || i == |s| then r else SearchFrom(p, s, i + 1)
  }

  function Search(p: Pattern, s: string): Option<Span> {
    SearchFrom(p, s, 0)
  }

  /** The text of group 1, `m.group(1)`. */
  function GroupText(s: string, g: Span): string {
    if g.lo <= g.hi <= |s| then s[g.lo..g.hi] else ""
  }

  /** `re.search(p, s)` followed by `.group(1)`, or None when nothing matches. */
  function SearchGroup(p: Pattern, s: string): Option<string> {
    match Search(p, s)
    case Some(g) => Some(GroupText(s, g))
    case None => None
  }

  /** Every character of the longest run is in the class. */
  lemma {:induction false} RunEndRun(cls: CharClass, s: string, pos: nat, k: nat)
    requires pos <= k && pos <= |s| && k < RunEnd(cls, s, pos)
    ensures InClass(cls, s[k])
    decreases k - pos
  {
    if pos < k {
      RunEndRun(cls, s, pos + 1, k);
    }
  }

  /** A run of `cls` characters from `pos` to `e` is covered by the longest run. */
  lemma RunEndCovers(cls: CharClass, s: string, pos: nat, e: nat)
    requires pos <= e <= |s|
    requires forall k :: pos <= k < e ==> InClass(cls, s[k])
    ensures e <= RunEnd(cls, s, pos)
  {
  }

  /** The longest run stops at the first character outside the class. */
  lemma {:induction false} RunEndMax(cls: CharClass, s: string, pos: nat, e: nat)
    requires pos <= e < |s| && !InClass(cls, s[e])
    ensures RunEnd(cls, s, pos) <= e
    decreases e - pos
  {
    if pos < e {
      RunEndMax(cls, s, pos + 1, e);
    }
  }

  /** The longest run from a position inside a run ends where that run ends. */
  lemma RunEndInside(cls: CharClass, s: string, pos: nat, q: nat)
    requires pos <= |s| && pos <= q <= RunEnd(cls, s, pos)
    ensures RunEnd(cls, s, q) == RunEnd(cls, s, pos)
  {
    var e := RunEnd(cls, s, pos);
    forall k | q <= k < e ensures InClass(cls, s[k]) {
      RunEndRun(cls, s, pos, k);
    }
    RunEndCovers(cls, s, q, e);
    if e < |s| {
      RunEndMax(cls, s, q, e);
    }
  }

  /** A greedy star returns the match of the longest count that succeeds. */
  lemma {:induction false} GreedyFinds(rest: Pattern, s: string, pos: nat, k: nat, g: Span, k': nat)
    requires k' <= k && pos + k <= |s|
    requires Match(rest, s, pos + k', g).Some?
    requires forall q: nat :: pos + k' < q <= pos + k ==> Match(rest, s, q, g).None?
    ensures Greedy(rest, s, pos, k, g) == Match(rest, s, pos + k', g)
    decreases k
  {
    if k != k' {
      assert Match(rest, s, pos + k, g).None?;
      GreedyFinds(rest, s, pos, k - 1, g, k');
    }
  }

  /** A greedy star fails when every count fails. */
  lemma {:induction false} GreedyFails(rest: Pattern, s: string, pos: nat, k: nat, g: Span)
    requires pos + k <= |s|
    requires forall q: nat :: pos <= q <= pos + k ==> Match(rest, s, q, g).None?
    ensures Greedy(rest, s, pos, k, g).None?
    decreases k
  {
    assert Match(rest, s, pos + k, g).None?;
    if k > 0 {
      GreedyFails(rest, s, pos, k - 1, g);
    }
  }

  /** A lazy star returns the match of the shortest count that succeeds. */
  lemma {:induction false} LazyFinds(rest: Pattern, s: string, pos: nat, k: nat, n: nat, g: Span, k': nat)
    requires k <= k' <= n && pos + n <= |s|
    requires Match(rest, s, pos + k', g).Some?
    requires forall q: nat :: pos + k <= q < pos + k' ==> Match(rest, s, q, g).None?
    ensures Lazy(rest, s, pos, k, n, g) == Match(rest, s, pos + k', g)
    decreases n - k
  {
    if k != k' {
      assert Match(rest, s, pos + k, g).None?;
      LazyFinds(rest, s, pos, k + 1, n, g, k');
    }
  }

  /** A lazy star fails when every count fails. */
  lemma {:induction false} LazyFails(rest: Pattern, s: string, pos: nat, k: nat, n: nat, g: Span)
    requires k <= n && pos + n <= |s|
    requires forall q: nat :: pos + k <= q <= pos + n ==> Match(rest, s, q, g).None?
    ensures Lazy(rest, s, pos, k, n, g).None?
    decreases n - k
  {
    assert Match(rest, s, pos + k, g).None?;
    if k < n {
      LazyFails(rest, s, pos, k + 1, n, g);
    }
  }

  /** `re.search` returns the match at the leftmost start that has one. */
  lemma {:induction false} SearchFinds(p: Pattern, s: string, i0: nat, i: nat)
    requires i0 <= i <= |s|
    requires Match(p, s, i, Span(i, i)).Some?
    requires forall q: nat :: i0 <= q < i ==> Match(p, s, q, Span(q, q)).None?
    ensures SearchFrom(p, s, i0) == Match(p, s, i, Span(i, i))
    decreases i - i0
  {
    if i0 < i {
      assert Match(p, s, i0, Span(i0, i0)).None?;
      SearchFinds(p, s, i0 + 1, i);
    }
  }

  /** `re.search` fails when no start position has a match. */
  lemma {:induction false} SearchFails(p: Pattern, s: string, i0: nat)
    requires i0 <= |s|
    requires forall q: nat :: i0 <= q <= |s| ==> Match(p, s, q, Span(q, q)).None?
    ensures SearchFrom(p, s, i0).None?
    decreases |s| - i0
  {
    assert Match(p, s, i0, Span(i0, i0)).None?;
    if i0 < |s| {
      SearchFails(p, s, i0 + 1);
    }
  }
}
