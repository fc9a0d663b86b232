/**
 * The regular-expression search `re.search(r'\[.*\]', text, re.DOTALL)`.
 *
 * The pattern is a literal `[`, then `.*` (any run of characters; with
 * DOTALL `.` also matches a newline), then a literal `]`. `Search` follows
 * what a backtracking engine does: it tries every start position from the
 * left; at a `[` the greedy `.*` first swallows the rest of the text and then
 * gives characters back one at a time until a `]` can follow. The lemmas
 * below show that this is the span from the first `[` of the text to its
 * last `]`, inclusive, and that it exists exactly when some `[` precedes
 * some `]`.
 */
module BracketSearch {
  import opened Wrappers

  /** A half-open range `[start, end)` of positions in a text. */
  datatype Span = Span(start: nat, end: nat)

  /** The pattern matches exactly the text `s[i..j]`. */
  predicate MatchesAt(s: string, i: nat, j: nat) {
    i + 2 <= j <= |s| && s[i] == '[' && s[j - 1] == ']'
  }

  /** Some `[` stands strictly before some `]`. */
  predicate HasBracketPair(s: string) {
    exists i, j :: 0 <= i < j < |s| && s[i] == '[' && s[j] == ']'
  }

  // ---------------------------------------------------------------------
  // The engine

  /** Having matched `[` at `i`, `.*` has given back everything from `p` on;
      try `]` at `p`, then at `p - 1`, and so on down to `i + 1`. The result
      is the end of the match (one past the `]`). */
  function Backtrack(s: string, i: nat, p: nat): Option<nat>
    requires i < |s| && p <= |s|
    decreases p
  {
    if p <= i then None
    else if p < |s| && s[p] == ']' then Some(p + 1)
    else Backtrack(s, i, p - 1)
  }

  /** Try start positions `i`, `i + 1`, ... in turn; the first one at which
      the pattern matches wins. */
  function SearchFrom(s: string, i: nat): Option<Span>
    requires i <= |s|
    decreases |s| - i
  {
    if i == |s| then None
    else if s[i] == '[' then
      match Backtrack(s, i, |s|)
      case Some(e) => Some(Span(i, e))
      case None => SearchFrom(s, i + 1)
    else SearchFrom(s, i + 1)
  }

  /** `re.search(r'\[.*\]', s, re.DOTALL)`: the matched span, or `None`. */
  function Search(s: string): Option<Span> {
    SearchFrom(s, 0)
  }

  /** `.group()` of the search: the matched text, or `None` where Python's
      `.group()` would be called on `None` and raise. */
  function Group(s: string): Option<string> {
    match Search(s)
    case Some(sp) =>
      SearchFromFindsLeftmost(s, 0);
      Some(s[sp.start..sp.end])
    case None => None
  }

  // ---------------------------------------------------------------------
  // The reference: first `[` to last `]`

  /** The position of the first occurrence of `c` in `s`. */
  function FirstIndexOf(s: string, c: char): (r: Option<nat>)
    ensures r.Some? ==> r.value < |s| && s[r.value] == c
    ensures r.Some? ==> forall k :: 0 <= k < r.value ==> s[k] != c
    ensures r.None? <==> c !in s
  {
    if |s| == 0 then None
    else if s[0] == c then Some(0)
    else
      match FirstIndexOf(s[1..], c)
      case Some(k) => Some(k + 1)
      case None => None
  }

  /** The position of the last occurrence of `c` in `s`. */
  function LastIndexOf(s: string, c: char): (r: Option<nat>)
    ensures r.Some? ==> r.value < |s| && s[r.value] == c
    ensures r.Some? ==> forall k :: r.value < k < |s| ==> s[k] != c
    ensures r.None? <==> c !in s
  {
    if |s| == 0 then None
    else if s[|s| - 1] == c then Some(|s| - 1)
    else LastIndexOf(s[..|s| - 1], c)
  }

  /** The span from the first `[` to the last `]`, inclusive, when the
      first `[` comes before the last `]`. */
  function FirstToLast(s: string): Option<Span> {
    match (FirstIndexOf(s, '['), LastIndexOf(s, ']'))
    case (Some(b), Some(l)) => if b < l then Some(Span(b, l + 1)) else None
    case _ => None
  }

  // ---------------------------------------------------------------------
  // What the engine computes

  /** Backtracking from `p` finds the rightmost `]` in `(i, p]`, if any. */
  lemma {:induction false} BacktrackFindsRightmost(s: string, i: nat, p: nat)
    requires i < |s| && p <= |s|
    ensures Backtrack(s, i, p).None? ==> forall q :: i < q <= p && q < |s| ==> s[q] != ']'
    ensures Backtrack(s, i, p).Some? ==>
      var e := Backtrack(s, i, p).value;
      && i + 2 <= e <= |s| && e <= p + 1 && s[e - 1] == ']'
      && forall q :: e <= q <= p && q < |s| ==> s[q] != ']'
    decreases p
  {
    if p <= i {
    } else if p < |s| && s[p] == ']' {
    } else {
      BacktrackFindsRightmost(s, i, p - 1);
    }
  }

  /** Searching from `i` finds the first `[` at or after `i` that has a `]`
      after it, and the match ends at the last `]` of the text. */
  lemma {:induction false} SearchFromFindsLeftmost(s: string, i: nat)
    requires i <= |s|
    ensures SearchFrom(s, i).None? ==>
      forall a, b :: i <= a < b < |s| ==> !(s[a] == '[' && s[b] == ']')
    ensures SearchFrom(s, i).Some? ==>
      var sp := SearchFrom(s, i).value;
      && i <= sp.start
      && MatchesAt(s, sp.start, sp.end)
      && (forall a :: i <= a < sp.start ==> s[a] != '[')
      && (forall q :: sp.end <= q < |s| ==> s[q] != ']')
    decreases |s| - i
  {
    if i == |s| {
    } else if s[i] == '[' {
      BacktrackFindsRightmost(s, i, |s|);
      if Backtrack(s, i, |s|).None? {
        SearchFromFindsLeftmost(s, i + 1);
      }
    } else {
      SearchFromFindsLeftmost(s, i + 1);
    }
  }

  /** A match exists exactly when some `[` precedes some `]`. */
  lemma SearchSucceedsIff(s: string)
    ensures Search(s).Some? <==> HasBracketPair(s)
  {
    SearchFromFindsLeftmost(s, 0);
    if Search(s).Some? {
      var sp := Search(s).value;
      assert s[sp.start] == '[' && s[sp.end - 1] == ']';
    }
  }

  /** The match runs from the first `[` of the text to its last `]`. */
  lemma SearchIsFirstToLast(s: string)
    ensures Search(s) == FirstToLast(s)
  {
    SearchFromFindsLeftmost(s, 0);
    var first, last := FirstIndexOf(s, '['), LastIndexOf(s, ']');
    match Search(s)
    case Some(sp) =>
      assert s[sp.start] == '[' && s[sp.end - 1] == ']';
      assert first == Some(sp.start);
      assert last == Some(sp.end - 1);
    case None =>
  }

  /** Among all spans the pattern matches, the search picks the leftmost
      start and, for it, the longest one; in fact every match lies inside it. */
  lemma SearchIsLeftmostLongest(s: string)
    ensures Search(s).Some? ==>
      var sp := Search(s).value;
      && MatchesAt(s, sp.start, sp.end)
      && forall i: nat, j: nat :: MatchesAt(s, i, j) ==> sp.start <= i && j <= sp.end
  {
    SearchFromFindsLeftmost(s, 0);
  }

  /** The matched text is a contiguous piece of the response that begins
      with `[` and ends with `]`. */
  lemma GroupIsBracketedSlice(s: string)
    ensures Group(s).Some? <==> HasBracketPair(s)
    ensures Group(s).Some? ==>
      && Search(s).Some?
      && var sp, g := Search(s).value, Group(s).value;
         && sp.start + 2 <= sp.end <= |s|
         && g == s[sp.start..sp.end]
         && |g| >= 2 && g[0] == '[' && g[|g| - 1] == ']'
  {
    SearchFromFindsLeftmost(s, 0);
    SearchSucceedsIff(s);
  }

  /** With DOTALL, `.` matches a newline, so a newline anywhere between the
      first `[` and the last `]` is kept, at its place, in the matched text. */
  lemma NewlineKept(s: string, b: nat, l: nat, k: nat)
    requires FirstIndexOf(s, '[') == Some(b) && LastIndexOf(s, ']') == Some(l)
    requires b < k < l && s[k] == '\n'
    ensures Group(s).Some? && k - b < |Group(s).value| && Group(s).value[k - b] == '\n'
  {
    SearchIsFirstToLast(s);
  }

  /** Text around the bracketed part is ignored, as long as the text before
      has no `[` and the text after has no `]`. */
  lemma SurroundingTextIgnored(before: string, g: string, after: string)
    requires '[' !in before && ']' !in after
    requires |g| >= 2 && g[0] == '[' && g[|g| - 1] == ']'
    ensures Group(before + g + after) == Some(g)
  {
    var s := before + g + after;
    assert s[|before|] == '[';
    assert s[|before| + |g| - 1] == ']';
    assert forall k :: 0 <= k < |before| ==> s[k] == before[k];
    assert forall k :: |before| + |g| <= k < |s| ==> s[k] == after[k - |before| - |g|];
    SearchIsFirstToLast(s);
    assert FirstIndexOf(s, '[') == Some(|before|);
    assert LastIndexOf(s, ']') == Some(|before| + |g| - 1);
    assert s[|before|..|before| + |g|] == g;
  }
}
