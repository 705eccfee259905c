/**
 * The view's local filter: the dispatch in `filter` between "no filtering", the
 * fuzzy strategy and the per-segment regular-expression strategy, and the two
 * match predicates `rxFilter` and `fuzzyFilter` the pruning walk applies to each
 * node path.
 *
 * The regular-expression engine, the fuzzy matcher, the `ui` selector helpers and
 * the pruning walk `xray.TreeNode.Filter` are collaborators whose code is not part
 * of this model; they are given as function values.
 */
module Filtering {
  import opened Wrappers
  import opened Text
  import opened Tree

  /** The `ui` helpers that classify and rewrite the buffer text. */
  datatype Selectors = Selectors(
    isLabel: string -> bool,     // ui.IsLabelSelector
    isFuzzy: string -> bool,     // ui.IsFuzzySelector
    trimLabel: string -> string) // ui.TrimLabelSelector

  /** The matching engines and the pruning walk. */
  datatype Engines = Engines(
    separator: Separator,                                      // xray.PathSeparator
    compiles: string -> bool,                                  // regexp.MustCompile does not panic
    rxMatch: (string, string) -> bool,                         // compiled pattern matches the text
    fuzzyFind: (string, string) -> bool,                       // fuzzy.Find(pattern, [text]) is non-empty
    prune: (Option<TreeNode>, string, (string, string) --> bool) -> Option<TreeNode>) // xray.TreeNode.Filter

  /** The flag prefixed to every query: matching ignores case. */
  const CaseInsensitive := "(?i)"

  /** The regular expression `rxFilter` compiles for a query. */
  function Pattern(q: string): string {
    CaseInsensitive + q
  }

  /** The loop of `rxFilter`: true as soon as one token matches, false when none does. */
  function AnyMatch(eng: Engines, pattern: string, tokens: seq<string>): (r: bool)
    ensures r <==> exists k :: 0 <= k < |tokens| && eng.rxMatch(pattern, tokens[k])
  {
    if tokens == [] then false
    else if eng.rxMatch(pattern, tokens[0]) then true
    else AnyMatch(eng, pattern, tokens[1..])
  }

  /**
   * `rxFilter`: the path is split on the path separator and the query, compiled
   * case-insensitively, is tried on each segment on its own.
   */
  function RxFilter(eng: Engines, q: string, path: string): bool
    requires eng.compiles(Pattern(q))
  {
    AnyMatch(eng, Pattern(q), Split(path, eng.separator))
  }

  /** A path without a separator is a single segment: the query is tried on the whole path. */
  lemma RxFilterWithoutSeparator(eng: Engines, q: string, path: string)
    requires eng.compiles(Pattern(q))
    requires !Contains(path, eng.separator)
    ensures RxFilter(eng, q, path) == eng.rxMatch(Pattern(q), path)
  {
  }

  /**
   * A path with a separator is never tested as a whole: the filter holds exactly
   * when the query matches one of the segments, each of which is strictly shorter
   * than the path and free of separators; the segments joined back give the path.
   */
  lemma RxFilterTestsSegmentsOnly(eng: Engines, q: string, path: string)
    requires eng.compiles(Pattern(q))
    requires Contains(path, eng.separator)
    ensures Join(Split(path, eng.separator), eng.separator) == path
    ensures RxFilter(eng, q, path) <==>
      exists t :: t in Split(path, eng.separator) && t != path && !Contains(t, eng.separator) &&
        eng.rxMatch(Pattern(q), t)
  {
    JoinSplit(path, eng.separator);
  }

  /**
   * `fuzzyFilter`: the two-character selector prefix is dropped and surrounding
   * white space trimmed before the fuzzy matcher is run against the whole path.
   */
  function FuzzyFilter(eng: Engines, q: string, path: string): bool
    requires |q| >= 2
  {
    eng.fuzzyFind(TrimSpace(q[2..]), path)
  }

  /**
   * What the two prefix characters are and how much white space surrounds the
   * fuzzy pattern makes no difference to `fuzzyFilter`.
   */
  lemma {:induction false} FuzzyFilterIgnoresPrefixAndPadding(
    eng: Engines, prefix: string, lead: string, body: string, trail: string, path: string)
    requires |prefix| == 2 && AllSpace(lead) && AllSpace(trail)
    ensures FuzzyFilter(eng, prefix + lead + body + trail, path) == eng.fuzzyFind(TrimSpace(body), path)
  {
    assert (prefix + lead + body + trail)[2..] == lead + body + trail;
    TrimSpacePadded(lead, body, trail);
  }

  /**
   * `filter`: an empty buffer or a label selector (applied by the watch, not here)
   * gives back the very same root. Any other query prunes the tree with the buffer
   * and a matcher: `fuzzyFilter` for a fuzzy selector, `rxFilter` otherwise. Each
   * matcher is defined on the queries it can run on without a panic.
   */
  function Filter(sel: Selectors, eng: Engines, buffer: string, root: Option<TreeNode>): (r: Option<TreeNode>)
    ensures buffer == "" || sel.isLabel(buffer) ==> r == root
    ensures buffer != "" && !sel.isLabel(buffer) && sel.isFuzzy(buffer) ==>
      exists m :: r == eng.prune(root, buffer, m) &&
        forall q, path :: |q| >= 2 ==> m.requires(q, path) && m(q, path) == FuzzyFilter(eng, q, path)
    ensures buffer != "" && !sel.isLabel(buffer) && !sel.isFuzzy(buffer) ==>
      exists m :: r == eng.prune(root, buffer, m) &&
        forall q, path :: eng.compiles(Pattern(q)) ==> m.requires(q, path) && m(q, path) == RxFilter(eng, q, path)
  {
    if buffer == "" || sel.isLabel(buffer) then
      root
    else if sel.isFuzzy(buffer) then
      var m := (q, path) requires |q| >= 2 => FuzzyFilter(eng, q, path);
      assert forall q, path :: |q| >= 2 ==> m.requires(q, path) && m(q, path) == FuzzyFilter(eng, q, path);
      eng.prune(root, buffer, m)
    else
      var m := (q, path) requires eng.compiles(Pattern(q)) => RxFilter(eng, q, path);
      assert forall q, path :: eng.compiles(Pattern(q)) ==> m.requires(q, path) && m(q, path) == RxFilter(eng, q, path);
      eng.prune(root, buffer, m)
  }
}
