/** Rules and their application: `match`, `defineRule`, `definePatternRule`,
    `canApplyRule` and `applyRule` (lib/matcher.js and, split over two
    files, lib/rule.js with lib/pattern.js). */
module Rule {
  import opened Wrappers
  import opened Nodes
  import opened Traverse
  import opened Utils
  import opened Matcher
  import opened Populate

  /** What a match function returns for one node: `null`, or a record.
      `hasNode` says whether the record carries the visited node as its
      `node` field (pattern rules always do); a record without it makes
      `applyRule` return its input. */
  datatype MatchAnswer =
    | Null
    | Record(hasNode: bool, placeholders: Bindings, indexes: Indexes)

  type MatchFn = Node -> MatchAnswer

  /** A rewrite function gets the matched node, the table and the indexes;
      an error stands for a throw while populating. */
  type RewriteFn = (Node, Bindings, Indexes) -> Result<Node, Error>

  datatype Rule = Rule(matchFn: MatchFn, rewriteFn: RewriteFn, constraints: Constraints)

  /** A non-null answer and the position of the node that gave it. */
  datatype Located = Located(path: Path, answer: MatchAnswer)

  // ---------------------------------------------------------------------
  // match: the first non-null answer in post-order

  /** The children searched before the one that answers hold no answer. */
  lemma {:induction false} SearchChildrenSkips(f: MatchFn, t: Node, k: nat, j: nat)
    requires k <= j < |Children(t)|
    requires SearchChildren(f, t, k).Some? && j < SearchChildren(f, t, k).value.path[0]
    ensures Search(f, Children(t)[j]).None?
    decreases |Children(t)| - k
  {
    if j > k && Search(f, Children(t)[k]).None? {
      SearchChildrenSkips(f, t, k + 1, j);
    }
  }

  /** `match(matchFn, input)`: children are searched left to right before
      the node itself, so the first answer of a post-order walk wins. */
  function Search(f: MatchFn, t: Node): (r: Option<Located>)
    ensures r.Some? ==> ValidPath(t, r.value.path) && r.value.answer != Null &&
                        r.value.answer == f(At(t, r.value.path))
    decreases Size(t), 1
  {
    match SearchChildren(f, t, 0)
    case Some(l) => Some(l)
    case None => if f(t) != Null then Some(Located([], f(t))) else None
  }

  /** Searching the children of `t` from child `k` on. */
  function SearchChildren(f: MatchFn, t: Node, k: nat): (r: Option<Located>)
    requires k <= |Children(t)|
    ensures r.None? ==> forall j :: k <= j < |Children(t)| ==> Search(f, Children(t)[j]).None?
    ensures r.Some? ==>
      var p := r.value.path;
      p != [] && k <= p[0] < |Children(t)| &&
      Search(f, Children(t)[p[0]]) == Some(Located(p[1..], r.value.answer))
    decreases Size(t), 0, |Children(t)| - k
  {
    var cs := Children(t);
    if k == |cs| then None
    else
      var s := Search(f, cs[k]);
      if s.Some? then
        var l := s.value;
        assert ([k] + l.path)[1..] == l.path;
        Some(Located([k] + l.path, l.answer))
      else
        var r := SearchChildren(f, t, k + 1);
        assert r.Some? ==> k < r.value.path[0];
        r
  }

  /** The traversal of `match`: a post-order walk whose `leave` callback
      records the first non-null answer and ignores all later ones. */
  method Match(f: MatchFn, t: Node) returns (result: Option<Located>)
    ensures result == Search(f, t)
    decreases Size(t)
  {
    result := None;
    var cs := Children(t);
    var k := 0;
    while k < |cs|
      invariant k <= |cs|
      invariant result.None? ==> SearchChildren(f, t, 0) == SearchChildren(f, t, k)
      invariant result.Some? ==> result == SearchChildren(f, t, 0)
    {
      var inner := Match(f, cs[k]);
      if result.None? && inner.Some? {
        result := Some(Located([k] + inner.value.path, inner.value.answer));
      }
      k := k + 1;
    }
    if result.None? && f(t) != Null {
      result := Some(Located([], f(t)));
    }
  }

  /** No answer at all exactly when every node of the tree answers null. */
  lemma {:induction false} SearchNoneIffAllNull(f: MatchFn, t: Node)
    ensures Search(f, t).None? ==> forall q :: ValidPath(t, q) ==> f(At(t, q)) == Null
    ensures Search(f, t).Some? ==> exists q :: ValidPath(t, q) && f(At(t, q)) != Null
    decreases Size(t)
  {
    if Search(f, t).None? {
      assert SearchChildren(f, t, 0).None?;
      forall q | ValidPath(t, q) ensures f(At(t, q)) == Null {
        if q != [] {
          var child := Children(t)[q[0]];
          assert Search(f, child).None?;
          SearchNoneIffAllNull(f, child);
          assert At(t, q) == At(child, q[1..]);
        }
      }
    } else {
      var l := Search(f, t).value;
      assert ValidPath(t, l.path) && f(At(t, l.path)) != Null;
    }
  }

  /** Innermost first: no proper descendant of the matched node answers. */
  lemma {:induction false} SearchInnermost(f: MatchFn, t: Node, q: Path)
    requires Search(f, t).Some?
    requires q != [] && ValidPath(At(t, Search(f, t).value.path), q)
    ensures f(At(At(t, Search(f, t).value.path), q)) == Null
    decreases Size(t)
  {
    var l := Search(f, t).value;
    if l.path == [] {
      assert SearchChildren(f, t, 0).None?;
      var child := Children(t)[q[0]];
      assert Search(f, child).None?;
      SearchNoneIffAllNull(f, child);
      assert At(t, q) == At(child, q[1..]);
    } else {
      var k := l.path[0];
      assert SearchChildren(f, t, 0).Some?;
      SearchInnermost(f, Children(t)[k], q);
    }
  }

  /** `q` lies to the left of `p`: they part ways at an index where `q`
      takes the smaller child. */
  predicate LeftOf(q: Path, p: Path)
  {
    q != [] && p != [] && (q[0] < p[0] || (q[0] == p[0] && LeftOf(q[1..], p[1..])))
  }

  /** Leftmost first: no node to the left of the matched one answers. */
  lemma {:induction false} SearchLeftmost(f: MatchFn, t: Node, q: Path)
    requires Search(f, t).Some?
    requires ValidPath(t, q) && LeftOf(q, Search(f, t).value.path)
    ensures f(At(t, q)) == Null
    decreases Size(t)
  {
    var l := Search(f, t).value;
    assert SearchChildren(f, t, 0).Some?;
    var child := Children(t)[q[0]];
    assert At(t, q) == At(child, q[1..]);
    if q[0] < l.path[0] {
      SearchChildrenSkips(f, t, 0, q[0]);
      SearchNoneIffAllNull(f, child);
    } else {
      SearchLeftmost(f, Children(t)[q[0]], q[1..]);
    }
  }

  // ---------------------------------------------------------------------
  // Rules

  /** `defineRule`; the constraints default to `{}`. */
  function DefineRule(matchFn: MatchFn, rewriteFn: RewriteFn, constraints: Constraints := map[]): (r: Rule)
    ensures r.matchFn == matchFn && r.rewriteFn == rewriteFn && r.constraints == constraints
  {
    Rule(matchFn, rewriteFn, constraints)
  }

  /** `patternToMatchFn`: a record holding the node itself exactly when
      `matchNode` succeeds on it. Only expressions are ever matched. */
  function PatternToMatchFn(pattern: Node, c: Constraints): (r: MatchFn)
    requires WellFormed(pattern)
    ensures forall node :: !IsExpression(node) ==> r(node) == Null
    ensures forall node :: IsExpression(node) ==> (r(node) != Null <==> MatchNode(pattern, node, c).Some?)
    ensures forall node :: r(node) != Null ==> r(node).hasNode
  {
    node =>
      if !IsExpression(node) then Null
      else match MatchNode(pattern, node, c)
        case None => Null
        case Some((b, idx)) => Record(true, b, idx)
  }

  lemma PatternToMatchFnAnswers(pattern: Node, c: Constraints, node: Node)
    requires WellFormed(pattern) && IsExpression(node)
    ensures PatternToMatchFn(pattern, c)(node) != Null <==> MatchNode(pattern, node, c).Some?
    ensures MatchNode(pattern, node, c).Some? ==>
      PatternToMatchFn(pattern, c)(node) ==
        Record(true, MatchNode(pattern, node, c).value.0, MatchNode(pattern, node, c).value.1)
  {
  }

  /** `patternToRewriteFn`: population of the rewrite pattern. `exported`
      picks the copy of `populatePattern` (lib/matcher.js when true,
      lib/pattern.js when false). */
  function PatternToRewriteFn(pattern: Node, eval: Node -> int, exported: bool): (r: RewriteFn)
    ensures forall n1, n2, b, i1, i2 :: r(n1, b, i1) == r(n2, b, i2)
    ensures !HasGroup(pattern) ==> forall n, b, idx :: r(n, b, idx) == Fill(pattern, b, eval)
    ensures !exported && HasGroup(pattern) ==> forall n, b, idx :: r(n, b, idx).Err?
  {
    (node: Node, b: Bindings, idx: Indexes) =>
      if exported then PopulatePattern(pattern, b, eval) else PopulatePatternSplit(pattern, b, eval)
  }

  /** `definePatternRule`. */
  function DefinePatternRule(matchPattern: Node, rewritePattern: Node, eval: Node -> int,
                             exported: bool, constraints: Constraints := map[]): (r: Rule)
    requires WellFormed(matchPattern)
    ensures r.constraints == constraints
    ensures forall n :: IsExpression(n) ==>
      (r.matchFn(n) != Null <==> MatchNode(matchPattern, n, constraints).Some?)
  {
    DefineRule(PatternToMatchFn(matchPattern, constraints),
               PatternToRewriteFn(rewritePattern, eval, exported), constraints)
  }

  /** `canApplyRule`: `match` gives a non-null result. */
  predicate CanApplyRule(rule: Rule, t: Node)
  {
    Search(rule.matchFn, t).Some?
  }

  /** A pattern rule applies to a tree exactly when its pattern matches
      some subtree. */
  lemma CanApplyPatternRule(matchPattern: Node, rewritePattern: Node, eval: Node -> int,
                            exported: bool, c: Constraints, t: Node)
    requires WellFormed(matchPattern)
    requires forall q :: ValidPath(t, q) ==> IsExpression(At(t, q))
    ensures CanApplyRule(DefinePatternRule(matchPattern, rewritePattern, eval, exported, c), t) <==>
      exists q :: ValidPath(t, q) && MatchNode(matchPattern, At(t, q), c).Some?
  {
    var r := DefinePatternRule(matchPattern, rewritePattern, eval, exported, c);
    SearchNoneIffAllNull(r.matchFn, t);
  }

  // ---------------------------------------------------------------------
  // applyRule

  /** `args.splice(start, end - start, x)` with JavaScript's clamping: a
      start past the end appends, a negative count deletes nothing. */
  function Splice(args: seq<Node>, start: nat, end: nat, x: Node): (r: seq<Node>)
    ensures start <= end <= |args| ==>
      r == args[..start] + [x] + args[end..] && |r| == |args| - (end - start) + 1
    ensures start >= |args| ==> r == args + [x]
  {
    var s := if start <= |args| then start else |args|;
    var count := if end <= start then 0
                 else if end - start <= |args| - s then end - start else |args| - s;
    args[..s] + [x] + args[s + count..]
  }

  /** `applyRule`: match, rewrite the matched node's table, pass the result
      through `fixMinuses`, then either splice it over `args[start, end)`
      of the matched node or replace the matched node whole. A null match
      result makes the source throw while destructuring it. */
  function ApplyRule(rule: Rule, input: Node): (r: Result<Node, Error>)
    ensures !CanApplyRule(rule, input) ==> r == Err(NullMatch)
    ensures CanApplyRule(rule, input) && !Search(rule.matchFn, input).value.answer.hasNode ==> r == Ok(input)
  {
    match Search(rule.matchFn, input)
    case None => Err(NullMatch)
    case Some(l) =>
      if !l.answer.hasNode then Ok(input)
      else
        var node := At(input, l.path);
        var rewritten :- rule.rewriteFn(node, l.answer.placeholders, l.answer.indexes);
        var replacement := FixMinuses(rewritten);
        var idx := l.answer.indexes;
        if idx.NoIndexes? then Ok(ReplaceAt(input, l.path, replacement))
        else
          var inside :- CheckBounds(idx, if node.Apply? then Some(node.args) else None);
          if !inside then Ok(ReplaceAt(input, l.path, replacement))
          else if node.Apply? then
            Ok(ReplaceAt(input, l.path, node.(args := Splice(node.args, idx.start, idx.end, replacement))))
          else Err(ArgsUndefined)
  }

  /** The node `applyRule` puts at the matched position, given the
      rewritten replacement. */
  function Rewritten(node: Node, idx: Indexes, replacement: Node): Node
  {
    if idx.Span? && node.Apply? && CheckBounds(idx, Some(node.args)) == Ok(true)
    then node.(args := Splice(node.args, idx.start, idx.end, replacement))
    else replacement
  }

  /** Exactly one location is rewritten: the matched position now holds
      the replacement (or the matched node with the replacement spliced
      into its arguments), and every position neither above nor below it
      is unchanged. */
  lemma ApplyRuleOneLocation(rule: Rule, input: Node, q: Path)
    requires ApplyRule(rule, input).Ok? && CanApplyRule(rule, input)
    requires Search(rule.matchFn, input).value.answer.hasNode
    ensures var l := Search(rule.matchFn, input).value;
      var node := At(input, l.path);
      var out := ApplyRule(rule, input).value;
      rule.rewriteFn(node, l.answer.placeholders, l.answer.indexes).Ok? &&
      var replacement := FixMinuses(rule.rewriteFn(node, l.answer.placeholders, l.answer.indexes).value);
      ValidPath(out, l.path) &&
      At(out, l.path) == Rewritten(node, l.answer.indexes, replacement) &&
      (ValidPath(input, q) && !IsPrefix(q, l.path) && !IsPrefix(l.path, q) ==>
         ValidPath(out, q) && At(out, q) == At(input, q))
  {
    var l := Search(rule.matchFn, input).value;
    var node := At(input, l.path);
    var replacement := FixMinuses(rule.rewriteFn(node, l.answer.placeholders, l.answer.indexes).value);
    var x := Rewritten(node, l.answer.indexes, replacement);
    assert ApplyRule(rule, input).value == ReplaceAt(input, l.path, x);
    if ValidPath(input, q) && !IsPrefix(q, l.path) && !IsPrefix(l.path, q) {
      ReplaceAtElsewhere(input, l.path, x, q);
    }
  }
}
