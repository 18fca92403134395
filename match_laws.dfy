/** What a successful or failed match says about the pattern and the input:
    the sub-array search takes the leftmost offset, every expression matches
    itself (so a bound placeholder re-matches its own value), and on trees
    without `add` or `mul` the table of a match rebuilds the input from the
    pattern. */
module MatchLaws {
  import opened Wrappers
  import opened Nodes
  import opened Utils
  import opened Matcher
  import opened MatcherFacts
  import opened Populate

  // ---------------------------------------------------------------------
  // The offset search of `_matchSubArray`

  /** Without family tables a failed offset leaks nothing: the next offset
      starts from the table the search started with. */
  lemma LeakNoFamilies(b: Bindings, copy: Bindings)
    requires b.entries == map[]
    ensures Leak(b, copy) == b
  {
    assert Families(b) == {};
    assert Leak(b, copy).entries == map[];
  }

  /** A sum or product pattern searched for in an input of the same kind,
      from a table of expressions without families. */
  ghost predicate Searchable(p: Node, i: Node, b: Bindings)
  {
    p.Apply? && (p.op == "add" || p.op == "mul") && i.Apply? &&
    IsExpression(i) && WellFormed(p) && Ground(b) && b.entries == map[]
  }

  /** One offset of the search from a table without families: it stops
      there exactly when the `every` succeeds, and otherwise hands the
      unchanged table to the next offset. */
  lemma SubArrayStep(p: Node, i: Node, c: Constraints, b: Bindings, off: nat)
    requires Searchable(p, i, b)
    requires off + |p.args| <= |i.args|
    ensures ArgsFrom(p, i, c, b, map[], 0, off).ok ==>
              SubArray(p, i, c, b, off).ok && SubArray(p, i, c, b, off).idx.start == off
    ensures !ArgsFrom(p, i, c, b, map[], 0, off).ok ==>
              SubArray(p, i, c, b, off) == SubArray(p, i, c, b, off + 1)
  {
    if ArgsFrom(p, i, c, b, map[], 0, off).ok {
      SubArrayHit(p, i, c, b, off);
    } else {
      SubArrayMiss(p, i, c, b, off);
      LeakNoFamilies(b, ArgsFrom(p, i, c, b, map[], 0, off).b);
    }
  }

  /** An offset `o` at or after `off` whose `every` succeeds makes the
      search from `off` succeed, at `o` or further left. */
  lemma {:induction false} SubArrayReaches(p: Node, i: Node, c: Constraints, b: Bindings, off: nat, o: nat)
    requires Searchable(p, i, b)
    requires off <= o && o + |p.args| <= |i.args| && ArgsFrom(p, i, c, b, map[], 0, o).ok
    ensures SubArray(p, i, c, b, off).ok && SubArray(p, i, c, b, off).idx.start <= o
    decreases o - off
  {
    if ArgsFrom(p, i, c, b, map[], 0, off).ok {
      SubArrayHit(p, i, c, b, off);
    } else {
      SubArrayMiss(p, i, c, b, off);
      LeakNoFamilies(b, ArgsFrom(p, i, c, b, map[], 0, off).b);
      SubArrayReaches(p, i, c, b, off + 1, o);
    }
  }

  /** The search only stops at an offset whose `every` succeeds. */
  lemma {:induction false} SubArrayStops(p: Node, i: Node, c: Constraints, b: Bindings, off: nat, start: nat)
    requires Searchable(p, i, b)
    requires SubArray(p, i, c, b, off).ok && SubArray(p, i, c, b, off).idx.start == start
    ensures start <= |i.args| && ArgsFrom(p, i, c, b, map[], 0, start).ok
    decreases |i.args| + 1 - off
  {
    SubArrayFound(p, i, c, b, off);
    if !ArgsFrom(p, i, c, b, map[], 0, off).ok {
      SubArrayStops(p, i, c, b, off + 1, start);
    }
  }

  /** A successful search from `off` had room for the pattern at `off`,
      and either stopped there or is the search from `off + 1`. */
  lemma SubArrayFound(p: Node, i: Node, c: Constraints, b: Bindings, off: nat)
    requires Searchable(p, i, b)
    requires SubArray(p, i, c, b, off).ok
    ensures off + |p.args| <= |i.args|
    ensures ArgsFrom(p, i, c, b, map[], 0, off).ok ==> SubArray(p, i, c, b, off).idx.start == off
    ensures !ArgsFrom(p, i, c, b, map[], 0, off).ok ==> SubArray(p, i, c, b, off) == SubArray(p, i, c, b, off + 1)
  {
    SubArrayStep(p, i, c, b, off);
  }

  /** `matchNode` on an add/add or mul/mul pair with compatible flags
      matches exactly when some offset's `every` succeeds from the empty
      table, and its range starts at the leftmost such offset. */
  lemma MatchNodeLeftmost(p: Node, i: Node, c: Constraints)
    requires p.Apply? && (p.op == "add" || p.op == "mul") && i.Apply? && i.op == p.op
    requires IsExpression(i) && WellFormed(p)
    requires |p.flags - {Implicit}| == |i.flags - {Implicit}| && p.flags - {Implicit} <= i.flags
    ensures MatchNode(p, i, c).Some? <==>
            exists o: nat :: o + |p.args| <= |i.args| && ArgsFrom(p, i, c, NoBindings, map[], 0, o).ok
    ensures MatchNode(p, i, c).Some? ==>
            var s := MatchNode(p, i, c).value.1;
            s.Span? && ArgsFrom(p, i, c, NoBindings, map[], 0, s.start).ok &&
            forall o :: 0 <= o < s.start ==> !ArgsFrom(p, i, c, NoBindings, map[], 0, o).ok
  {
    MatchChain(p, i, c, NoBindings);
    var r := SubArray(p, i, c, NoBindings, 0);
    forall o: nat | o + |p.args| <= |i.args| && ArgsFrom(p, i, c, NoBindings, map[], 0, o).ok
      ensures r.ok && r.idx.start <= o
    {
      SubArrayReaches(p, i, c, NoBindings, 0, o);
    }
    if r.ok {
      SubArrayStops(p, i, c, NoBindings, 0, r.idx.start);
    }
  }

  // ---------------------------------------------------------------------
  // Reflexivity

  /** Every expression matches itself, whatever the table and the
      constraints (constraints apply to placeholders only), and leaves the
      table as it was. */
  lemma {:induction false} MatchSelf(e: Node, c: Constraints, b: Bindings)
    requires IsExpression(e) && Ground(b)
    ensures WellFormed(e) && MatchNodeAt(e, e, c, b).ok && MatchNodeAt(e, e, c, b).b == b
    decreases Size(e), 1
  {
    ExpressionIsWellFormed(e);
    match e
    case Parentheses(x) => MatchSelf(x, c, b);
    case Apply(op, args, _) =>
      if op == "add" || op == "mul" {
        ArgsSelf(e, c, b, map[], 0);
        SubArrayHit(e, e, c, b, 0);
      } else {
        PairwiseSelf(e, c, b, 0);
      }
    case _ =>
  }

  /** The `every` of an expression against itself from position `k` at
      input position `k` consumes the rest of the arguments. */
  lemma {:induction false} ArgsSelf(e: Node, c: Constraints, b: Bindings, negs: map<nat, bool>, k: nat)
    requires e.Apply? && (e.op == "add" || e.op == "mul") && IsExpression(e) && Ground(b)
    requires k <= |e.args|
    ensures WellFormed(e) && ArgsFrom(e, e, c, b, negs, k, k) == ArgsOutcome(true, b, negs, |e.args|)
    decreases Size(e), 0, |e.args| - k
  {
    ExpressionIsWellFormed(e);
    if k < |e.args| {
      ChildRank(e, k);
      assert e.args[k] != Ellipsis;
      ArgsFromNodeStep(e, e, c, b, negs, k, k);
      MatchSelf(e.args[k], c, b);
      ArgsSelf(e, c, b, negs, k + 1);
    }
  }

  lemma {:induction false} PairwiseSelf(e: Node, c: Constraints, b: Bindings, k: nat)
    requires e.Apply? && IsExpression(e) && Ground(b) && k <= |e.args|
    ensures WellFormed(e) && Pairwise(e, e, c, b, k) == Outcome(true, b, EmptyIndexes)
    decreases Size(e), 0, |e.args| - k
  {
    ExpressionIsWellFormed(e);
    if k < |e.args| {
      ChildRank(e, k);
      MatchSelf(e.args[k], c, b);
      PairwiseSelf(e, c, b, k + 1);
    }
  }

  /** A placeholder already bound to `v` re-matches an input equal to `v`
      whenever its constraint accepts that input, and changes nothing. */
  lemma BoundPlaceholderRematches(name: string, c: Constraints, b: Bindings)
    requires Ground(b) && name in b.plain
    requires name in c ==> c[name](b.plain[name])
    ensures MatchNodeAt(Placeholder(name, None), b.plain[name], c, b) == Outcome(true, b, EmptyIndexes)
  {
    MatchSelf(b.plain[name], c, b);
  }

  /** The same for a bound entry of a family. */
  lemma BoundEntryRematches(name: string, k: nat, c: Constraints, b: Bindings)
    requires Ground(b) && (name, k) in b.entries
    requires name in c ==> c[name](b.entries[(name, k)])
    ensures MatchNodeAt(Placeholder(name, Some(k)), b.entries[(name, k)], c, b) == Outcome(true, b, EmptyIndexes)
  {
    MatchSelf(b.entries[(name, k)], c, b);
  }

  /** The `every` of a bound sum (or product) against input arguments
      that repeat its terms from offset `o` succeeds and ends after them. */
  lemma {:induction false} ArgsRun(v: Node, i: Node, c: Constraints, b: Bindings, negs: map<nat, bool>, k: nat, o: nat)
    requires v.Apply? && (v.op == "add" || v.op == "mul") && IsExpression(v) && i.Apply? && IsExpression(i)
    requires Ground(b) && k <= |v.args| && o + |v.args| <= |i.args|
    requires forall m :: 0 <= m < |v.args| ==> i.args[o + m] == v.args[m]
    ensures WellFormed(v) && ArgsFrom(v, i, c, b, negs, k, o + k) == ArgsOutcome(true, b, negs, o + |v.args|)
    decreases |v.args| - k
  {
    ExpressionIsWellFormed(v);
    if k < |v.args| {
      ChildRank(v, k);
      assert v.args[k] != Ellipsis && i.args[o + k] == v.args[k];
      ArgsFromNodeStep(v, i, c, b, negs, k, o + k);
      MatchSelf(v.args[k], c, b);
      ArgsRun(v, i, c, b, negs, k + 1, o);
    }
  }

  /** A sum (or product) without placeholders matches any longer sum
      (product) with compatible flags that holds its terms as a
      consecutive run. */
  lemma SumMatchesRun(v: Node, i: Node, c: Constraints, b: Bindings, o: nat)
    requires v.Apply? && (v.op == "add" || v.op == "mul") && IsExpression(v)
    requires i.Apply? && i.op == v.op && IsExpression(i) && Ground(b) && b.entries == map[]
    requires |v.flags - {Implicit}| == |i.flags - {Implicit}| && v.flags - {Implicit} <= i.flags
    requires o + |v.args| <= |i.args| && forall m :: 0 <= m < |v.args| ==> i.args[o + m] == v.args[m]
    ensures WellFormed(v) && MatchNodeAt(v, i, c, b).ok
  {
    ArgsRun(v, i, c, b, map[], 0, o);
    SubArrayReaches(v, i, c, b, 0, o);
    MatchChain(v, i, c, b);
  }

  /** A placeholder bound to a sum (or product) re-matches any longer sum
      (product) that holds the bound terms as a consecutive run: the second
      occurrence of the name is compared by the sub-array search, not by
      equality. */
  lemma BoundSumRematchesRun(name: string, c: Constraints, b: Bindings, i: Node, o: nat)
    requires Ground(b) && b.entries == map[] && name in b.plain
    requires var v := b.plain[name];
      v.Apply? && (v.op == "add" || v.op == "mul") && i.Apply? && i.op == v.op && IsExpression(i) &&
      |v.flags - {Implicit}| == |i.flags - {Implicit}| && v.flags - {Implicit} <= i.flags &&
      o + |v.args| <= |i.args| && forall m :: 0 <= m < |v.args| ==> i.args[o + m] == v.args[m]
    requires name in c ==> c[name](i)
    ensures MatchNodeAt(Placeholder(name, None), i, c, b).ok
  {
    SumMatchesRun(b.plain[name], i, c, b, o);
  }

  // ---------------------------------------------------------------------
  // Matching without add or mul

  /** No `add` or `mul` anywhere in the tree. */
  predicate Chainless(t: Node)
  {
    match t
    case Apply(op, args, _) => op != "add" && op != "mul" && forall a <- args :: Chainless(a)
    case Eval(a) => Chainless(a)
    case Parentheses(x) => Chainless(x)
    case _ => true
  }

  ghost predicate ChainlessTable(b: Bindings)
  {
    (forall n :: n in b.plain ==> Chainless(b.plain[n])) &&
    (forall key :: key in b.entries ==> Chainless(b.entries[key]))
  }

  /** Equal trees, except that `implicit` may differ on any operator node:
      the matcher ignores that field. */
  predicate Similar(x: Node, y: Node)
  {
    match x
    case Apply(op, args, f) =>
      y.Apply? && y.op == op && f - {Implicit} == y.flags - {Implicit} && |y.args| == |args| &&
      forall k :: 0 <= k < |args| ==> Similar(args[k], y.args[k])
    case Parentheses(b) => y.Parentheses? && Similar(b, y.body)
    case _ => x == y
  }

  lemma {:induction false} SimilarToItself(x: Node)
    ensures Similar(x, x)
  {
    match x
    case Apply(_, args, _) =>
      forall k | 0 <= k < |args| ensures Similar(args[k], args[k]) {
        ArgSizeBound(args, k);
        SimilarToItself(args[k]);
      }
    case Parentheses(b) => SimilarToItself(b);
    case _ =>
  }

  lemma {:induction false} ExpressionHasNoEval(t: Node)
    requires IsExpression(t)
    ensures !HasEval(t)
  {
    match t
    case Apply(_, args, _) => ArgsHaveNoEval(args);
    case Parentheses(x) => ExpressionHasNoEval(x);
    case _ =>
  }

  lemma {:induction false} ArgsHaveNoEval(args: seq<Node>)
    requires forall a <- args :: IsExpression(a)
    ensures !ArgsHaveEval(args)
  {
    if args != [] {
      ExpressionHasNoEval(args[0]);
      ArgsHaveNoEval(args[1..]);
    }
  }

  /** Populating an expression gives it back. */
  lemma FillExpression(t: Node, b: Bindings, eval: Node -> int)
    requires IsExpression(t)
    ensures Fill(t, b, eval) == Ok(t)
  {
    ExpressionHasNoNames(t);
    ExpressionHasNoEval(t);
  }

  lemma SubsetSameSize(x: set<Flag>, y: set<Flag>)
    requires x <= y && |x| == |y|
    ensures x == y
  {
    assert y == x + (y - x);
    assert |y| == |x| + |y - x|;
  }

  lemma ExtendsChain(b3: Bindings, b2: Bindings, b1: Bindings)
    requires Extends(b3, b2) && Extends(b2, b1)
    ensures Extends(b3, b1)
  {
  }

  /** No name is bound both plainly and as a family. */
  ghost predicate Unshared(b: Bindings)
  {
    forall key :: key in b.entries ==> key.0 !in b.plain
  }

  /** On a pattern and an input without `add` or `mul`, a match binds
      enough to rebuild the input: populating the pattern with any table
      that keeps the match's bindings (and has no name both plain and a
      family) yields the input, up to the `implicit` field. A re-matched
      placeholder therefore stands for equal subtrees. */
  lemma {:induction false} MatchInstance(p: Node, i: Node, c: Constraints, b: Bindings, bFinal: Bindings, eval: Node -> int)
    requires IsExpression(i) && WellFormed(p) && Ground(b)
    requires Chainless(p) && Chainless(i) && ChainlessTable(b)
    requires MatchNodeAt(p, i, c, b).ok
    requires Extends(bFinal, MatchNodeAt(p, i, c, b).b) && Unshared(bFinal)
    ensures ChainlessTable(MatchNodeAt(p, i, c, b).b)
    ensures Fill(p, bFinal, eval).Ok? && Similar(Fill(p, bFinal, eval).value, i)
    decreases Rank(p), Size(p), 1
  {
    match p
    case Placeholder(n, Some(k)) =>
      if (n, k) in b.entries {
        BoundEntryInstance(p, i, c, b, bFinal, eval);
      } else {
        FreshEntryInstance(p, i, c, b, bFinal, eval);
      }
    case Placeholder(_, None) =>
      PlainInstance(p, i, c, b, bFinal, eval);
    case Parentheses(x) =>
      MatchInstance(x, i.body, c, b, bFinal, eval);
    case Apply(_, _, _) =>
      ApplyInstance(p, i, c, b, bFinal, eval);
    case _ =>
      SimilarToItself(i);
  }

  lemma BoundEntryInstance(p: Node, i: Node, c: Constraints, b: Bindings, bFinal: Bindings, eval: Node -> int)
    requires p.Placeholder? && p.subscript.Some? && (p.name, p.subscript.value) in b.entries
    requires IsExpression(i) && WellFormed(p) && Ground(b)
    requires Chainless(p) && Chainless(i) && ChainlessTable(b)
    requires MatchNodeAt(p, i, c, b).ok
    requires Extends(bFinal, MatchNodeAt(p, i, c, b).b) && Unshared(bFinal)
    ensures ChainlessTable(MatchNodeAt(p, i, c, b).b)
    ensures Fill(p, bFinal, eval).Ok? && Similar(Fill(p, bFinal, eval).value, i)
    decreases Rank(p), Size(p), 0
  {
    var key: (string, nat) := (p.name, p.subscript.value);
    var v := b.entries[key];
    ExpressionIsWellFormed(v);
    assert MatchNodeAt(p, i, c, b).b == b;
    ValueInstance(v, i, c, b, bFinal, eval);
    assert key in bFinal.entries && bFinal.entries[key] == v;
  }

  lemma FreshEntryInstance(p: Node, i: Node, c: Constraints, b: Bindings, bFinal: Bindings, eval: Node -> int)
    requires p.Placeholder? && p.subscript.Some? && (p.name, p.subscript.value) !in b.entries
    requires IsExpression(i) && WellFormed(p) && Ground(b)
    requires Chainless(p) && Chainless(i) && ChainlessTable(b)
    requires MatchNodeAt(p, i, c, b).ok
    requires Extends(bFinal, MatchNodeAt(p, i, c, b).b) && Unshared(bFinal)
    ensures ChainlessTable(MatchNodeAt(p, i, c, b).b)
    ensures Fill(p, bFinal, eval).Ok? && Similar(Fill(p, bFinal, eval).value, i)
    decreases Rank(p), Size(p), 0
  {
    var key: (string, nat) := (p.name, p.subscript.value);
    assert MatchNodeAt(p, i, c, b).b == b.(entries := b.entries[key := i]);
    SimilarToItself(i);
    assert key in bFinal.entries && bFinal.entries[key] == i;
  }

  lemma PlainInstance(p: Node, i: Node, c: Constraints, b: Bindings, bFinal: Bindings, eval: Node -> int)
    requires p.Placeholder? && p.subscript.None?
    requires IsExpression(i) && WellFormed(p) && Ground(b)
    requires Chainless(p) && Chainless(i) && ChainlessTable(b)
    requires MatchNodeAt(p, i, c, b).ok
    requires Extends(bFinal, MatchNodeAt(p, i, c, b).b) && Unshared(bFinal)
    ensures ChainlessTable(MatchNodeAt(p, i, c, b).b)
    ensures Fill(p, bFinal, eval).Ok? && Similar(Fill(p, bFinal, eval).value, i)
    decreases Rank(p), Size(p), 0
  {
    if p.name in b.plain {
      ExpressionIsWellFormed(b.plain[p.name]);
      ValueInstance(b.plain[p.name], i, c, b, bFinal, eval);
    } else {
      SimilarToItself(i);
    }
  }

  lemma ApplyInstance(p: Node, i: Node, c: Constraints, b: Bindings, bFinal: Bindings, eval: Node -> int)
    requires p.Apply?
    requires IsExpression(i) && WellFormed(p) && Ground(b)
    requires Chainless(p) && Chainless(i) && ChainlessTable(b)
    requires MatchNodeAt(p, i, c, b).ok
    requires Extends(bFinal, MatchNodeAt(p, i, c, b).b) && Unshared(bFinal)
    ensures ChainlessTable(MatchNodeAt(p, i, c, b).b)
    ensures Fill(p, bFinal, eval).Ok? && Similar(Fill(p, bFinal, eval).value, i)
    decreases Rank(p), Size(p), 0, |p.args| + 1
  {
    PairwiseInstance(p, i, c, b, 0, bFinal, eval);
    assert p.args[0..] == p.args && i.args[0..] == i.args;
    SubsetSameSize(p.flags - {Implicit}, i.flags - {Implicit});
  }

  /** A bound value that re-matches the input is the input, up to the
      `implicit` flag. */
  lemma ValueInstance(v: Node, i: Node, c: Constraints, b: Bindings, bFinal: Bindings, eval: Node -> int)
    requires IsExpression(v) && WellFormed(v) && IsExpression(i) && Ground(b)
    requires Chainless(v) && Chainless(i) && ChainlessTable(b)
    requires MatchNodeAt(v, i, c, b).ok
    requires Extends(bFinal, b) && Unshared(bFinal)
    ensures Similar(v, i)
    decreases 0, Size(v), 2
  {
    MatchInstance(v, i, c, b, bFinal, eval);
    FillExpression(v, bFinal, eval);
  }

  lemma {:induction false} PairwiseInstance(p: Node, i: Node, c: Constraints, b: Bindings, k: nat,
                                            bFinal: Bindings, eval: Node -> int)
    requires p.Apply? && i.Apply? && |p.args| == |i.args| && k <= |p.args|
    requires IsExpression(i) && WellFormed(p) && Ground(b)
    requires Chainless(p) && Chainless(i) && ChainlessTable(b)
    requires Pairwise(p, i, c, b, k).ok
    requires Extends(bFinal, Pairwise(p, i, c, b, k).b) && Unshared(bFinal)
    ensures ChainlessTable(Pairwise(p, i, c, b, k).b)
    ensures FillArgs(p.args[k..], bFinal, eval).Ok?
    ensures forall m :: 0 <= m < |p.args| - k ==>
              Similar(FillArgs(p.args[k..], bFinal, eval).value[m], i.args[k..][m])
    decreases Rank(p), Size(p), 0, |p.args| - k
  {
    if k < |p.args| {
      ChildRank(p, k);
      ChildRank(i, k);
      assert p.args[k] in p.args && i.args[k] in i.args;
      var r := MatchNodeAt(p.args[k], i.args[k], c, b);
      assert r.ok && Pairwise(p, i, c, b, k) == Pairwise(p, i, c, r.b, k + 1);
      ExtendsChain(bFinal, Pairwise(p, i, c, b, k).b, r.b);
      MatchInstance(p.args[k], i.args[k], c, b, bFinal, eval);
      PairwiseInstance(p, i, c, r.b, k + 1, bFinal, eval);
      FillArgsStep(p.args, k, bFinal, eval);
      var first := Fill(p.args[k], bFinal, eval).value;
      var rest := FillArgs(p.args[k + 1..], bFinal, eval).value;
      assert i.args[k..][1..] == i.args[k + 1..];
      SimilarCons(first, rest, i.args[k..]);
    }
  }

  lemma SimilarCons(x: Node, xs: seq<Node>, ys: seq<Node>)
    requires |ys| == |xs| + 1 && Similar(x, ys[0])
    requires forall m :: 0 <= m < |xs| ==> Similar(xs[m], ys[1..][m])
    ensures forall m :: 0 <= m < |ys| ==> Similar(([x] + xs)[m], ys[m])
  {
    forall m | 0 <= m < |ys| ensures Similar(([x] + xs)[m], ys[m]) {
      if m > 0 {
        assert ys[1..][m - 1] == ys[m];
      }
    }
  }

  lemma FillArgsStep(args: seq<Node>, k: nat, b: Bindings, eval: Node -> int)
    requires k < |args| && Fill(args[k], b, eval).Ok? && FillArgs(args[k + 1..], b, eval).Ok?
    ensures FillArgs(args[k..], b, eval) ==
            Ok([Fill(args[k], b, eval).value] + FillArgs(args[k + 1..], b, eval).value)
  {
    assert args[k..][0] == args[k] && args[k..][1..] == args[k + 1..];
  }

  /** `matchNode` on a pattern and an input without `add` or `mul`: the
      table it returns populates the pattern into the input. */
  lemma MatchNodeInstance(p: Node, i: Node, c: Constraints, eval: Node -> int)
    requires IsExpression(i) && WellFormed(p) && Chainless(p) && Chainless(i)
    requires MatchNode(p, i, c).Some?
    requires MatchNode(p, i, c).value.0.plain.Keys !! Families(MatchNode(p, i, c).value.0)
    ensures var b := MatchNode(p, i, c).value.0;
      Fill(p, b, eval).Ok? && Similar(Fill(p, b, eval).value, i)
  {
    var b := MatchNode(p, i, c).value.0;
    forall key | key in b.entries ensures key.0 !in b.plain {
      assert key.0 in Families(b);
    }
    MatchInstance(p, i, c, NoBindings, b, eval);
  }
}
