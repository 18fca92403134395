/** Concrete cases from the repository's test files (lib/__test__/matcher.test.js,
    test/flatten-operands_test.js, test/rules_test.js), stated on trees built
    by hand in place of parsed strings. */
module Examples {
  import opened Wrappers
  import opened Nodes
  import opened Traverse
  import opened Utils
  import opened Matcher
  import opened MatcherFacts
  import opened Populate
  import opened Rule
  import opened Flatten
  import opened CollectLikeTerms

  function Add(args: seq<Node>): Node { Apply("add", args, {}) }
  function Mul(args: seq<Node>): Node { Apply("mul", args, {}) }

  // ---------------------------------------------------------------------
  // matchNode

  /** `1 + 2` matches the first two arguments of `1 + 2 + 3`. */
  lemma SubExpressionMatches()
    ensures IsExpression(Add([Number(1), Number(2), Number(3)]))
    ensures MatchNode(Add([Number(1), Number(2)]), Add([Number(1), Number(2), Number(3)]), map[])
            == Some((NoBindings, Span(0, 2)))
  {
    var p := Add([Number(1), Number(2)]);
    var i := Add([Number(1), Number(2), Number(3)]);
    var c: Constraints := map[];
    assert IsExpression(i) by {
      assert forall a <- i.args :: IsExpression(a);
    }
    assert WellFormed(p) by {
      ExpressionIsWellFormed(p);
    }
    ArgsFromNodeStep(p, i, c, NoBindings, map[], 0, 0);
    ArgsFromNodeStep(p, i, c, NoBindings, map[], 1, 1);
    SubArrayHit(p, i, c, NoBindings, 0);
    MatchChain(p, i, c, NoBindings);
  }

  /** `4 + 5` matches no run of arguments of `1 + 2 + 3`. */
  lemma SubExpressionMismatch()
    ensures IsExpression(Add([Number(1), Number(2), Number(3)]))
    ensures MatchNode(Add([Number(4), Number(5)]), Add([Number(1), Number(2), Number(3)]), map[]) == None
  {
    var p := Add([Number(4), Number(5)]);
    var i := Add([Number(1), Number(2), Number(3)]);
    var c: Constraints := map[];
    assert IsExpression(i) by {
      assert forall a <- i.args :: IsExpression(a);
    }
    assert WellFormed(p) by {
      ExpressionIsWellFormed(p);
    }
    ArgsFromNodeStep(p, i, c, NoBindings, map[], 0, 0);
    ArgsFromNodeStep(p, i, c, NoBindings, map[], 0, 1);
    assert Leak(NoBindings, NoBindings) == NoBindings;
    SubArrayMiss(p, i, c, NoBindings, 0);
    SubArrayMiss(p, i, c, NoBindings, 1);
    MatchChain(p, i, c, NoBindings);
  }

  /** `#a + #a` matches `1 + 1`: the second occurrence re-matches the
      value bound by the first. */
  lemma RepeatedPlaceholderMatches()
    ensures IsExpression(Add([Number(1), Number(1)]))
    ensures MatchNode(Add([Placeholder("a", None), Placeholder("a", None)]), Add([Number(1), Number(1)]), map[])
            == Some((NoBindings.(plain := map["a" := Number(1)]), Span(0, 2)))
  {
    var pa := Placeholder("a", None);
    var p := Add([pa, pa]);
    var i := Add([Number(1), Number(1)]);
    var c: Constraints := map[];
    var b1 := NoBindings.(plain := map["a" := Number(1)]);
    assert IsExpression(i) by {
      assert forall a <- i.args :: IsExpression(a);
    }
    MatchFreshPlaceholder("a", Number(1), c, NoBindings);
    assert MatchNodeAt(pa, Number(1), c, b1) == Outcome(true, b1, EmptyIndexes);
    ArgsFromNodeStep(p, i, c, NoBindings, map[], 0, 0);
    ArgsFromNodeStep(p, i, c, b1, map[], 1, 1);
    SubArrayHit(p, i, c, NoBindings, 0);
    MatchChain(p, i, c, NoBindings);
  }

  /** `#a + #a` does not match `1 + 2`. */
  lemma RepeatedPlaceholderMismatch()
    ensures IsExpression(Add([Number(1), Number(2)]))
    ensures MatchNode(Add([Placeholder("a", None), Placeholder("a", None)]), Add([Number(1), Number(2)]), map[]) == None
  {
    var pa := Placeholder("a", None);
    var p := Add([pa, pa]);
    var i := Add([Number(1), Number(2)]);
    var c: Constraints := map[];
    var b1 := NoBindings.(plain := map["a" := Number(1)]);
    assert IsExpression(i) by {
      assert forall a <- i.args :: IsExpression(a);
    }
    MatchFreshPlaceholder("a", Number(1), c, NoBindings);
    assert !MatchNodeAt(pa, Number(2), c, b1).ok;
    ArgsFromNodeStep(p, i, c, NoBindings, map[], 0, 0);
    ArgsFromNodeStep(p, i, c, b1, map[], 1, 1);
    SubArrayMiss(p, i, c, NoBindings, 0);
    MatchChain(p, i, c, NoBindings);
  }

  // ---------------------------------------------------------------------
  // applyRule

  /** `#a + 0` matches `x + 0`, binding `a` to `x`, over both arguments. */
  lemma PlusZeroMatches()
    ensures IsExpression(Add([Identifier("x"), Number(0)]))
    ensures WellFormed(Add([Placeholder("a", None), Number(0)]))
    ensures MatchNode(Add([Placeholder("a", None), Number(0)]), Add([Identifier("x"), Number(0)]), map[])
            == Some((NoBindings.(plain := map["a" := Identifier("x")]), Span(0, 2)))
  {
    var p := Add([Placeholder("a", None), Number(0)]);
    var i := Add([Identifier("x"), Number(0)]);
    var c: Constraints := map[];
    var b1 := NoBindings.(plain := map["a" := Identifier("x")]);
    assert IsExpression(i) by {
      assert forall a <- i.args :: IsExpression(a);
    }
    MatchFreshPlaceholder("a", Identifier("x"), c, NoBindings);
    ArgsFromNodeStep(p, i, c, NoBindings, map[], 0, 0);
    ArgsFromNodeStep(p, i, c, b1, map[], 1, 1);
    SubArrayHit(p, i, c, NoBindings, 0);
    MatchChain(p, i, c, NoBindings);
  }

  /** A leaf the match function rejects yields no match. */
  lemma SearchLeaf(f: MatchFn, t: Node)
    requires Children(t) == [] && f(t) == Null
    ensures Search(f, t) == None
  {
  }

  /** A node with two children that yield no match is itself the answer
      when the match function accepts it. */
  lemma SearchAfterTwo(f: MatchFn, t: Node)
    requires |Children(t)| == 2
    requires Search(f, Children(t)[0]) == None && Search(f, Children(t)[1]) == None
    ensures Search(f, t) == if f(t) != Null then Some(Located([], f(t))) else None
  {
    assert SearchChildren(f, t, 2) == None;
    assert SearchChildren(f, t, 1) == None;
  }

  /** With the first of two children yielding nothing, the second child's
      answer is the answer, one level further down. */
  lemma SearchSecondChild(f: MatchFn, t: Node, l: Located)
    requires |Children(t)| == 2
    requires Search(f, Children(t)[0]) == None && Search(f, Children(t)[1]) == Some(l)
    ensures Search(f, t) == Some(Located([1] + l.path, l.answer))
  {
    assert SearchChildren(f, t, 1) == Some(Located([1] + l.path, l.answer));
  }

  /** The answers of the `#a + 0` match function on the nodes of
      `2 * (x + 0)`: only the sum gives a record. */
  lemma PlusZeroAnswers(eval: Node -> int)
    ensures WellFormed(Add([Placeholder("a", None), Number(0)]))
    ensures var f := DefinePatternRule(Add([Placeholder("a", None), Number(0)]), Placeholder("a", None), eval, true).matchFn;
      f(Number(2)) == Null && f(Identifier("x")) == Null && f(Number(0)) == Null &&
      f(Add([Identifier("x"), Number(0)])) == Record(true, NoBindings.(plain := map["a" := Identifier("x")]), Span(0, 2))
  {
    var p := Add([Placeholder("a", None), Number(0)]);
    PlusZeroMatches();
    PatternRuleMatchFn(p, Placeholder("a", None), eval, true, map[]);
    ApplyPatternRejectsLeaf(p, map[], Number(2));
    ApplyPatternRejectsLeaf(p, map[], Identifier("x"));
    ApplyPatternRejectsLeaf(p, map[], Number(0));
    PatternToMatchFnAnswers(p, map[], Add([Identifier("x"), Number(0)]));
  }

  lemma PatternRuleMatchFn(p: Node, q: Node, eval: Node -> int, exported: bool, c: Constraints)
    requires WellFormed(p)
    ensures DefinePatternRule(p, q, eval, exported, c).matchFn == PatternToMatchFn(p, c)
  {
  }

  /** A pattern with an operator never matches a number or an identifier. */
  lemma ApplyPatternRejectsLeaf(p: Node, c: Constraints, n: Node)
    requires WellFormed(p) && p.Apply? && (n.Number? || n.Identifier?)
    ensures PatternToMatchFn(p, c)(n) == Null
  {
    assert MatchNodeAt(p, n, c, NoBindings).ok == false;
  }

  /** In a node of two arguments whose second is a node of two arguments,
      all four leaves rejected, a record for the inner node is found at
      path `[1]`. */
  lemma SearchSecondOfTwo(f: MatchFn, t: Node, answer: MatchAnswer)
    requires t.Apply? && |t.args| == 2 && t.args[0].Number? && f(t.args[0]) == Null
    requires t.args[1].Apply? && |t.args[1].args| == 2
    requires !t.args[1].args[0].Apply? && !t.args[1].args[1].Apply?
    requires t.args[1].args[0].Number? || t.args[1].args[0].Identifier?
    requires t.args[1].args[1].Number? || t.args[1].args[1].Identifier?
    requires f(t.args[1].args[0]) == Null && f(t.args[1].args[1]) == Null
    requires f(t.args[1]) == answer && answer != Null
    ensures Search(f, t) == Some(Located([1], answer))
  {
    var s := t.args[1];
    SearchLeaf(f, t.args[0]);
    SearchLeaf(f, s.args[0]);
    SearchLeaf(f, s.args[1]);
    SearchAfterTwo(f, s);
    var l := Located([], answer);
    SearchSecondChild(f, t, l);
    assert [1] + l.path == [1];
  }

  /** `match` reaches `x + 0` after its arguments and after the `2`. */
  lemma PlusZeroFound(eval: Node -> int)
    ensures WellFormed(Add([Placeholder("a", None), Number(0)]))
    ensures var f := DefinePatternRule(Add([Placeholder("a", None), Number(0)]), Placeholder("a", None), eval, true).matchFn;
      var b := NoBindings.(plain := map["a" := Identifier("x")]);
      Search(f, Mul([Number(2), Add([Identifier("x"), Number(0)])])) == Some(Located([1], Record(true, b, Span(0, 2))))
  {
    PlusZeroAnswers(eval);
    var f := DefinePatternRule(Add([Placeholder("a", None), Number(0)]), Placeholder("a", None), eval, true).matchFn;
    var b := NoBindings.(plain := map["a" := Identifier("x")]);
    SearchSecondOfTwo(f, Mul([Number(2), Add([Identifier("x"), Number(0)])]), Record(true, b, Span(0, 2)));
  }

  /** A match spanning all arguments of the matched node replaces it whole. */
  lemma ApplyWhole(rule: Rule, input: Node, l: Located, x: Node)
    requires Search(rule.matchFn, input) == Some(l) && l.answer.Record? && l.answer.hasNode
    requires rule.rewriteFn(At(input, l.path), l.answer.placeholders, l.answer.indexes) == Ok(x)
    requires l.answer.indexes.Span? && At(input, l.path).Apply?
    requires CheckBounds(l.answer.indexes, Some(At(input, l.path).args)) == Ok(false)
    ensures ApplyRule(rule, input) == Ok(ReplaceAt(input, l.path, FixMinuses(x)))
  {
  }

  /** Replacing the second of two arguments. */
  lemma ReplaceSecond(t: Node, x: Node)
    requires t.Apply? && |t.args| == 2
    ensures ValidPath(t, [1]) && ReplaceAt(t, [1], x) == Apply(t.op, [t.args[0], x], t.flags)
  {
    assert [1][1..] == [];
    assert t.args[1 := x] == [t.args[0], x];
  }

  /** The rule `#a + 0 -> #a` rewrites `2 * (x + 0)` to `2 * x`: since the
      match spans all arguments of the sum, the sum is replaced whole. */
  lemma PlusZeroRewrite(eval: Node -> int)
    ensures WellFormed(Add([Placeholder("a", None), Number(0)]))
    ensures var rule := DefinePatternRule(Add([Placeholder("a", None), Number(0)]), Placeholder("a", None), eval, true);
      ApplyRule(rule, Mul([Number(2), Add([Identifier("x"), Number(0)])])) == Ok(Mul([Number(2), Identifier("x")]))
  {
    var p := Add([Placeholder("a", None), Number(0)]);
    var sum := Add([Identifier("x"), Number(0)]);
    var t := Mul([Number(2), sum]);
    PlusZeroFound(eval);
    var rule := DefinePatternRule(p, Placeholder("a", None), eval, true);
    var b := NoBindings.(plain := map["a" := Identifier("x")]);
    PlusZeroRewriteFn(eval);
    assert FixMinuses(Identifier("x")) == Identifier("x");
    ApplyInSecond(rule, t, Record(true, b, Span(0, 2)), Identifier("x"));
  }

  /** A match found at the second of two arguments and spanning all of its
      arguments replaces that argument whole. */
  lemma ApplyInSecond(rule: Rule, t: Node, answer: MatchAnswer, x: Node)
    requires t.Apply? && |t.args| == 2 && t.args[1].Apply?
    requires Search(rule.matchFn, t) == Some(Located([1], answer))
    requires answer.Record? && answer.hasNode && answer.indexes == Span(0, |t.args[1].args|)
    requires rule.rewriteFn(t.args[1], answer.placeholders, answer.indexes) == Ok(x)
    requires FixMinuses(x) == x
    ensures ApplyRule(rule, t) == Ok(Apply(t.op, [t.args[0], x], t.flags))
  {
    var l := Located([1], answer);
    assert At(t, l.path) == t.args[1];
    CheckBoundsWhole(t.args[1].args);
    ApplyWhole(rule, t, l, x);
    ReplaceSecond(t, x);
  }

  lemma CheckBoundsWhole(args: seq<Node>)
    ensures CheckBounds(Span(0, |args|), Some(args)) == Ok(false)
  {
  }

  /** The rewrite half of `#a + 0 -> #a` yields the value bound to `a`. */
  lemma PlusZeroRewriteFn(eval: Node -> int)
    ensures WellFormed(Add([Placeholder("a", None), Number(0)]))
    ensures var rule := DefinePatternRule(Add([Placeholder("a", None), Number(0)]), Placeholder("a", None), eval, true);
      rule.rewriteFn(Add([Identifier("x"), Number(0)]), NoBindings.(plain := map["a" := Identifier("x")]), Span(0, 2))
        == Ok(Identifier("x"))
  {
    var b := NoBindings.(plain := map["a" := Identifier("x")]);
    assert WellFormed(Add([Placeholder("a", None), Number(0)]));
    assert Fill(Placeholder("a", None), b, eval) == Ok(Identifier("x"));
  }

  /** At offset 0 of `1 + x + 0 + 2`, `#a` binds `1` and then `0` fails
      against `x`; nothing leaks, since no family is bound. */
  lemma PlusZeroMissesFirst()
    ensures IsExpression(Add([Number(1), Identifier("x"), Number(0), Number(2)]))
    ensures WellFormed(Add([Placeholder("a", None), Number(0)]))
    ensures SubArray(Add([Placeholder("a", None), Number(0)]), Add([Number(1), Identifier("x"), Number(0), Number(2)]), map[], NoBindings, 0)
         == SubArray(Add([Placeholder("a", None), Number(0)]), Add([Number(1), Identifier("x"), Number(0), Number(2)]), map[], NoBindings, 1)
  {
    var p := Add([Placeholder("a", None), Number(0)]);
    var i := Add([Number(1), Identifier("x"), Number(0), Number(2)]);
    var c: Constraints := map[];
    var b1 := NoBindings.(plain := map["a" := Number(1)]);
    assert IsExpression(i) by {
      assert forall a <- i.args :: IsExpression(a);
    }
    MatchFreshPlaceholder("a", Number(1), c, NoBindings);
    ArgsFromNodeStep(p, i, c, NoBindings, map[], 0, 0);
    ArgsFromNodeStep(p, i, c, b1, map[], 1, 1);
    assert Leak(NoBindings, b1) == NoBindings;
    SubArrayMiss(p, i, c, NoBindings, 0);
  }

  /** At offset 1, `#a` binds `x` and `0` matches `0`. */
  lemma PlusZeroHitsSecond()
    ensures IsExpression(Add([Number(1), Identifier("x"), Number(0), Number(2)]))
    ensures WellFormed(Add([Placeholder("a", None), Number(0)]))
    ensures SubArray(Add([Placeholder("a", None), Number(0)]), Add([Number(1), Identifier("x"), Number(0), Number(2)]), map[], NoBindings, 1)
         == Outcome(true, NoBindings.(plain := map["a" := Identifier("x")]), Span(1, 3))
  {
    var p := Add([Placeholder("a", None), Number(0)]);
    var i := Add([Number(1), Identifier("x"), Number(0), Number(2)]);
    var c: Constraints := map[];
    var bx := NoBindings.(plain := map["a" := Identifier("x")]);
    assert IsExpression(i) by {
      assert forall a <- i.args :: IsExpression(a);
    }
    MatchFreshPlaceholder("a", Identifier("x"), c, NoBindings);
    ArgsFromNodeStep(p, i, c, NoBindings, map[], 0, 1);
    ArgsFromNodeStep(p, i, c, bx, map[], 1, 2);
    SubArrayHit(p, i, c, NoBindings, 1);
  }

  /** `#a + 0` matches the middle two arguments of `1 + x + 0 + 2`. */
  lemma PlusZeroMatchesInside()
    ensures IsExpression(Add([Number(1), Identifier("x"), Number(0), Number(2)]))
    ensures WellFormed(Add([Placeholder("a", None), Number(0)]))
    ensures MatchNode(Add([Placeholder("a", None), Number(0)]), Add([Number(1), Identifier("x"), Number(0), Number(2)]), map[])
            == Some((NoBindings.(plain := map["a" := Identifier("x")]), Span(1, 3)))
  {
    PlusZeroMissesFirst();
    PlusZeroHitsSecond();
    MatchChain(Add([Placeholder("a", None), Number(0)]), Add([Number(1), Identifier("x"), Number(0), Number(2)]), map[], NoBindings);
  }

  /** A node with four children that yield no match. */
  lemma SearchAfterFour(f: MatchFn, t: Node)
    requires |Children(t)| == 4
    requires forall j :: 0 <= j < 4 ==> Search(f, Children(t)[j]) == None
    ensures Search(f, t) == if f(t) != Null then Some(Located([], f(t))) else None
  {
    assert SearchChildren(f, t, 4) == None;
    assert SearchChildren(f, t, 3) == None;
    assert SearchChildren(f, t, 2) == None;
    assert SearchChildren(f, t, 1) == None;
  }

  /** The answers of the `#a + 0` match function on the nodes of
      `1 + x + 0 + 2`: only the sum gives a record. */
  lemma PlusZeroAnswersInside(eval: Node -> int)
    ensures WellFormed(Add([Placeholder("a", None), Number(0)]))
    ensures var f := DefinePatternRule(Add([Placeholder("a", None), Number(0)]), Placeholder("a", None), eval, true).matchFn;
      f(Number(1)) == Null && f(Identifier("x")) == Null && f(Number(0)) == Null && f(Number(2)) == Null &&
      f(Add([Number(1), Identifier("x"), Number(0), Number(2)])) ==
        Record(true, NoBindings.(plain := map["a" := Identifier("x")]), Span(1, 3))
  {
    var p := Add([Placeholder("a", None), Number(0)]);
    PlusZeroMatchesInside();
    PatternRuleMatchFn(p, Placeholder("a", None), eval, true, map[]);
    ApplyPatternRejectsLeaf(p, map[], Number(1));
    ApplyPatternRejectsLeaf(p, map[], Identifier("x"));
    ApplyPatternRejectsLeaf(p, map[], Number(0));
    ApplyPatternRejectsLeaf(p, map[], Number(2));
    PatternToMatchFnAnswers(p, map[], Add([Number(1), Identifier("x"), Number(0), Number(2)]));
  }

  /** `match` finds `1 + x + 0 + 2` itself, with the range `[1, 3)`. */
  lemma PlusZeroFoundInside(eval: Node -> int)
    ensures WellFormed(Add([Placeholder("a", None), Number(0)]))
    ensures var f := DefinePatternRule(Add([Placeholder("a", None), Number(0)]), Placeholder("a", None), eval, true).matchFn;
      var b := NoBindings.(plain := map["a" := Identifier("x")]);
      Search(f, Add([Number(1), Identifier("x"), Number(0), Number(2)])) == Some(Located([], Record(true, b, Span(1, 3))))
  {
    var p := Add([Placeholder("a", None), Number(0)]);
    var t := Add([Number(1), Identifier("x"), Number(0), Number(2)]);
    PlusZeroAnswersInside(eval);
    var f := DefinePatternRule(p, Placeholder("a", None), eval, true).matchFn;
    SearchFourLeaves(f, Number(1), Identifier("x"), Number(0), Number(2), f(t));
  }

  /** In a sum of four leaves, all rejected, a record for the sum itself
      is found at the root. */
  lemma SearchFourLeaves(f: MatchFn, u: Node, v: Node, w: Node, z: Node, answer: MatchAnswer)
    requires (u.Number? || u.Identifier?) && (v.Number? || v.Identifier?)
    requires (w.Number? || w.Identifier?) && (z.Number? || z.Identifier?)
    requires f(u) == Null && f(v) == Null && f(w) == Null && f(z) == Null
    requires f(Add([u, v, w, z])) == answer && answer != Null
    ensures Search(f, Add([u, v, w, z])) == Some(Located([], answer))
  {
    var t := Add([u, v, w, z]);
    SearchLeaf(f, u);
    SearchLeaf(f, v);
    SearchLeaf(f, w);
    SearchLeaf(f, z);
    assert Children(t) == [u, v, w, z];
    SearchAfterFour(f, t);
  }

  /** A match at the root of a sum of four arguments over the middle two
      has the replacement spliced over those two. */
  lemma ApplySpliceMiddle(rule: Rule, u: Node, v: Node, w: Node, z: Node, b: Bindings, x: Node)
    requires Search(rule.matchFn, Add([u, v, w, z])) == Some(Located([], Record(true, b, Span(1, 3))))
    requires rule.rewriteFn(Add([u, v, w, z]), b, Span(1, 3)) == Ok(x)
    requires FixMinuses(x) == x
    ensures ApplyRule(rule, Add([u, v, w, z])) == Ok(Add([u, x, z]))
  {
    var args := [u, v, w, z];
    assert CheckBounds(Span(1, 3), Some(args)) == Ok(true);
    assert Splice(args, 1, 3, x) == [u, x, z];
  }

  /** The rule `#a + 0 -> #a` rewrites `1 + x + 0 + 2` to `1 + x + 2`:
      the range `[1, 3)` is not the whole argument list, so `x` is spliced
      over it instead of replacing the sum. */
  lemma PlusZeroSplice(eval: Node -> int)
    ensures WellFormed(Add([Placeholder("a", None), Number(0)]))
    ensures var rule := DefinePatternRule(Add([Placeholder("a", None), Number(0)]), Placeholder("a", None), eval, true);
      ApplyRule(rule, Add([Number(1), Identifier("x"), Number(0), Number(2)])) ==
        Ok(Add([Number(1), Identifier("x"), Number(2)]))
  {
    var p := Add([Placeholder("a", None), Number(0)]);
    var t := Add([Number(1), Identifier("x"), Number(0), Number(2)]);
    var rule := DefinePatternRule(p, Placeholder("a", None), eval, true);
    var b := NoBindings.(plain := map["a" := Identifier("x")]);
    PlusZeroFoundInside(eval);
    PlusZeroRewriteInside(eval);
    assert FixMinuses(Identifier("x")) == Identifier("x");
    ApplySpliceMiddle(rule, Number(1), Identifier("x"), Number(0), Number(2), b, Identifier("x"));
  }

  /** The rewrite half yields `x` whatever node and range it is given. */
  lemma PlusZeroRewriteInside(eval: Node -> int)
    ensures WellFormed(Add([Placeholder("a", None), Number(0)]))
    ensures var rule := DefinePatternRule(Add([Placeholder("a", None), Number(0)]), Placeholder("a", None), eval, true);
      rule.rewriteFn(Add([Number(1), Identifier("x"), Number(0), Number(2)]), NoBindings.(plain := map["a" := Identifier("x")]), Span(1, 3))
        == Ok(Identifier("x"))
  {
    PlusZeroRewriteFn(eval);
  }

  /** With `a` constrained to numbers, `#a + #a` does not match `x + x`:
      the constraint rejects the first argument at the only offset. */
  lemma ConstraintRejectsRepeated()
    ensures IsExpression(Add([Identifier("x"), Identifier("x")]))
    ensures MatchNode(Add([Placeholder("a", None), Placeholder("a", None)]), Add([Identifier("x"), Identifier("x")]),
                      map["a" := (n: Node) => IsNumber(n)]) == None
  {
    var pa := Placeholder("a", None);
    var p := Add([pa, pa]);
    var i := Add([Identifier("x"), Identifier("x")]);
    var c: Constraints := map["a" := (n: Node) => IsNumber(n)];
    assert IsExpression(i) by {
      assert forall a <- i.args :: IsExpression(a);
    }
    assert "a" in c && !c["a"](Identifier("x"));
    ArgsFromNodeStep(p, i, c, NoBindings, map[], 0, 0);
    SubArrayMiss(p, i, c, NoBindings, 0);
    assert Leak(NoBindings, NoBindings) == NoBindings;
    MatchChain(p, i, c, NoBindings);
  }

  // ---------------------------------------------------------------------
  // An ellipsis: `#a * #b_0 * ...` against `5 * x^2 * y * z * 10`

  function Pow(base: Node, exponent: Node): Node { Apply("pow", [base, exponent], {}) }

  /** A stand-in for the `isVariableFactor` constraint of the test: an
      identifier or a power. */
  predicate IsFactor(n: Node)
  {
    n.Identifier? || (n.Apply? && n.op == "pow")
  }

  const PolyConstraints: Constraints :=
    map["a" := (n: Node) => IsNumber(n), "b" := (n: Node) => IsFactor(n)]

  const PolyPattern: Node := Mul([Placeholder("a", None), Placeholder("b", Some(0)), Ellipsis])

  const PolyInput: Node :=
    Mul([Number(5), Pow(Identifier("x"), Number(2)), Identifier("y"), Identifier("z"), Number(10)])

  /** The table after `#a` and `#b_0`. */
  function PolyHead(): Bindings
  {
    Bindings(map["a" := Number(5)], map[("b", 0) := Pow(Identifier("x"), Number(2))], map[])
  }

  /** The table after the ellipsis: `b_1` and `b_2` added, `b_3` unbound. */
  function PolyAll(): Bindings
  {
    PolyHead().(entries := PolyHead().entries[("b", 1) := Identifier("y")][("b", 2) := Identifier("z")])
  }

  lemma PolyShapes()
    ensures IsExpression(PolyInput) && WellFormed(PolyPattern) && Ground(PolyHead()) && Ground(PolyAll())
  {
    assert forall a <- PolyInput.args :: IsExpression(a) by {
      assert IsExpression(Pow(Identifier("x"), Number(2))) by {
        assert forall a <- [Identifier("x"), Number(2)] :: IsExpression(a);
      }
    }
  }

  /** `#a` binds `5` and `#b_0` binds `x^2`; the pattern then reaches its
      ellipsis at input argument 2. */
  /** The table after `#a`. */
  function PolyCoefficient(): Bindings
  {
    NoBindings.(plain := map["a" := Number(5)])
  }

  /** `#a` takes `5`. */
  lemma PolyCoefficientMatches()
    ensures IsExpression(PolyInput) && WellFormed(PolyPattern)
    ensures ArgsFrom(PolyPattern, PolyInput, PolyConstraints, NoBindings, map[], 0, 0) ==
            ArgsFrom(PolyPattern, PolyInput, PolyConstraints, PolyCoefficient(), map[], 1, 1)
  {
    var p, i, c := PolyPattern, PolyInput, PolyConstraints;
    PolyShapes();
    assert "a" in c && c["a"](Number(5));
    MatchFreshPlaceholder("a", Number(5), c, NoBindings);
    ArgsFromNodeStep(p, i, c, NoBindings, map[], 0, 0);
  }

  /** `#b_0` takes `x^2`. */
  lemma PolyFactorMatches()
    ensures IsExpression(PolyInput) && WellFormed(PolyPattern)
    ensures ArgsFrom(PolyPattern, PolyInput, PolyConstraints, PolyCoefficient(), map[], 1, 1) ==
            ArgsFrom(PolyPattern, PolyInput, PolyConstraints, PolyHead(), map[], 2, 2)
  {
    var p, i, c, b1 := PolyPattern, PolyInput, PolyConstraints, PolyCoefficient();
    PolyShapes();
    assert "b" in c && c["b"](Pow(Identifier("x"), Number(2)));
    MatchFreshEntry("b", 0, Pow(Identifier("x"), Number(2)), c, b1);
    ArgsFromNodeStep(p, i, c, b1, map[], 1, 1);
    assert b1.(entries := b1.entries[("b", 0) := Pow(Identifier("x"), Number(2))]) == PolyHead();
  }

  /** The table after `#b_1`. */
  function PolyMid(): Bindings
  {
    PolyHead().(entries := PolyHead().entries[("b", 1) := Identifier("y")])
  }

  /** One step of an ellipsis in a product whose template is a single
      subscripted placeholder: the input argument itself (no `neg`
      unwrapping outside `add`) is compared with the placeholder carrying
      the name's next counter value. */
  lemma ProductEllipsisStep(p: Node, k: nat, i: Node, c: Constraints, b: Bindings, negs: map<nat, bool>,
                            cs: map<string, nat>, idx: nat, count: nat, n: string, s: nat, r: Outcome)
    requires p.Apply? && p.op == "mul" && 0 < k < |p.args| && i.Apply?
    requires IsExpression(i) && WellFormed(p) && Ground(b) && idx < |i.args|
    requires p.args[k - 1] == Placeholder(n, Some(s))
    requires MatchNodeAt(Placeholder(n, Some(NextSubscript(cs, n))), i.args[idx], c, b) == r
    ensures EllipsisFrom(p, k, i, c, b, negs, cs, idx, count) ==
      if r.ok then EllipsisFrom(p, k, i, c, r.b, negs, cs[n := NextSubscript(cs, n) + 1], idx + 1, count + 1)
      else EllipsisOutcome(count, r.b, negs)
  {
    EllipsisStep(p, k, i, c, b, negs, cs, idx, count);
  }

  /** The first step starts from fresh counters, so `b` gets subscript 1. */
  lemma PolyFirstStep()
    ensures IsExpression(PolyInput) && WellFormed(PolyPattern) && Ground(PolyHead())
    ensures EllipsisFrom(PolyPattern, 2, PolyInput, PolyConstraints, PolyHead(), map[], map[], 2, 0) ==
            EllipsisFrom(PolyPattern, 2, PolyInput, PolyConstraints, PolyMid(), map[], map["b" := 2], 3, 1)
  {
    var p, i, c := PolyPattern, PolyInput, PolyConstraints;
    PolyShapes();
    assert "b" in c && c["b"](Identifier("y"));
    MatchFreshEntry("b", 1, Identifier("y"), c, PolyHead());
    ProductEllipsisStep(p, 2, i, c, PolyHead(), map[], map[], 2, 0, "b", 0,
      Outcome(true, PolyMid(), EmptyIndexes));
  }

  lemma PolySecondStep()
    ensures IsExpression(PolyInput) && WellFormed(PolyPattern) && Ground(PolyMid())
    ensures EllipsisFrom(PolyPattern, 2, PolyInput, PolyConstraints, PolyMid(), map[], map["b" := 2], 3, 1) ==
            EllipsisFrom(PolyPattern, 2, PolyInput, PolyConstraints, PolyAll(), map[], map["b" := 2]["b" := 3], 4, 2)
  {
    PolyShapes();
    assert "b" in PolyConstraints && PolyConstraints["b"](Identifier("z"));
    PolySecondStepAt(PolyPattern, PolyInput, PolyConstraints);
  }

  /** The second step, for any pattern and input of the polynomial shape. */
  lemma PolySecondStepAt(p: Node, i: Node, c: Constraints)
    requires p.Apply? && p.op == "mul" && |p.args| > 2 && p.args[1] == Placeholder("b", Some(0))
    requires i.Apply? && IsExpression(i) && WellFormed(p) && |i.args| > 3 && i.args[3] == Identifier("z")
    requires "b" in c && c["b"](Identifier("z"))
    ensures Ground(PolyMid())
    ensures EllipsisFrom(p, 2, i, c, PolyMid(), map[], map["b" := 2], 3, 1) ==
            EllipsisFrom(p, 2, i, c, PolyAll(), map[], map["b" := 2]["b" := 3], 4, 2)
  {
    PolyShapes();
    assert Ground(PolyMid());
    MatchFreshEntry("b", 2, Identifier("z"), c, PolyMid());
    PolyMidToAll();
    ProductEllipsisStep(p, 2, i, c, PolyMid(), map[], map["b" := 2], 3, 1, "b", 0,
      Outcome(true, PolyAll(), EmptyIndexes));
  }

  lemma PolyMidToAll()
    ensures PolyMid().(entries := PolyMid().entries[("b", 2) := Identifier("z")]) == PolyAll()
  {
  }

  /** `10` fails the constraint on `b`, which ends the run. */
  lemma PolyLastStep()
    ensures IsExpression(PolyInput) && WellFormed(PolyPattern) && Ground(PolyAll())
    ensures EllipsisFrom(PolyPattern, 2, PolyInput, PolyConstraints, PolyAll(), map[], map["b" := 2]["b" := 3], 4, 2) ==
            EllipsisOutcome(2, PolyAll(), map[])
  {
    var p, i, c := PolyPattern, PolyInput, PolyConstraints;
    PolyShapes();
    assert "b" in c && !c["b"](Number(10));
    ProductEllipsisStep(p, 2, i, c, PolyAll(), map[], map["b" := 2]["b" := 3], 4, 2, "b", 0,
      Outcome(false, PolyAll(), EmptyIndexes));
  }

  /** The ellipsis renumbers `#b_0` to `#b_1`, `#b_2`, `#b_3` and stops at
      `10`, which the constraint on `b` rejects: two arguments consumed. */
  lemma PolyEllipsis()
    ensures IsExpression(PolyInput) && WellFormed(PolyPattern) && Ground(PolyHead())
    ensures EllipsisFrom(PolyPattern, 2, PolyInput, PolyConstraints, PolyHead(), map[], map[], 2, 0) ==
            EllipsisOutcome(2, PolyAll(), map[])
  {
    PolyFirstStep();
    PolySecondStep();
    PolyLastStep();
  }

  /** The `every` at offset 0 succeeds and stops after input argument 3. */
  lemma PolyArgs()
    ensures IsExpression(PolyInput) && WellFormed(PolyPattern)
    ensures ArgsFrom(PolyPattern, PolyInput, PolyConstraints, NoBindings, map[], 0, 0) ==
            ArgsOutcome(true, PolyAll(), map[], 4)
  {
    var p, i, c := PolyPattern, PolyInput, PolyConstraints;
    PolyShapes();
    PolyCoefficientMatches();
    PolyFactorMatches();
    PolyEllipsisArg();
    assert ArgsFrom(p, i, c, PolyAll(), map[], 3, 4) == ArgsOutcome(true, PolyAll(), map[], 4);
  }

  /** The ellipsis is the third pattern argument: the `every` goes on
      after the two input arguments it consumed. */
  lemma PolyEllipsisArg()
    ensures IsExpression(PolyInput) && WellFormed(PolyPattern) && Ground(PolyHead()) && Ground(PolyAll())
    ensures ArgsFrom(PolyPattern, PolyInput, PolyConstraints, PolyHead(), map[], 2, 2) ==
            ArgsFrom(PolyPattern, PolyInput, PolyConstraints, PolyAll(), map[], 3, 4)
  {
    var p, i, c := PolyPattern, PolyInput, PolyConstraints;
    PolyShapes();
    PolyEllipsis();
    assert ArgsFrom(p, i, c, PolyHead(), map[], 2, 2) == ArgsEllipsis(p, i, c, PolyHead(), map[], 2, 2);
  }

  /** `#a * #b_0 * ...` matches `5 * x^2 * y * z * 10` over its first four
      arguments, binding `a` to `5` and `b_0`, `b_1`, `b_2` to `x^2`, `y`,
      `z`; `b_3` stays unbound and `10` is left over. */
  lemma PolyMatches()
    ensures IsExpression(PolyInput) && WellFormed(PolyPattern)
    ensures MatchNode(PolyPattern, PolyInput, PolyConstraints) == Some((PolyAll(), Span(0, 4)))
    ensures ("b", 3) !in PolyAll().entries
  {
    var p, i, c := PolyPattern, PolyInput, PolyConstraints;
    PolyArgs();
    SubArrayHit(p, i, c, NoBindings, 0);
    MatchChain(p, i, c, NoBindings);
    assert SubArray(p, i, c, NoBindings, 0) == Outcome(true, PolyAll(), Span(0, 4));
    assert MatchNodeAt(p, i, c, NoBindings) == Outcome(true, PolyAll(), Span(0, 4));
    assert MatchNode(PolyPattern, PolyInput, PolyConstraints) == Some((PolyAll(), Span(0, 4)));
    PolyNoFourth();
  }

  lemma PolyNoFourth()
    ensures ("b", 3) !in PolyAll().entries
  {
    assert PolyAll().entries.Keys == {("b", 0), ("b", 1), ("b", 2)};
  }

  // ---------------------------------------------------------------------
  // flattenOperands

  /** `(1 * 2) * (3 * 4)` becomes `1 * 2 * 3 * 4`. */
  lemma FlattenProductOfProducts()
    ensures Flatten.Flatten(Mul([Mul([Number(1), Number(2)]), Mul([Number(3), Number(4)])]))
            == Mul([Number(1), Number(2), Number(3), Number(4)])
  {
    var l, r := Mul([Number(1), Number(2)]), Mul([Number(3), Number(4)]);
    FlatUnchanged(l);
    FlatUnchanged(r);
    assert FlattenEach([l, r]) == [l, r];
    assert FlattenArgs("mul", [r]) == r.args;
  }

  /** `x^(1 * (2 * (3 * 4)))` becomes `x^(1 * 2 * 3 * 4)`: the exponent is
      flattened and the power is left alone. */
  lemma FlattenInsideExponent()
    ensures Flatten.Flatten(Apply("pow", [Identifier("x"),
                                  Mul([Number(1), Mul([Number(2), Mul([Number(3), Number(4)])])])], {}))
            == Apply("pow", [Identifier("x"), Mul([Number(1), Number(2), Number(3), Number(4)])], {})
  {
    var e := Mul([Number(1), Mul([Number(2), Mul([Number(3), Number(4)])])]);
    FlattenNestedProduct();
    assert FlattenEach([Identifier("x"), e]) == [Identifier("x"), Flatten.Flatten(e)];
  }

  /** The exponent `1 * (2 * (3 * 4))` flattens to `1 * 2 * 3 * 4`. */
  lemma FlattenNestedProduct()
    ensures Flatten.Flatten(Mul([Number(1), Mul([Number(2), Mul([Number(3), Number(4)])])]))
            == Mul([Number(1), Number(2), Number(3), Number(4)])
  {
    var inner := Mul([Number(3), Number(4)]);
    var middle := Mul([Number(2), inner]);
    var e := Mul([Number(1), middle]);
    FlattenKeepsOrder("mul", e.args, {});
    assert TermsArgs("mul", inner.args) == [Number(3), Number(4)] by {
      assert inner.args[1..] == [Number(4)];
    }
    assert TermsArgs("mul", [inner]) == [Number(3), Number(4)] by {
      assert [inner][1..] == [];
    }
    assert TermsArgs("mul", middle.args) == [Number(2), Number(3), Number(4)] by {
      assert middle.args[1..] == [inner];
    }
    assert TermsArgs("mul", [middle]) == [Number(2), Number(3), Number(4)] by {
      assert [middle][1..] == [];
    }
    assert TermsArgs("mul", e.args) == [Number(1), Number(2), Number(3), Number(4)] by {
      assert e.args[1..] == [middle];
    }
  }

  // ---------------------------------------------------------------------
  // collectLikeTermsRule

  /** `x + 1` has neither two constants nor two terms in one variable. */
  lemma NoLikeTermsInXPlusOne()
    ensures !CanApplyRule(LikeTermsRule(), Add([Identifier("x"), Number(1)]))
  {
    var t := Add([Identifier("x"), Number(1)]);
    assert IsExpression(t) by {
      assert forall a <- t.args :: IsExpression(a);
    }
    NoCoefficientOutsideMul(Identifier("x"));
    NoCoefficientOutsideMul(Number(1));
    ConstantsAreNumbers(t.args);
    assert t.args[..1] == [Identifier("x")];
    assert Coefficients(t.args) == map[];
    assert Numbers(t.args) == [Number(1)];
    assert LikeTermsMatch(t) == Null;
    assert Search(LikeTermsMatch, Identifier("x")) == None;
    assert Search(LikeTermsMatch, Number(1)) == None;
    assert SearchChildren(LikeTermsMatch, t, 2) == None;
    assert SearchChildren(LikeTermsMatch, t, 0) == None;
  }

  /** `a x + k + b x` with numbers `a`, `k`, `b` (as `2x + 1 + 3x`). */
  function TwoTermsAndConstant(a: Node, k: Node, b: Node, x: string): Node
  {
    Add([Term(a, x), k, Term(b, x)])
  }

  lemma TwoTermsAndConstantArgs(a: Node, k: Node, b: Node, x: string)
    requires IsNumber(a) && IsNumber(k) && IsNumber(b)
    requires IsExpression(a) && IsExpression(k) && IsExpression(b)
    ensures IsExpression(TwoTermsAndConstant(a, k, b, x))
    ensures forall e <- TwoTermsAndConstant(a, k, b, x).args :: IsExpression(e)
    ensures CoefficientOf(TwoTermsAndConstant(a, k, b, x).args[0]) == Some((x, a))
    ensures CoefficientOf(TwoTermsAndConstant(a, k, b, x).args[1]) == None
    ensures CoefficientOf(TwoTermsAndConstant(a, k, b, x).args[2]) == Some((x, b))
  {
    TwoTermsAndConstantIsExpression(a, k, b, x);
    CoefficientOfTerm(a, x, {Implicit});
    CoefficientOfTerm(b, x, {Implicit});
    NoCoefficientOutsideMul(k);
  }

  lemma TwoTermsAndConstantIsExpression(a: Node, k: Node, b: Node, x: string)
    requires IsNumber(k) && IsExpression(a) && IsExpression(k) && IsExpression(b)
    ensures IsExpression(TwoTermsAndConstant(a, k, b, x))
    ensures forall e <- TwoTermsAndConstant(a, k, b, x).args :: IsExpression(e)
    ensures TwoTermsAndConstant(a, k, b, x).args == [Term(a, x), k, Term(b, x)]
    ensures !IsMul(k)
  {
    var ta, tb := Term(a, x), Term(b, x);
    assert IsExpression(ta) by {
      assert forall e <- ta.args :: IsExpression(e);
    }
    assert IsExpression(tb) by {
      assert forall e <- tb.args :: IsExpression(e);
    }
  }

  /** The coefficient lists and key order `getCoefficientsAndConstants`
      builds: one variable with both coefficients, in order. */
  lemma TwoTermsAndConstantCoefficients(a: Node, k: Node, b: Node, x: string)
    requires IsNumber(a) && IsNumber(k) && IsNumber(b)
    requires IsExpression(a) && IsExpression(k) && IsExpression(b)
    ensures forall e <- TwoTermsAndConstant(a, k, b, x).args :: IsExpression(e)
    ensures Coefficients(TwoTermsAndConstant(a, k, b, x).args) == map[x := [a, b]]
    ensures KeyOrder(TwoTermsAndConstant(a, k, b, x).args) == [x]
  {
    TwoTermsAndConstantArgs(a, k, b, x);
    ThreeArgsCoefficients(TwoTermsAndConstant(a, k, b, x).args, x, a, b);
  }

  /** Two terms in `x` around an argument without a coefficient. */
  lemma ThreeArgsCoefficients(args: seq<Node>, x: string, a: Node, b: Node)
    requires |args| == 3 && forall e <- args :: IsExpression(e)
    requires CoefficientOf(args[0]) == Some((x, a))
    requires CoefficientOf(args[1]) == None
    requires CoefficientOf(args[2]) == Some((x, b))
    ensures Coefficients(args) == map[x := [a, b]]
    ensures KeyOrder(args) == [x]
  {
    ThreeArgsPrefix(args, x, a);
    CoefficientStep(args, 2, x, b);
    SecondCoefficient(x, a, b);
    assert args[..3] == args;
  }

  /** The first two of those arguments record `a` under `x`. */
  lemma ThreeArgsPrefix(args: seq<Node>, x: string, a: Node)
    requires |args| == 3 && forall e <- args :: IsExpression(e)
    requires CoefficientOf(args[0]) == Some((x, a))
    requires CoefficientOf(args[1]) == None
    ensures forall e <- args[..2] :: IsExpression(e)
    ensures Coefficients(args[..2]) == map[x := [a]]
    ensures KeyOrder(args[..2]) == [x]
  {
    assert args[..0] == [];
    CoefficientStep(args, 0, x, a);
    FirstCoefficient(x, a);
    NoCoefficientStep(args, 1);
  }

  /** Recording the first coefficient of a variable. */
  lemma FirstCoefficient(x: string, a: Node)
    ensures var m: map<string, seq<Node>> := map[];
      m[x := (if x in m then m[x] else []) + [a]] == map[x := [a]]
    ensures var keys: seq<string> := []; keys + [x] == [x]
  {
    var none: seq<Node> := [];
    assert none + [a] == [a];
    var noKeys: seq<string> := [];
    assert noKeys + [x] == [x];
  }

  /** Recording a second coefficient of the same variable. */
  lemma SecondCoefficient(x: string, a: Node, b: Node)
    ensures var m := map[x := [a]];
      x in m && m[x := (if x in m then m[x] else []) + [b]] == map[x := [a, b]]
  {
    var empty: map<string, seq<Node>> := map[];
    UpdateTwice(empty, x, [a], [a] + [b]);
    assert [a] + [b] == [a, b];
  }

  /** The constants: the one number argument. */
  lemma TwoTermsAndConstantConstants(a: Node, k: Node, b: Node, x: string)
    requires IsNumber(a) && IsNumber(k) && IsNumber(b)
    requires IsExpression(a) && IsExpression(k) && IsExpression(b)
    ensures forall e <- TwoTermsAndConstant(a, k, b, x).args :: IsExpression(e)
    ensures Constants(TwoTermsAndConstant(a, k, b, x).args) == [k]
  {
    var args := TwoTermsAndConstant(a, k, b, x).args;
    TwoTermsAndConstantIsExpression(a, k, b, x);
    NumbersOfThree(Term(a, x), k, Term(b, x));
    ConstantsAreNumbers(args);
  }

  lemma NumbersOfThree(u: Node, v: Node, w: Node)
    requires !IsNumber(u) && IsNumber(v) && !IsNumber(w)
    ensures Numbers([u, v, w]) == [v]
  {
    assert [u, v, w][..2] == [u, v];
    assert [u, v][..1] == [u];
    assert [u][..0] == [];
    assert Numbers([u]) == [];
    assert Numbers([u, v]) == [v];
  }

  /** Two coefficients in one variable give an `add` of two terms. */
  lemma GroupOfTwo(a: Node, b: Node, x: string)
    ensures Group([a, b], x) == Add([Term(a, x), Term(b, x)])
  {
    var coeffs := [a, b];
    var terms := seq(|coeffs|, k requires 0 <= k < |coeffs| => Term(coeffs[k], x));
    assert terms == [Term(a, x), Term(b, x)];
  }

  /** The rewrite of `a x + k + b x` is `(a x + b x) + k`: one group for the
      single variable, and the lone constant still wrapped in its own
      one-argument `add`. */
  lemma TwoTermsAndConstantRewrite(a: Node, k: Node, b: Node, x: string)
    requires IsNumber(a) && IsNumber(k) && IsNumber(b)
    requires IsExpression(a) && IsExpression(k) && IsExpression(b)
    ensures LikeTermsRewrite(TwoTermsAndConstant(a, k, b, x), NoBindings, NoIndexes) ==
      Ok(Add([Add([Term(a, x), Term(b, x)]), Add([k])]))
  {
    var t := TwoTermsAndConstant(a, k, b, x);
    TwoTermsAndConstantIsExpression(a, k, b, x);
    TwoTermsAndConstantGroups(a, k, b, x);
    TwoTermsAndConstantConstants(a, k, b, x);
    LikeTermsRewriteOne(t, NoBindings, NoIndexes, Add([Term(a, x), Term(b, x)]), [k]);
  }

  /** The two terms in `x` form the one group. */
  lemma TwoTermsAndConstantGroups(a: Node, k: Node, b: Node, x: string)
    requires IsNumber(a) && IsNumber(k) && IsNumber(b)
    requires IsExpression(a) && IsExpression(k) && IsExpression(b)
    ensures forall e <- TwoTermsAndConstant(a, k, b, x).args :: IsExpression(e)
    ensures Groups(TwoTermsAndConstant(a, k, b, x).args) == [Add([Term(a, x), Term(b, x)])]
  {
    var t := TwoTermsAndConstant(a, k, b, x);
    TwoTermsAndConstantCoefficients(a, k, b, x);
    assert SortStrings([x]) == [x];
    CoefficientLists(t.args);
    GroupsShape(t.args);
    assert CoefficientsIn(t.args, x) == [a, b];
    GroupOfTwo(a, b, x);
  }

  /** The rewrite of an `add` expression whose terms form one group. */
  lemma LikeTermsRewriteOne(node: Node, b: Bindings, idx: Indexes, g: Node, constants: seq<Node>)
    requires node.Apply? && IsExpression(node)
    requires forall a <- node.args :: IsExpression(a)
    requires Groups(node.args) == [g] && Constants(node.args) == constants != []
    ensures LikeTermsRewrite(node, b, idx) == Ok(Add([g, Add(constants)]))
  {
    assert [g] + [Add(constants)] == [g, Add(constants)];
  }

  /** A node with three children that yield no match. */
  lemma SearchAfterThree(f: MatchFn, t: Node)
    requires |Children(t)| == 3
    requires forall j :: 0 <= j < 3 ==> Search(f, Children(t)[j]) == None
    ensures Search(f, t) == if f(t) != Null then Some(Located([], f(t))) else None
  {
    assert SearchChildren(f, t, 3) == None;
    assert SearchChildren(f, t, 2) == None;
    assert SearchChildren(f, t, 1) == None;
  }

  /** Both versions of the rule find `p x + q + r x` at its root. */
  lemma LikeTermsFoundAtRoot(p: int, q: int, r: int, x: string)
    ensures var t := TwoTermsAndConstant(Number(p), Number(q), Number(r), x);
      Search(LikeTermsMatch, t) == Some(Located([], Record(false, NoBindings, NoIndexes))) &&
      Search(LikeTermsMatchFixed, t) == Some(Located([], Record(true, NoBindings, NoIndexes)))
  {
    LikeTermsMatchRoot(p, q, r, x);
    OnlyRootCanAnswer(LikeTermsMatch, p, q, r, x);
    OnlyRootCanAnswer(LikeTermsMatchFixed, p, q, r, x);
  }

  /** `p x + q + r x` has like terms. */
  lemma LikeTermsMatchRoot(p: int, q: int, r: int, x: string)
    ensures var t := TwoTermsAndConstant(Number(p), Number(q), Number(r), x);
      LikeTermsMatch(t) == Record(false, NoBindings, NoIndexes) &&
      LikeTermsMatchFixed(t) == Record(true, NoBindings, NoIndexes)
  {
    var t := TwoTermsAndConstant(Number(p), Number(q), Number(r), x);
    TwoTermsAndConstantCoefficients(Number(p), Number(q), Number(r), x);
    assert x in Coefficients(t.args) && |Coefficients(t.args)[x]| > 1;
    assert HasLikeTerms(t.args);
    assert IsExpression(t);
  }

  /** A match function that answers null on every proper part of
      `p x + q + r x` can only answer at its root. */
  lemma OnlyRootCanAnswer(f: MatchFn, p: int, q: int, r: int, x: string)
    requires f(Number(p)) == Null && f(Number(q)) == Null && f(Number(r)) == Null
    requires f(Identifier(x)) == Null
    requires f(Term(Number(p), x)) == Null && f(Term(Number(r), x)) == Null
    ensures var t := TwoTermsAndConstant(Number(p), Number(q), Number(r), x);
      Search(f, t) == if f(t) != Null then Some(Located([], f(t))) else None
  {
    var t := TwoTermsAndConstant(Number(p), Number(q), Number(r), x);
    var terms := [Term(Number(p), x), Term(Number(r), x)];
    forall u <- terms
      ensures Search(f, u) == None
    {
      SearchLeaf(f, u.args[0]);
      SearchLeaf(f, u.args[1]);
      SearchAfterTwo(f, u);
    }
    SearchLeaf(f, Number(q));
    assert Children(t) == [terms[0], Number(q), terms[1]];
    SearchAfterThree(f, t);
  }

  lemma AddNoWasMinus(args: seq<Node>)
    requires forall a <- args :: NoWasMinus(a)
    ensures NoWasMinus(Add(args))
  {
  }

  /** A rule matching the whole input without indexes replaces it. */
  lemma ApplyAtRoot(rule: Rule, input: Node, b: Bindings, x: Node)
    requires Search(rule.matchFn, input) == Some(Located([], Record(true, b, NoIndexes)))
    requires rule.rewriteFn(input, b, NoIndexes) == Ok(x)
    ensures ApplyRule(rule, input) == Ok(FixMinuses(x))
  {
  }

  /** The finding in one case: as written the rule leaves `p x + q + r x`
      as it is. */
  lemma LikeTermsAsWrittenExample(p: int, q: int, r: int, x: string)
    ensures var t := TwoTermsAndConstant(Number(p), Number(q), Number(r), x);
      ApplyRule(LikeTermsRule(), t) == Ok(t)
  {
    LikeTermsFoundAtRoot(p, q, r, x);
  }

  /** The corrected rule collects `p x + q + r x` to `(p x + r x) + q`. */
  lemma LikeTermsFixedExample(p: int, q: int, r: int, x: string)
    ensures var t := TwoTermsAndConstant(Number(p), Number(q), Number(r), x);
      ApplyRule(LikeTermsRuleFixed(), t) ==
        Ok(Add([Add([Term(Number(p), x), Term(Number(r), x)]), Add([Number(q)])]))
  {
    var t := TwoTermsAndConstant(Number(p), Number(q), Number(r), x);
    var out := Add([Add([Term(Number(p), x), Term(Number(r), x)]), Add([Number(q)])]);
    LikeTermsFoundAtRoot(p, q, r, x);
    TwoTermsAndConstantRewrite(Number(p), Number(q), Number(r), x);
    ApplyAtRoot(LikeTermsRuleFixed(), t, NoBindings, out);
    CollectedKeepsMinuses(p, q, r, x);
  }

  /** The collected form has no `wasMinus` flag for `FixMinuses` to act on. */
  lemma CollectedKeepsMinuses(p: int, q: int, r: int, x: string)
    ensures var out := Add([Add([Term(Number(p), x), Term(Number(r), x)]), Add([Number(q)])]);
      FixMinuses(out) == out
  {
    var t1, t2 := Term(Number(p), x), Term(Number(r), x);
    assert NoWasMinus(t1) && NoWasMinus(t2) && NoWasMinus(Number(q));
    AddNoWasMinus([t1, t2]);
    AddNoWasMinus([Number(q)]);
    AddNoWasMinus([Add([t1, t2]), Add([Number(q)])]);
    FixMinusesIdentity(Add([Add([t1, t2]), Add([Number(q)])]), false);
  }

  // ---------------------------------------------------------------------
  // test/rules_test.js:232: `2x + 7y + 5 + 3y + 9x + 11`

  /** An argument of a sum of like terms: a number times a variable, or a
      number. */
  datatype Summand = TermIn(coeff: int, name: string) | Constant(value: int)

  function SummandNode(s: Summand): Node
  {
    match s
    case TermIn(v, x) => Term(Number(v), x)
    case Constant(v) => Number(v)
  }

  function SummandNodes(ss: seq<Summand>): seq<Node>
  {
    seq(|ss|, i requires 0 <= i < |ss| => SummandNode(ss[i]))
  }

  /** What a summand records: its coefficient for a term, nothing for a
      number; and only a number is `isNumber`. */
  lemma SummandCoefficient(s: Summand)
    ensures IsExpression(SummandNode(s))
    ensures IsNumber(SummandNode(s)) <==> s.Constant?
    ensures CoefficientOf(SummandNode(s)) == if s.TermIn? then Some((s.name, Number(s.coeff))) else None
  {
    match s
    case TermIn(v, x) => CoefficientOfTerm(Number(v), x, {Implicit});
    case Constant(v) => NoCoefficientOutsideMul(Number(v));
  }

  lemma SummandNodesExpressions(ss: seq<Summand>)
    ensures forall e <- SummandNodes(ss) :: IsExpression(e)
  {
    forall e <- SummandNodes(ss) ensures IsExpression(e) {
      var i :| 0 <= i < |ss| && SummandNodes(ss)[i] == e;
      SummandCoefficient(ss[i]);
    }
  }

  /** The variables of the terms in order of first appearance. */
  function SummandKeys(ss: seq<Summand>): seq<string>
  {
    if ss == [] then []
    else
      var pre := SummandKeys(ss[..|ss| - 1]);
      var last := ss[|ss| - 1];
      if last.TermIn? && last.name !in pre then pre + [last.name] else pre
  }

  /** The coefficients of the terms in `z`, in order. */
  function SummandCoefficients(ss: seq<Summand>, z: string): seq<Node>
  {
    if ss == [] then []
    else
      var pre := SummandCoefficients(ss[..|ss| - 1], z);
      var last := ss[|ss| - 1];
      if last.TermIn? && last.name == z then pre + [Number(last.coeff)] else pre
  }

  /** The numbers, in order. */
  function SummandConstants(ss: seq<Summand>): seq<Node>
  {
    if ss == [] then []
    else
      var pre := SummandConstants(ss[..|ss| - 1]);
      var last := ss[|ss| - 1];
      if last.Constant? then pre + [Number(last.value)] else pre
  }

  /** Dropping the last summand drops the last argument. */
  lemma SummandNodesPrefix(ss: seq<Summand>)
    requires ss != []
    ensures forall e <- SummandNodes(ss) :: IsExpression(e)
    ensures forall e <- SummandNodes(ss[..|ss| - 1]) :: IsExpression(e)
    ensures var args := SummandNodes(ss);
      args[..|args| - 1] == SummandNodes(ss[..|ss| - 1]) && args[|args| - 1] == SummandNode(ss[|ss| - 1])
  {
    SummandNodesExpressions(ss);
    SummandNodesExpressions(ss[..|ss| - 1]);
  }

  /** The key order of `getCoefficientsAndConstants` is read off the
      summands. */
  lemma {:induction false} SummandKeyOrder(ss: seq<Summand>)
    ensures forall e <- SummandNodes(ss) :: IsExpression(e)
    ensures KeyOrder(SummandNodes(ss)) == SummandKeys(ss)
  {
    SummandNodesExpressions(ss);
    if ss != [] {
      SummandKeyOrder(ss[..|ss| - 1]);
      SummandNodesPrefix(ss);
      SummandCoefficient(ss[|ss| - 1]);
    }
  }

  /** So are the coefficient lists ... */
  lemma {:induction false} SummandCoefficientsIn(ss: seq<Summand>, z: string)
    ensures forall e <- SummandNodes(ss) :: IsExpression(e)
    ensures CoefficientsIn(SummandNodes(ss), z) == SummandCoefficients(ss, z)
  {
    SummandNodesExpressions(ss);
    if ss != [] {
      SummandCoefficientsIn(ss[..|ss| - 1], z);
      SummandNodesPrefix(ss);
      SummandCoefficient(ss[|ss| - 1]);
    }
  }

  /** ... and the numbers. */
  lemma {:induction false} SummandNumbers(ss: seq<Summand>)
    ensures Numbers(SummandNodes(ss)) == SummandConstants(ss)
  {
    if ss != [] {
      SummandNumbers(ss[..|ss| - 1]);
      SummandNodesPrefix(ss);
      SummandCoefficient(ss[|ss| - 1]);
    }
  }

  /** `a x + b y + k + c y + d x + l` (in the test,
      `2x + 7y + 5 + 3y + 9x + 11`). */
  function SixSummands(a: int, b: int, k: int, c: int, d: int, l: int, x: string, y: string): seq<Summand>
  {
    [TermIn(a, x), TermIn(b, y), Constant(k), TermIn(c, y), TermIn(d, x), Constant(l)]
  }

  function SixArgs(a: int, b: int, k: int, c: int, d: int, l: int, x: string, y: string): seq<Node>
  {
    SummandNodes(SixSummands(a, b, k, c, d, l, x, y))
  }

  /** `(a x + d x) + (b y + c y) + (k + l)`. */
  function SixCollected(a: int, b: int, k: int, c: int, d: int, l: int, x: string, y: string): Node
  {
    Add([Add([Term(Number(a), x), Term(Number(d), x)]),
         Add([Term(Number(b), y), Term(Number(c), y)]),
         Add([Number(k), Number(l)])])
  }

  /** Each prefix of the six summands, as its own prefix. */
  lemma SixPrefixes(ss: seq<Summand>)
    requires |ss| == 6
    ensures ss[..1][..0] == [] && ss[..2][..1] == ss[..1] && ss[..3][..2] == ss[..2]
    ensures ss[..4][..3] == ss[..3] && ss[..5][..4] == ss[..4] && ss[..5] == ss[..|ss| - 1]
    ensures ss[..2][1] == ss[1] && ss[..3][2] == ss[2] && ss[..4][3] == ss[3] && ss[..5][4] == ss[4]
  {
  }

  /** The variables of the six summands: `x`, then `y`. */
  lemma SixSummandKeys(a: int, b: int, k: int, c: int, d: int, l: int, x: string, y: string)
    requires x != y
    ensures SummandKeys(SixSummands(a, b, k, c, d, l, x, y)) == [x, y]
  {
    var ss := SixSummands(a, b, k, c, d, l, x, y);
    SixPrefixes(ss);
    assert SummandKeys(ss[..1]) == [x];
    assert SummandKeys(ss[..2]) == [x, y];
    assert SummandKeys(ss[..3]) == [x, y];
    assert SummandKeys(ss[..4]) == [x, y];
    assert SummandKeys(ss[..5]) == [x, y];
  }

  /** Their coefficients in `x` and in `y`. */
  lemma SixSummandCoefficients(a: int, b: int, k: int, c: int, d: int, l: int, x: string, y: string, z: string)
    requires x != y && (z == x || z == y)
    ensures SummandCoefficients(SixSummands(a, b, k, c, d, l, x, y), z) ==
            if z == x then [Number(a), Number(d)] else [Number(b), Number(c)]
  {
    var ss := SixSummands(a, b, k, c, d, l, x, y);
    SixPrefixes(ss);
    var first := if z == x then [Number(a)] else [];
    var second := if z == x then [Number(a)] else [Number(b)];
    var third := if z == x then [Number(a)] else [Number(b), Number(c)];
    assert SummandCoefficients(ss[..1], z) == first;
    assert SummandCoefficients(ss[..2], z) == second;
    assert SummandCoefficients(ss[..3], z) == second;
    assert SummandCoefficients(ss[..4], z) == third;
    assert SummandCoefficients(ss[..5], z) == if z == x then [Number(a), Number(d)] else third;
  }

  /** Their numbers. */
  lemma SixSummandConstants(a: int, b: int, k: int, c: int, d: int, l: int, x: string, y: string)
    ensures SummandConstants(SixSummands(a, b, k, c, d, l, x, y)) == [Number(k), Number(l)]
  {
    var ss := SixSummands(a, b, k, c, d, l, x, y);
    SixPrefixes(ss);
    assert SummandConstants(ss[..1]) == [];
    assert SummandConstants(ss[..2]) == [];
    assert SummandConstants(ss[..3]) == [Number(k)];
    assert SummandConstants(ss[..4]) == [Number(k)];
    assert SummandConstants(ss[..5]) == [Number(k)];
  }

  /** `Object.keys(...).sort()` on two keys already in order. */
  lemma SortTwo(x: string, y: string)
    requires StrLe(x, y)
    ensures SortStrings([x, y]) == [x, y]
  {
    assert [x, y][1..] == [y];
    assert [y][1..] == [];
  }

  /** The groups of `a x + b y + k + c y + d x + l`, for names `x` before
      `y`: the terms in `x`, then those in `y`. */
  lemma SixGroups(a: int, b: int, k: int, c: int, d: int, l: int, x: string, y: string)
    requires x != y && StrLe(x, y)
    ensures forall e <- SixArgs(a, b, k, c, d, l, x, y) :: IsExpression(e)
    ensures Groups(SixArgs(a, b, k, c, d, l, x, y)) == SixCollected(a, b, k, c, d, l, x, y).args[..2]
  {
    var ss := SixSummands(a, b, k, c, d, l, x, y);
    var args := SixArgs(a, b, k, c, d, l, x, y);
    var out := SixCollected(a, b, k, c, d, l, x, y);
    SixSummandKeys(a, b, k, c, d, l, x, y);
    SixSummandCoefficients(a, b, k, c, d, l, x, y, x);
    SixSummandCoefficients(a, b, k, c, d, l, x, y, y);
    SummandKeyOrder(ss);
    SummandCoefficientsIn(ss, x);
    SummandCoefficientsIn(ss, y);
    SortTwo(x, y);
    GroupsShape(args);
    GroupOfTwo(Number(a), Number(d), x);
    GroupOfTwo(Number(b), Number(c), y);
  }

  /** The rewrite of `a x + b y + k + c y + d x + l`, for names `x` before
      `y`, is `(a x + d x) + (b y + c y) + (k + l)`. */
  lemma SixTermsRewrite(a: int, b: int, k: int, c: int, d: int, l: int, x: string, y: string)
    requires x != y && StrLe(x, y)
    ensures IsExpression(Add(SixArgs(a, b, k, c, d, l, x, y)))
    ensures LikeTermsRewrite(Add(SixArgs(a, b, k, c, d, l, x, y)), NoBindings, NoIndexes) ==
            Ok(SixCollected(a, b, k, c, d, l, x, y))
  {
    var ss := SixSummands(a, b, k, c, d, l, x, y);
    var args := SixArgs(a, b, k, c, d, l, x, y);
    var out := SixCollected(a, b, k, c, d, l, x, y);
    SixGroups(a, b, k, c, d, l, x, y);
    SixSummandConstants(a, b, k, c, d, l, x, y);
    SummandNumbers(ss);
    ConstantsAreNumbers(args);
    assert Groups(args) + [Add(Numbers(args))] == out.args;
  }

  /** A node with six children that yield no match. */
  lemma SearchAfterSix(f: MatchFn, t: Node)
    requires |Children(t)| == 6
    requires forall j :: 0 <= j < 6 ==> Search(f, Children(t)[j]) == None
    ensures Search(f, t) == if f(t) != Null then Some(Located([], f(t))) else None
  {
    assert SearchChildren(f, t, 6) == None;
    assert SearchChildren(f, t, 5) == None;
    assert SearchChildren(f, t, 4) == None;
    assert SearchChildren(f, t, 3) == None;
    assert SearchChildren(f, t, 2) == None;
    assert SearchChildren(f, t, 1) == None;
  }

  /** No summand, nor anything inside one, is an `add`, so the rule's match
      function answers null there. */
  lemma SummandNoAnswer(s: Summand)
    ensures Search(LikeTermsMatchFixed, SummandNode(s)) == None
  {
    var f := LikeTermsMatchFixed;
    var u := SummandNode(s);
    if s.TermIn? {
      SearchLeaf(f, u.args[0]);
      SearchLeaf(f, u.args[1]);
      SearchAfterTwo(f, u);
    } else {
      SearchLeaf(f, u);
    }
  }

  /** The corrected rule finds `a x + b y + k + c y + d x + l` at its root. */
  lemma SixTermsFoundAtRoot(a: int, b: int, k: int, c: int, d: int, l: int, x: string, y: string)
    requires x != y
    ensures Search(LikeTermsMatchFixed, Add(SixArgs(a, b, k, c, d, l, x, y))) ==
            Some(Located([], Record(true, NoBindings, NoIndexes)))
  {
    var ss := SixSummands(a, b, k, c, d, l, x, y);
    var args := SixArgs(a, b, k, c, d, l, x, y);
    forall j | 0 <= j < 6 ensures Search(LikeTermsMatchFixed, Children(Add(args))[j]) == None {
      SummandNoAnswer(ss[j]);
    }
    SearchAfterSix(LikeTermsMatchFixed, Add(args));
    SixSummandCoefficients(a, b, k, c, d, l, x, y, x);
    SummandCoefficientsIn(ss, x);
    assert |CoefficientsIn(args, x)| > 1;
    assert IsExpression(Add(args));
  }

  /** The collected form has no `wasMinus` flag for `fixMinuses` to act on. */
  lemma SixCollectedFixed(a: int, b: int, k: int, c: int, d: int, l: int, x: string, y: string)
    ensures FixMinuses(SixCollected(a, b, k, c, d, l, x, y)) == SixCollected(a, b, k, c, d, l, x, y)
  {
    var out := SixCollected(a, b, k, c, d, l, x, y);
    var x1, x2 := Term(Number(a), x), Term(Number(d), x);
    var y1, y2 := Term(Number(b), y), Term(Number(c), y);
    assert NoWasMinus(x1) && NoWasMinus(x2) && NoWasMinus(y1) && NoWasMinus(y2);
    AddNoWasMinus([x1, x2]);
    AddNoWasMinus([y1, y2]);
    AddNoWasMinus([Number(k), Number(l)]);
    AddNoWasMinus(out.args);
    FixMinusesIdentity(out, false);
  }

  /** The corrected rule turns `a x + b y + k + c y + d x + l`, for names
      `x` before `y`, into `(a x + d x) + (b y + c y) + (k + l)`. */
  lemma SixTermsFixedExample(a: int, b: int, k: int, c: int, d: int, l: int, x: string, y: string)
    requires x != y && StrLe(x, y)
    ensures ApplyRule(LikeTermsRuleFixed(), Add(SixArgs(a, b, k, c, d, l, x, y))) ==
            Ok(SixCollected(a, b, k, c, d, l, x, y))
  {
    SixTermsFoundAtRoot(a, b, k, c, d, l, x, y);
    SixTermsRewrite(a, b, k, c, d, l, x, y);
    ApplyAtRoot(LikeTermsRuleFixed(), Add(SixArgs(a, b, k, c, d, l, x, y)), NoBindings,
                SixCollected(a, b, k, c, d, l, x, y));
    SixCollectedFixed(a, b, k, c, d, l, x, y);
  }

  /** As written, the rule leaves `a x + b y + k + c y + d x + l` as it is. */
  lemma SixTermsAsWritten(a: int, b: int, k: int, c: int, d: int, l: int, x: string, y: string)
    requires x != y
    ensures ApplyRule(LikeTermsRule(), Add(SixArgs(a, b, k, c, d, l, x, y))) ==
            Ok(Add(SixArgs(a, b, k, c, d, l, x, y)))
  {
    var t := Add(SixArgs(a, b, k, c, d, l, x, y));
    SixTermsFoundAtRoot(a, b, k, c, d, l, x, y);
    CanApplyLikeTerms(t);
    LikeTermsRuleIsNoOp(t);
  }

  /** The case of test/rules_test.js:232: the corrected rule turns
      `2x + 7y + 5 + 3y + 9x + 11` into `(2 x + 9 x) + (7 y + 3 y) + (5 + 11)`,
      where the rule as written returns its input. */
  lemma SixTermsTestCase()
    ensures ApplyRule(LikeTermsRuleFixed(), Add(SixArgs(2, 7, 5, 3, 9, 11, "x", "y"))) ==
            Ok(SixCollected(2, 7, 5, 3, 9, 11, "x", "y"))
    ensures ApplyRule(LikeTermsRule(), Add(SixArgs(2, 7, 5, 3, 9, 11, "x", "y"))) ==
            Ok(Add(SixArgs(2, 7, 5, 3, 9, 11, "x", "y")))
  {
    assert StrLe("x", "y");
    SixTermsFixedExample(2, 7, 5, 3, 9, 11, "x", "y");
    SixTermsAsWritten(2, 7, 5, 3, 9, 11, "x", "y");
  }
}
