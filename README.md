# math-rules: the pattern matcher and rewrite engine, in Dafny

This project models the rewriting core of semantic-math/math-rules, a
JavaScript library that rewrites math expression trees with rules.

- **Patterns.** A rule's pattern is itself a tree. It may contain
  placeholders: `#a` (plain), `#a_0` (subscripted, one entry of a family)
  and `...` (an ellipsis that repeats the argument before it).
- **Matching.** `matchNode` compares a pattern against one node. Inside an
  `add` or a `mul` it may match a run of consecutive arguments rather than
  all of them. It fills a placeholder table and reports the matched range
  `indexes`.
- **Finding a match.** `match` visits the tree in post-order and returns
  the first non-null answer of a match function.
- **Applying a rule.** `applyRule` rewrites the matched node.
  `populatePattern` fills the table into the rewrite pattern, expanding
  variable-length groups. The result goes through the `fixMinuses` pass.
  It is then spliced over the matched range or replaces the matched node
  whole.
- **Other passes.** The model also covers the helpers of `lib/utils.js`,
  the node constructors and queries of `lib/nodes.js`, the
  `flattenOperands` pass, and the collect-like-terms rule.

Modelling decisions:

- **Trees.** Trees are values of the `Nodes.Node` datatype. Number
  literals are integers. Source locations (`loc`) are dropped.
- **Boolean keys.** The keys `wasMinus`, `wasExpanded` and `implicit` are
  a set of flags. The matcher ignores `implicit` when it compares keys.
- **Placeholder table.** The source keeps one mutable table. Here it is
  the value `Matcher.Bindings`, which has three parts:
  - plain bindings;
  - the entries of subscripted families, keyed by name and subscript;
  - the `negatives` record.

  Every matching step takes the table and returns it as it stands
  afterwards, so entries written by a comparison that later fails stay
  in the table as they do in the source. The `Leak` function is the
  shallow copy that `_matchSubArray` restores between offsets. The plain
  bindings, the families and `negatives` are kept apart, where the source
  shares one dictionary between them (see "## Left out").
- **Positions.** The source compares nodes by object identity
  (`node === matchedNode`). A node's position is a path of child indexes
  from the root, and the model uses these paths instead.
- **Errors.** A throw in the source is an `Err` value of `Utils.Error`:
  - destructuring a null match;
  - `checkBounds` on a node without arguments;
  - a missing table entry while populating;
  - `applyNode` with no arguments;
  - a family placeholder written without subscript in a rewrite pattern
    (`FamilyAsNode`), where the source inserts the family's table object
    instead of throwing (see "## Left out");
  - the expander that `lib/pattern.js` imports but `lib/matcher.js` does
    not export.
- **Loops.** The loops of the source are methods, each proved equal to a
  specification function:
  - `getRanges`;
  - `hasPlaceholderWithSubscript`;
  - `getPlaceholders`;
  - the search of `fixMinuses`;
  - `_matchEllipsis`;
  - `_matchSubArray`;
  - `_expandVariableLengthPatternNode`;
  - `getCoefficientsAndConstants`;
  - the splice loop of `flattenOperands`.

## Model

| member | source | states |
|---|---|---|
| Nodes.ApplyNode | lib/nodes.js:2-13 | builds an `Apply` with exactly the given operator, arguments and flags; it is an `add` iff the operator is `add`, and a number iff it is a `neg` of a number |
| Nodes.IdentifierNode | lib/nodes.js:15-22 | builds an identifier with the given name, never a number |
| Nodes.NumberNode | lib/nodes.js:24-30 | builds a number whose value `getValue` reads back |
| Nodes.ParensNode | lib/nodes.js:32-38 | wraps the body in parentheses; the result is neither a number nor an `add` |
| Nodes.GetValueDefinedIffNumber | lib/nodes.js:44-60 | `getValue` is defined exactly on the nodes `isNumber` accepts |
| Nodes.GetValueOfNeg | lib/nodes.js:54-60 | the value of a `neg` of a number is the negated value |
| Utils.CheckBounds | lib/utils.js:6-7 | fails exactly when there are no arguments and the range does not start after 0; for a range inside the arguments it is true iff the range is shorter than the whole list; an empty indexes record gives false |
| Utils.GetRanges | lib/utils.js:91-111 | every returned range is a maximal run of at least two arguments satisfying the predicate, ranges are in increasing order, and every argument in such a run is covered |
| Utils.LastPlaceholder | lib/utils.js:9-19 | no result iff no placeholder of that name occurs; otherwise the result is the last occurrence in the list |
| Utils.PlaceholderNames | lib/utils.js:9-19 | lists each placeholder name occurring in the nodes exactly once |
| Utils.PlaceholderNamesInOrder | lib/utils.js:9-19 | the names come in order of first occurrence: a name listed before another occurs in the nodes before any occurrence of the later one |
| Utils.GetPlaceholders | lib/utils.js:9-19 | the table maps exactly the placeholder names of the tree, each to its last occurrence in post-order |
| Utils.HasZeroSubscriptInPostOrder | lib/utils.js:21-36 | a tree has a placeholder with subscript 0 iff some node of its post-order listing is one |
| Utils.HasPlaceholderWithSubscript | lib/utils.js:21-36 | the traversal loop answers true iff the tree holds a placeholder subscripted 0 |
| Utils.IsVariableLengthPattern | lib/utils.js:38-45 | true iff the node is an `Apply` with exactly two arguments, the second an ellipsis and the first holding a placeholder subscripted 0 somewhere in its post-order listing |
| Utils.FirstWasMinusNeg | lib/utils.js:72-84 | finds the first argument that is a `neg` carrying `wasMinus`, and none is found iff no argument is one |
| Utils.FindWasMinusNeg | lib/utils.js:72-84 | the scanning loop returns the first such index |
| Utils.FixAtNode | lib/utils.js:57-86 | under an `add`, a division whose numerator is a `wasMinus` negation, or a product with such an argument, has the sign moved outside; every other node is left alone |
| Utils.FixMinusesOnlyMovesSigns | lib/utils.js:47-89 | `fixMinuses` changes nothing but the placement of `wasMinus` negations: erasing them gives the same tree before and after |
| Utils.FixMinusesIdentity | lib/utils.js:47-89 | a tree without `wasMinus` negations is returned unchanged |
| Utils.FixMinuses | lib/utils.js:47-89 | the pass only moves `wasMinus` signs (erasing them gives the input back) and returns a tree without such signs unchanged |
| Matcher.Leak | lib/matcher.js:185-230 | after a failed offset, plain bindings and negatives are restored, and a family's entries are kept iff the family existed before the offset |
| Matcher.LeakKeeps | lib/matcher.js:185-230 | the restored table still extends the table before the offset, keeps respecting the constraints, and is that table itself when nothing was written |
| Matcher.Renumber | lib/matcher.js:155-168 | renumbering an ellipsis template changes only subscripts: the shape is kept |
| Matcher.RenumberKeeps | lib/matcher.js:155-168 | a renumbered template has the same size and is well formed, or an expression, iff the template is |
| Matcher.MatchNodeAt | lib/matcher.js:260-297 | matching only adds to the table, never breaks a constraint, binds every plain placeholder of the pattern on success, writes nothing for a placeholder-free pattern, and reports a range only within the input's arguments |
| Matcher.MatchPlaceholder | lib/matcher.js:87-122 | a placeholder whose constraint rejects the input fails with the table unchanged; otherwise the table only grows and the placeholder is bound on success |
| Matcher.SubArray | lib/matcher.js:182-244 | a success reports a range at or after the starting offset, inside the input, at least as long as the pattern's argument list; a failure reports no range |
| Matcher.ArgsFrom | lib/matcher.js:193-222 | the `every` over the pattern arguments consumes at least one input argument per remaining pattern argument and binds their plain placeholders |
| Matcher.ArgsEllipsis | lib/matcher.js:200-215 | an ellipsis argument makes the pattern a non-expression and consumes at least one input argument per remaining pattern argument |
| Matcher.EllipsisFrom | lib/matcher.js:125-180 | the ellipsis loop consumes at most the remaining input arguments and only adds constraint-respecting entries |
| Matcher.EllipsisStep | lib/matcher.js:139-175 | one ellipsis step compares the next input argument with the template renumbered by the family counters; a miss ends the run with the count so far |
| Matcher.EllipsisArg | lib/matcher.js:140-153 | the argument compared by an ellipsis step is an expression |
| Matcher.MatchEllipsis | lib/matcher.js:125-180 | the `while` loop of `_matchEllipsis` computes the ellipsis outcome with fresh counters |
| Matcher.MatchSubArray | lib/matcher.js:182-244 | the offset loop of `_matchSubArray` computes the sub-array outcome from offset 0 |
| Matcher.Pairwise | lib/matcher.js:288-295 | comparing arguments key by key binds every plain placeholder and reports no range |
| Matcher.MatchNode | lib/matcher.js:306-320 | a match's table respects the constraints and binds every plain placeholder of the pattern; a reported range lies inside the input's arguments |
| MatcherFacts.MatchFreshPlaceholder | lib/matcher.js:87-122 | an unbound plain placeholder whose constraint accepts the input binds it and succeeds |
| MatcherFacts.MatchFreshEntry | lib/matcher.js:87-122 | an unbound subscripted placeholder whose constraint accepts the input adds that family entry and succeeds |
| MatcherFacts.SubArrayHit | lib/matcher.js:224-241 | a successful `every` at an offset ends the search with the range from that offset |
| MatcherFacts.SubArrayMiss | lib/matcher.js:185-222 | a failed `every` moves to the next offset with the restored table |
| MatcherFacts.MatchChain | lib/matcher.js:280-287 | an `add` or `mul` pattern against a node of the same operator and flags is decided by the sub-array search |
| MatchLaws.SubArrayStep | lib/matcher.js:182-244 | from a table without families, an offset whose `every` succeeds ends the search there, and a failed one hands over to the next offset with the same table |
| MatchLaws.SubArrayReaches | lib/matcher.js:182-244 | if the `every` succeeds at some offset `o`, the search from any earlier offset succeeds at or before `o` |
| MatchLaws.SubArrayStops | lib/matcher.js:182-244 | the search only stops at an offset whose `every` succeeds |
| MatchLaws.MatchNodeLeftmost | lib/matcher.js:182-244 | through `matchNode` (lib/matcher.js:306-320), an `add`/`mul` pattern matches a node of the same kind iff some offset's `every` succeeds from the empty table, and the reported range starts at the leftmost such offset |
| MatchLaws.MatchSelf | lib/matcher.js:260-297 | every expression matches itself from any table, leaving the table unchanged |
| MatchLaws.ArgsSelf | lib/matcher.js:193-222 | the `every` of an expression against itself consumes all of its remaining arguments, table unchanged |
| MatchLaws.PairwiseSelf | lib/matcher.js:288-295 | comparing an expression's arguments with themselves succeeds, table unchanged |
| MatchLaws.BoundPlaceholderRematches | lib/matcher.js:110-120 | a placeholder bound to `v` matches `v` again, when its constraint accepts `v`, and changes nothing |
| MatchLaws.BoundEntryRematches | lib/matcher.js:93-109 | a bound family entry matches its value again, when the constraint accepts it, and changes nothing |
| MatchLaws.ArgsRun | lib/matcher.js:193-222 | the `every` of a placeholder-free sum against arguments that repeat its terms from offset `o` succeeds and ends right after them |
| MatchLaws.SumMatchesRun | lib/matcher.js:281-287 | a placeholder-free sum or product matches any longer one of the same flags that contains its terms as a consecutive run |
| MatchLaws.BoundSumRematchesRun | lib/matcher.js:110-115 | with the sum comparison of lib/matcher.js:281-287, a placeholder bound to a sum re-matches any longer sum holding its terms as a run, so a re-match is not equality |
| MatchLaws.SimilarToItself | lib/matcher.js:260-297 | every tree is similar to itself (equal up to the ignored `implicit` flag) |
| MatchLaws.FillExpression | lib/matcher.js:368-381 | populating an expression gives it back unchanged |
| MatchLaws.MatchInstance | lib/matcher.js:260-297 | for a pattern and input without `add` or `mul`, any table extending the match's table (and binding no name both ways) populates the pattern (lib/matcher.js:368-381) into the input, up to `implicit` |
| MatchLaws.ValueInstance | lib/matcher.js:110-120 | a bound value without `add` or `mul` that re-matches an input is that input, up to `implicit` |
| MatchLaws.MatchNodeInstance | lib/matcher.js:306-320 | on a pattern and an input without `add` or `mul`, populating (lib/matcher.js:368-381) the pattern with `matchNode`'s table gives back the input, up to `implicit` |
| Populate.Expand | lib/matcher.js:27-85 | the expansion is an `Apply` of the group's operator with exactly `length` arguments; it gains `wasExpanded` and keeps every other flag |
| Populate.ExpandVariableLengthPatternNode | lib/matcher.js:27-85 | the copy loop produces the expansion function's tree |
| Populate.ExpandShape | lib/matcher.js:27-85 | the expansion has `length` arguments and the `wasExpanded` flag; copy `i` carries only subscript `i`, under a `neg` (with `wasMinus` as recorded) where the negatives mark it in an `add` |
| Populate.InstantiateSubscripts | lib/matcher.js:38-68 | the only open subscript in copy `i` is `i` |
| Populate.FirstSubscripted | lib/matcher.js:350-358 | finds a placeholder name whose last occurrence is subscripted, and none exactly when no name has one |
| Populate.FirstSubscriptedIsFirst | lib/matcher.js:350-358 | the name found is the earliest such name in the list: it sits at or before every name whose last occurrence is subscripted |
| Populate.MaxKey | lib/matcher.js:360-361 | the largest subscript of a family |
| Populate.GroupLength | lib/matcher.js:350-361 | without a subscripted placeholder in the group the sizing fails; otherwise it succeeds iff that name is bound, giving 0 for a plain binding and, for a family, one more than its largest subscript |
| Populate.GroupExpandedToFamilySize | lib/matcher.js:345-366 | a group whose sizing family is bound expands to one more copy than the largest bound subscript, covering every entry |
| Populate.ExpandGroups | lib/matcher.js:346-366 | a pattern without variable-length groups is left unchanged; with the expander unexported, any group fails |
| Populate.Fill | lib/matcher.js:368-381 | a tree with no bound placeholder name and no `#eval` node comes back unchanged |
| Populate.FillNames | lib/matcher.js:368-381 | populating removes exactly the bound placeholder names |
| Populate.ExpressionHasNoNames | lib/matcher.js:368-381 | an expression contains no placeholder names |
| Populate.PopulatePattern | lib/matcher.js:345-381 | on a pattern without groups, populating is filling the table in |
| Populate.PopulateLeavesNoBoundName | lib/matcher.js:368-381 | a populated pattern holds no placeholder whose name the table binds |
| Populate.PopulatePatternSplit | lib/pattern.js:17-54 | the copy in `lib/pattern.js` fails on every pattern with a group, and agrees with the copy in `lib/matcher.js` on every pattern without one |
| Traverse.ReplaceAt | lib/matcher.js:462-476 | rebuilding the tree with one position replaced leaves a valid path there that now holds the replacement |
| Traverse.ReplaceAtElsewhere | lib/matcher.js:462-476 | replacing one position leaves every position neither above nor below it unchanged |
| Traverse.AtAppend | lib/matcher.js:325-337 | walking two paths in turn is walking their concatenation |
| Rule.Search | lib/matcher.js:325-337 | an answer comes with a valid position, is non-null and is the match function's answer at that position |
| Rule.SearchChildren | lib/matcher.js:328-334 | the children are searched left to right: no result iff every child yields none, else the first child that yields one |
| Rule.Match | lib/matcher.js:325-337 | the post-order traversal returns the search's answer |
| Rule.SearchNoneIffAllNull | lib/matcher.js:325-337 | `match` gives null iff the match function answers null at every position |
| Rule.SearchInnermost | lib/matcher.js:328-334 | the match function answers null at every position strictly below the one found (children are visited first) |
| Rule.SearchLeftmost | lib/matcher.js:328-334 | the match function answers null at every position to the left of the one found |
| Rule.DefineRule | lib/rule.js:20-26 | a rule holds exactly the given match function, rewrite function and constraints |
| Rule.PatternToMatchFn | lib/pattern.js:63-74 | the match function answers null on non-expressions; on an expression it answers non-null iff `matchNode` matches, and every answer carries the node |
| Rule.PatternToMatchFnAnswers | lib/pattern.js:63-74 | the match function answers non-null iff `matchNode` matches, and then with the node, table and indexes of that match |
| Rule.PatternToRewriteFn | lib/pattern.js:83-84 | the rewrite function ignores the node and the indexes; without groups it fills the table into the pattern, and with a group it fails since the expander is not exported |
| Rule.DefinePatternRule | lib/rule.js:36-42 | keeps the constraints, and its match function answers on an expression iff the pattern matches it |
| Rule.CanApplyPatternRule | lib/rule.js:47-49 | a pattern rule can be applied iff some position of the tree matches the pattern |
| Rule.Splice | lib/matcher.js:470 | the replacement takes the place of `args[start, end)`; the other arguments keep their order |
| Rule.ApplyRule | lib/rule.js:59-84 | a null match fails; an answer without a `node` field returns the input unchanged |
| Rule.ApplyRuleOneLocation | lib/rule.js:59-84 | exactly one position is rewritten: it holds the fixed-up replacement, spliced over the range when the range is not the whole argument list, and every unrelated position is unchanged |
| Flatten.Flatten | lib/flatten-operands.js:4-32 | flattening keeps each node's kind, operator and flags |
| Flatten.FlattenEach | lib/flatten-operands.js:4-32 | flattens each argument in place, keeping the count |
| Flatten.FlattenLevel | lib/flatten-operands.js:8-17 | the splice loop computes the one-level flattening of the arguments |
| Flatten.FlattenOperands | lib/flatten-operands.js:4-32 | the post-order pass computes the flattening function |
| Flatten.FlattenIsFlat | lib/flatten-operands.js:4-32 | afterwards no `add` has an `add` argument and no `mul` a `mul` argument |
| Flatten.FlatUnchanged | lib/flatten-operands.js:4-32 | a flat tree is returned unchanged |
| Flatten.FlattenIdempotent | lib/flatten-operands.js:4-32 | flattening twice is flattening once |
| Flatten.FlattenKeepsOrder | lib/flatten-operands.js:8-28 | the operands of a chain come out in their left-to-right order, each flattened |
| Flatten.FlattenArgsAppend | lib/flatten-operands.js:8-17 | one-level flattening distributes over concatenation |
| CollectLikeTerms.PatternsWellFormed | lib/rules/collect-like-terms.js:8-9 | the two patterns are valid match patterns and `#a #x` binds `a` and `x` |
| CollectLikeTerms.CoefficientOf | lib/rules/collect-like-terms.js:18-35 | a recorded coefficient is a number expression |
| CollectLikeTerms.CoefficientOfTerm | lib/rules/collect-like-terms.js:18-35 | a product of a number and an identifier records that number under that identifier |
| CollectLikeTerms.CoefficientPatternMatches | lib/rules/collect-like-terms.js:18 | `#a #x` matches such a product, binding `a` and `x`, over both arguments |
| CollectLikeTerms.NoCoefficientOutsideMul | lib/rules/collect-like-terms.js:18-35 | only a product can record a coefficient |
| CollectLikeTerms.ConstantIffNumber | lib/rules/collect-like-terms.js:37-41 | an argument is a constant iff it is a number |
| CollectLikeTerms.ConstantsAreNumbers | lib/rules/collect-like-terms.js:37-41 | the constants are exactly the number arguments, in order |
| CollectLikeTerms.CoefficientLists | lib/rules/collect-like-terms.js:11-45 | a variable is a key iff some argument has a coefficient in it; its list holds those coefficients in argument order; the key order lists each key once |
| CollectLikeTerms.GetCoefficientsAndConstants | lib/rules/collect-like-terms.js:11-45 | the `forEach` loop builds the coefficient table, its key order and the constants of the specification functions |
| CollectLikeTerms.Insert | lib/rules/collect-like-terms.js:66 | inserting into a sorted list keeps it sorted and adds exactly that element |
| CollectLikeTerms.SortStrings | lib/rules/collect-like-terms.js:66 | the sort is sorted and a permutation of its input |
| CollectLikeTerms.SortedKeys | lib/rules/collect-like-terms.js:66 | the sorted keys are ordered and are exactly the variables with coefficients |
| CollectLikeTerms.TermIsPopulated | lib/rules/collect-like-terms.js:70-75 | populating `#a #x` gives the term of the coefficient and the variable |
| CollectLikeTerms.GroupsShape | lib/rules/collect-like-terms.js:64-80 | one group per sorted variable, formed from that variable's coefficients |
| CollectLikeTerms.LikeTermsIff | lib/rules/collect-like-terms.js:47-59 | an argument list has like terms iff it has two numbers or two coefficients in one variable |
| CollectLikeTerms.LikeTermsMatch | lib/rules/collect-like-terms.js:47-59 | answers non-null iff the node is an `add` expression with two numbers or two terms in one variable, and its answer never has a `node` field |
| CollectLikeTerms.LikeTermsMatchFixed | lib/rules/collect-like-terms.js:47-59 | answers where the original does, with a `node` field |
| CollectLikeTerms.NoKeysIffNoCoefficients | lib/rules/collect-like-terms.js:64-66 | the sorted key list is empty iff no argument has a coefficient |
| CollectLikeTerms.LikeTermsRewrite | lib/rules/collect-like-terms.js:61-87 | on an `add` expression the rewrite throws (an empty `applyNode`) iff no argument has a coefficient |
| CollectLikeTerms.RewriteShape | lib/rules/collect-like-terms.js:61-87 | a rewritten `add` lists the groups in sorted variable order, followed by one `add` of the number arguments when there are any |
| CollectLikeTerms.CanApplyLikeTerms | lib/rules/collect-like-terms.js:47-59 | the rule applies iff some position has two constants or two terms in one variable, and the corrected rule applies exactly where the original does |
| CollectLikeTerms.LikeTermsRuleIsNoOp | lib/rules/collect-like-terms.js:56-58 | as written, applying the rule returns its input unchanged |
| CollectLikeTerms.LikeTermsRuleFixedRewrites | lib/rules/collect-like-terms.js:47-87 | the corrected rule replaces the found `add` by its rewrite, after `fixMinuses` |
| Examples.SubExpressionMatches | lib/__test__/matcher.test.js:52-55 | `1 + 2` matches the first two arguments of `1 + 2 + 3` |
| Examples.SubExpressionMismatch | lib/__test__/matcher.test.js:59-61 | `4 + 5` does not match `1 + 2 + 3` |
| Examples.RepeatedPlaceholderMismatch | lib/__test__/matcher.test.js:69-71 | `#a + #a` does not match `1 + 2` |
| Examples.RepeatedPlaceholderMatches | lib/__test__/matcher.test.js:73-75 | `#a + #a` matches `1 + 1`, binding `a` to `1` |
| Examples.PlusZeroMatches | lib/__test__/matcher.test.js:106-109 | `#a + 0` matches the sum `x + 0` inside `2 * (x + 0)`, binding `a` to `x` |
| Examples.PlusZeroFound | lib/__test__/matcher.test.js:106-109 | `match` finds `x + 0` inside `2 * (x + 0)` at its second argument |
| Examples.PlusZeroRewrite | lib/__test__/matcher.test.js:106-109 | the rule `#a + 0 -> #a` rewrites `2 * (x + 0)` to `2 * x` |
| Examples.PlusZeroMatchesInside | lib/__test__/matcher.test.js:121-124 | `#a + 0` matches the middle two arguments of `1 + x + 0 + 2` |
| Examples.PlusZeroFoundInside | lib/__test__/matcher.test.js:121-124 | `match` answers at the root of `1 + x + 0 + 2` with the range `[1, 3)` |
| Examples.PlusZeroSplice | lib/__test__/matcher.test.js:121-124 | the rule `#a + 0 -> #a` rewrites `1 + x + 0 + 2` to `1 + x + 2` by splicing |
| Examples.ConstraintRejectsRepeated | lib/__test__/matcher.test.js:166-169 | with `a` constrained to numbers, `#a + #a` does not match `x + x` |
| Examples.PolyMatches | lib/__test__/matcher.test.js:225-241 | `#a * #b_0 * ...` matches `5 * x^2 * y * z * 10` over its first four arguments, binding `a` to `5` and `b_0`, `b_1`, `b_2` to `x^2`, `y`, `z`, with `b_3` unbound |
| Examples.FlattenProductOfProducts | test/flatten-operands_test.js:13 | `(1 * 2) * (3 * 4)` flattens to `1 * 2 * 3 * 4` |
| Examples.FlattenInsideExponent | test/flatten-operands_test.js:16 | `x^(1 * (2 * (3 * 4)))` flattens to `x^(1 * 2 * 3 * 4)` |
| Examples.NoLikeTermsInXPlusOne | test/rules_test.js:235 | the collect-like-terms rule cannot be applied to `x + 1` |
| Examples.TwoTermsAndConstantRewrite | lib/rules/collect-like-terms.js:61-87 | the rewrite of `a x + k + b x` is `(a x + b x) + k`: one group for the one variable, and the lone constant still in a one-argument `add` |
| Examples.LikeTermsAsWrittenExample | lib/rules/collect-like-terms.js:56-58 | as written, the rule leaves `p x + q + r x` unchanged |
| Examples.LikeTermsFixedExample | lib/rules/collect-like-terms.js:47-87 | the corrected rule turns `p x + q + r x` into `(p x + r x) + q` |
| Examples.SummandCoefficient | lib/rules/collect-like-terms.js:18-41 | a number times a variable records that number under that variable and is not a constant; a number records nothing and is a constant |
| Examples.SummandKeyOrder | lib/rules/collect-like-terms.js:15-32 | for a sum of such summands, the coefficient keys are the variables in order of first appearance |
| Examples.SummandCoefficientsIn | lib/rules/collect-like-terms.js:15-35 | for a sum of such summands, the list of a variable holds the coefficients of its terms, in order |
| Examples.SummandNumbers | lib/rules/collect-like-terms.js:37-41 | for a sum of such summands, the constants are its numbers, in order |
| Examples.SixGroups | lib/rules/collect-like-terms.js:64-80 | for `a x + b y + k + c y + d x + l` with `x` sorting before `y`, the groups are `a x + d x`, then `b y + c y` |
| Examples.SixTermsRewrite | lib/rules/collect-like-terms.js:61-87 | the rewrite of `a x + b y + k + c y + d x + l` is `(a x + d x) + (b y + c y) + (k + l)` |
| Examples.SixTermsAsWritten | lib/rules/collect-like-terms.js:56-58 | as written, the rule leaves `a x + b y + k + c y + d x + l` unchanged |
| Examples.SixTermsFixedExample | test/rules_test.js:232 | the corrected rule turns `a x + b y + k + c y + d x + l` into `(a x + d x) + (b y + c y) + (k + l)` for any numbers and any two names in sorted order |
| Examples.SixTermsTestCase | test/rules_test.js:232 | the corrected rule turns `2x + 7y + 5 + 3y + 9x + 11` into `(2 x + 9 x) + (7 y + 3 y) + (5 + 11)`, the test's expected output; the rule as written returns the input |

## Left out

- Parsing and printing (math-parser) are not part of this model: the examples build their trees by hand.
- Numbers are integers; `parseFloat` and floating-point values are not modelled.
- The evaluator behind `#eval(...)` (math-evaluator) is a parameter `eval` of the populate functions.
- `isVariableFactor`, used as a constraint in the polynomial test, is not part of this model. `Examples.IsFactor` (an identifier or a power) stands in for it.
- `removeUnnecessaryParentheses` is not part of this model: it is taken as the identity.
- `clone` is not modelled: every tree is a value, so copies and shared references cannot differ.
- `replace` mutating the matched node's argument array in place, and the resulting aliasing, become a rebuilt tree (`Traverse.ReplaceAt`).
- An `#eval(...)` node inside a match pattern is not modelled beyond failing to match. The source would compare the operator object key by key.
- Inputs containing placeholders, ellipses or `#eval` nodes are excluded from matching: `IsExpression` is required of the input.
- Patterns whose `add` or `mul` starts with an ellipsis are excluded (`WellFormed`). The source throws while cloning an undefined template there.
- `isAdd` on `null` or `undefined` does not arise, since the datatype has no null node.
- The rule catalogs (`lib/rules.js`, `lib/simple-rules.js`, `lib/rule-list.js`, `lib/factor-rules.js`) and `lib/rules/adding-fractions.js` are outside the core.
- Matcher.MatchNode: the contract states soundness (constraints respected, plain placeholders bound, range inside the input). The characterisation is in the `MatchLaws` lemmas: the leftmost offset, reflexivity, the re-match of bound names, and the population of the pattern by the match's table.
- MatchLaws.MatchInstance: holds only for trees without `add` or `mul`, because a placeholder bound to a sum re-matches any longer sum that contains it (`MatchLaws.BoundSumRematchesRun`). It also requires that no name be bound both plainly and as a family, for the reason below.
- One placeholder dictionary: the source keeps plain bindings, families and `negatives` in one object keyed by name. The model keeps three tables, so a name used both plainly and with a subscript does not collide: `#a_0 + #a` against `1 + 2` is null in the source (the family object is not equal to `2`) but matches in the model. A placeholder literally named `negatives` would collide with the record written at lib/matcher.js:237; the model does not reproduce that.
- Populate.Fill: a family placeholder written without a subscript returns `Err(FamilyAsNode)`. The source inserts a clone of the family's table object into the tree (lib/matcher.js:377), which the tree datatype cannot hold.
- Populate.SignCopy: the `neg` wrapper of an expanded `add` copy carries `wasMinus` as recorded by the match. This assumes that the `build.applyNode` of the math-nodes package, which lib/matcher.js:78-79 calls, takes the options record third. The repository's own lib/nodes.js:2 takes `loc` third, and under that reading the record would become the node's `loc` and the `neg` would carry no `wasMinus`.
- Key order of `JSON.stringify`: `clone` and the object comparisons of the source depend on key order, which is not modelled. Tables are keyed by placeholder name (and subscript) only.
- CollectLikeTerms.SortedKeys: the keys are sorted by bare variable name. The source sorts the `JSON.stringify` text of the identifier node, with `loc` removed (lib/rules/collect-like-terms.js:23-28,66). The two orders agree for names without characters below `"`. A name holding such a character (a space, `!`) can sort differently in the source.
- Matcher.EllipsisFrom: the contract bounds the count and the table, but does not restate the loop; `Matcher.EllipsisStep` gives the one-step unfolding.
- Rule.ApplyRule: its ensures covers the null match and the answer without a node. The rewritten case is stated by `Rule.ApplyRuleOneLocation`.
- Flatten.Flatten: the contract keeps each node's kind. Flatness, idempotence and order are separate lemmas.
- Populate.FillNames: the contract is about placeholder names only. Evaluation of `#eval` nodes depends on the evaluator parameter.

## Findings

| source | as written | input that shows it | evidently intended | confidence | as-written member | corrected member |
|---|---|---|---|---|---|---|
| lib/rules/collect-like-terms.js:56-58 | the match function returns the `add` node itself, which has no `node` field. `applyRule` (lib/matcher.js:457-460) destructures `node` from the answer, gets `undefined`, and returns its input unchanged | `2x + 7y + 5 + 3y + 9x + 11` (test/rules_test.js:232) | return a record whose `node` is the matched node, so the `add` is replaced by `(2 x + 9 x) + (7 y + 3 y) + (5 + 11)` as the test expects | not executed | CollectLikeTerms.LikeTermsRuleIsNoOp | CollectLikeTerms.LikeTermsRuleFixedRewrites |
