/** lib/rules/collect-like-terms.js: the arguments of an `add` are sorted
    into numeric constants and, per variable, the coefficients of terms of
    the shape `#a #x`; the rule fires on an `add` with two constants or two
    terms in the same variable. */
module CollectLikeTerms {
  import opened Wrappers
  import opened Nodes
  import opened Traverse
  import opened Utils
  import opened Matcher
  import opened MatcherFacts
  import opened Populate
  import opened Rule

  /** `#a #x`: an implicit product of two placeholders. */
  const CoefficientPattern: Node := Apply("mul", [Placeholder("a", None), Placeholder("x", None)], {Implicit})

  /** `#a`. */
  const ConstantPattern: Node := Placeholder("a", None)

  const CoefficientConstraints: Constraints :=
    map["x" := (n: Node) => IsIdentifier(n), "a" := (n: Node) => IsNumber(n)]

  const ConstantConstraints: Constraints := map["a" := (n: Node) => IsNumber(n)]

  lemma PatternsWellFormed()
    ensures WellFormed(CoefficientPattern) && WellFormed(ConstantPattern)
    ensures PlainNames(CoefficientPattern) == {"a", "x"}
  {
    assert PlainNamesOf(CoefficientPattern.args[1..]) == {"x"};
  }

  // ---------------------------------------------------------------------
  // One argument

  /** The variable name and coefficient of an argument that matches
      `#a #x` with `a` a number and `x` an identifier. */
  function CoefficientOf(arg: Node): (r: Option<(string, Node)>)
    requires IsExpression(arg)
    ensures r.Some? ==> IsNumber(r.value.1) && IsExpression(r.value.1)
  {
    PatternsWellFormed();
    match MatchNode(CoefficientPattern, arg, CoefficientConstraints)
    case None => None
    case Some((b, _)) =>
      assert "x" in CoefficientConstraints && "a" in CoefficientConstraints;
      Some((b.plain["x"].name, b.plain["a"]))
  }

  /** Does the argument match `#a` with `a` a number? */
  predicate IsConstant(arg: Node)
    requires IsExpression(arg)
  {
    PatternsWellFormed();
    MatchNode(ConstantPattern, arg, ConstantConstraints).Some?
  }

  /** Matching `#a` under the constraint `isNumber` is `isNumber`. */
  lemma ConstantIffNumber(arg: Node)
    requires IsExpression(arg)
    ensures IsConstant(arg) <==> IsNumber(arg)
  {
    PatternsWellFormed();
    assert "a" in ConstantConstraints;
    assert MatchNodeAt(ConstantPattern, arg, ConstantConstraints, NoBindings) ==
           MatchPlaceholder(ConstantPattern, arg, ConstantConstraints, NoBindings);
  }

  /** The two placeholders of `#a #x` bind, left to right, the number and
      the identifier of a product. */
  lemma CoefficientArgsMatch(a: Node, name: string, f: set<Flag>)
    requires IsNumber(a) && IsExpression(a)
    requires IsExpression(Apply("mul", [a, Identifier(name)], f))
    ensures WellFormed(CoefficientPattern)
    ensures ArgsFrom(CoefficientPattern, Apply("mul", [a, Identifier(name)], f), CoefficientConstraints, NoBindings, map[], 0, 0)
            == ArgsOutcome(true, Bindings(map["a" := a, "x" := Identifier(name)], map[], map[]), map[], 2)
  {
    var i := Apply("mul", [a, Identifier(name)], f);
    var p := CoefficientPattern;
    var c := CoefficientConstraints;
    PatternsWellFormed();
    assert "a" in c && c["a"](a);
    assert "x" in c && c["x"](Identifier(name));
    var b1 := NoBindings.(plain := map["a" := a]);
    var b2 := b1.(plain := b1.plain["x" := Identifier(name)]);
    MatchFreshPlaceholder("a", a, c, NoBindings);
    MatchFreshPlaceholder("x", Identifier(name), c, b1);
    ArgsFromNodeStep(p, i, c, NoBindings, map[], 0, 0);
    ArgsFromNodeStep(p, i, c, b1, map[], 1, 1);
    assert b2 == Bindings(map["a" := a, "x" := Identifier(name)], map[], map[]);
  }

  /** `#a #x` matches such a product as a whole. */
  lemma CoefficientPatternMatches(a: Node, name: string, f: set<Flag>)
    requires IsNumber(a) && IsExpression(a) && f - {Implicit} == {}
    requires IsExpression(Apply("mul", [a, Identifier(name)], f))
    ensures WellFormed(CoefficientPattern)
    ensures MatchNode(CoefficientPattern, Apply("mul", [a, Identifier(name)], f), CoefficientConstraints)
            == Some((Bindings(map["a" := a, "x" := Identifier(name)], map[], map[]), Span(0, 2)))
  {
    var i := Apply("mul", [a, Identifier(name)], f);
    var p := CoefficientPattern;
    var c := CoefficientConstraints;
    CoefficientArgsMatch(a, name, f);
    SubArrayHit(p, i, c, NoBindings, 0);
    MatchChain(p, i, c, NoBindings);
  }

  /** A number times an identifier (written implicitly or with `*`) has
      that number as its coefficient in that variable. */
  lemma CoefficientOfTerm(a: Node, name: string, f: set<Flag>)
    requires IsNumber(a) && IsExpression(a) && f - {Implicit} == {}
    ensures IsExpression(Apply("mul", [a, Identifier(name)], f))
    ensures CoefficientOf(Apply("mul", [a, Identifier(name)], f)) == Some((name, a))
  {
    var i := Apply("mul", [a, Identifier(name)], f);
    assert IsExpression(i) by {
      assert forall x <- i.args :: IsExpression(x);
    }
    CoefficientPatternMatches(a, name, f);
  }

  /** Anything that is not a product has no coefficient. */
  lemma NoCoefficientOutsideMul(arg: Node)
    requires IsExpression(arg) && !IsMul(arg)
    ensures CoefficientOf(arg) == None
  {
    PatternsWellFormed();
  }

  // ---------------------------------------------------------------------
  // getCoefficientsAndConstants, as functions of the argument list

  /** The arguments that match `#a`, in order. */
  function Constants(args: seq<Node>): seq<Node>
    requires forall a <- args :: IsExpression(a)
  {
    if args == [] then []
    else
      var pre := Constants(args[..|args| - 1]);
      var last := args[|args| - 1];
      if IsConstant(last) then pre + [last] else pre
  }

  /** The coefficient lists per variable name. */
  function Coefficients(args: seq<Node>): map<string, seq<Node>>
    requires forall a <- args :: IsExpression(a)
  {
    if args == [] then map[]
    else
      var pre := Coefficients(args[..|args| - 1]);
      match CoefficientOf(args[|args| - 1])
      case None => pre
      case Some((x, a)) => pre[x := (if x in pre then pre[x] else []) + [a]]
  }

  /** The variable names in order of first appearance (the key order of
      the `coefficients` object). */
  function KeyOrder(args: seq<Node>): seq<string>
    requires forall a <- args :: IsExpression(a)
  {
    if args == [] then []
    else
      var pre := KeyOrder(args[..|args| - 1]);
      match CoefficientOf(args[|args| - 1])
      case Some((x, _)) => if x in pre then pre else pre + [x]
      case None => pre
  }

  /** The numbers among the arguments, in order (a reference definition
      that does not go through the matcher). */
  function Numbers(args: seq<Node>): seq<Node>
  {
    if args == [] then []
    else
      var pre := Numbers(args[..|args| - 1]);
      if IsNumber(args[|args| - 1]) then pre + [args[|args| - 1]] else pre
  }

  /** The coefficients in variable `x`, in argument order. */
  function CoefficientsIn(args: seq<Node>, x: string): seq<Node>
    requires forall a <- args :: IsExpression(a)
  {
    if args == [] then []
    else
      var pre := CoefficientsIn(args[..|args| - 1], x);
      match CoefficientOf(args[|args| - 1])
      case Some((y, a)) => if y == x then pre + [a] else pre
      case None => pre
  }

  /** `constants` holds exactly the numeric arguments, in order. */
  lemma {:induction false} ConstantsAreNumbers(args: seq<Node>)
    requires forall a <- args :: IsExpression(a)
    ensures Constants(args) == Numbers(args)
  {
    if args != [] {
      ConstantsAreNumbers(args[..|args| - 1]);
      ConstantIffNumber(args[|args| - 1]);
    }
  }

  /** Every argument of the shape `#a #x` adds its coefficient to the list
      of its variable; the lists keep argument order, exist exactly for the
      variables seen, and the key order lists each variable once. */
  lemma CoefficientLists(args: seq<Node>)
    requires forall a <- args :: IsExpression(a)
    ensures forall x :: x in Coefficients(args) <==> CoefficientsIn(args, x) != []
    ensures forall x :: x in Coefficients(args) ==> Coefficients(args)[x] == CoefficientsIn(args, x)
    ensures forall x :: x in KeyOrder(args) <==> x in Coefficients(args)
    ensures forall i, j :: 0 <= i < j < |KeyOrder(args)| ==> KeyOrder(args)[i] != KeyOrder(args)[j]
  {
    CoefficientMapLists(args);
    KeyOrderLists(args);
  }

  /** The map of coefficient lists agrees with `CoefficientsIn`. */
  lemma {:induction false} CoefficientMapLists(args: seq<Node>)
    requires forall a <- args :: IsExpression(a)
    ensures forall x :: x in Coefficients(args) <==> CoefficientsIn(args, x) != []
    ensures forall x :: x in Coefficients(args) ==> Coefficients(args)[x] == CoefficientsIn(args, x)
  {
    if args != [] {
      CoefficientMapLists(args[..|args| - 1]);
    }
  }

  /** The key order holds the keys of the map, each once. */
  lemma {:induction false} KeyOrderLists(args: seq<Node>)
    requires forall a <- args :: IsExpression(a)
    ensures forall x :: x in KeyOrder(args) <==> x in Coefficients(args)
    ensures forall i, j :: 0 <= i < j < |KeyOrder(args)| ==> KeyOrder(args)[i] != KeyOrder(args)[j]
  {
    if args != [] {
      KeyOrderLists(args[..|args| - 1]);
    }
  }

  /** An argument of the shape `#a #x` appends `a` to the list of `x`,
      creating the list (and the key) if `x` is new. */
  lemma CoefficientStep(args: seq<Node>, i: nat, x: string, a: Node)
    requires i < |args| && forall e <- args :: IsExpression(e)
    requires forall e <- args[..i] :: IsExpression(e)
    requires CoefficientOf(args[i]) == Some((x, a))
    ensures forall e <- args[..i + 1] :: IsExpression(e)
    ensures var m := Coefficients(args[..i]);
      Coefficients(args[..i + 1]) == m[x := (if x in m then m[x] else []) + [a]]
    ensures KeyOrder(args[..i + 1]) ==
      if x in Coefficients(args[..i]) then KeyOrder(args[..i]) else KeyOrder(args[..i]) + [x]
  {
    var pre := args[..i + 1];
    assert pre[..|pre| - 1] == args[..i] && pre[|pre| - 1] == args[i];
    CoefficientLists(args[..i]);
  }

  /** Any other argument leaves the coefficient lists and keys alone. */
  lemma NoCoefficientStep(args: seq<Node>, i: nat)
    requires i < |args| && forall e <- args :: IsExpression(e)
    requires forall e <- args[..i] :: IsExpression(e)
    requires CoefficientOf(args[i]) == None
    ensures forall e <- args[..i + 1] :: IsExpression(e)
    ensures Coefficients(args[..i + 1]) == Coefficients(args[..i])
    ensures KeyOrder(args[..i + 1]) == KeyOrder(args[..i])
  {
    var pre := args[..i + 1];
    assert pre[..|pre| - 1] == args[..i] && pre[|pre| - 1] == args[i];
  }

  /** A constant argument is appended to `constants`. */
  lemma ConstantStep(args: seq<Node>, i: nat)
    requires i < |args| && forall e <- args :: IsExpression(e)
    requires forall e <- args[..i] :: IsExpression(e)
    ensures forall e <- args[..i + 1] :: IsExpression(e)
    ensures Constants(args[..i + 1]) ==
      Constants(args[..i]) + (if IsConstant(args[i]) then [args[i]] else [])
  {
    var pre := args[..i + 1];
    assert pre[..|pre| - 1] == args[..i] && pre[|pre| - 1] == args[i];
  }

  lemma UpdateTwice<K, V>(m: map<K, V>, x: K, v: V, w: V)
    ensures m[x := v][x := w] == m[x := w]
  {
  }

  /** The `forEach` of `getCoefficientsAndConstants`. */
  method GetCoefficientsAndConstants(node: Node)
    returns (coefficients: map<string, seq<Node>>, keys: seq<string>, constants: seq<Node>)
    requires node.Apply? && IsExpression(node)
    ensures coefficients == Coefficients(node.args)
    ensures keys == KeyOrder(node.args)
    ensures constants == Constants(node.args)
  {
    var args := node.args;
    assert forall a <- args :: IsExpression(a);
    coefficients, keys, constants := map[], [], [];
    for i := 0 to |args|
      invariant forall e <- args[..i] :: IsExpression(e)
      invariant coefficients == Coefficients(args[..i])
      invariant keys == KeyOrder(args[..i])
      invariant constants == Constants(args[..i])
    {
      var arg := args[i];
      match CoefficientOf(arg) {
        case Some((x, a)) =>
          CoefficientStep(args, i, x, a);
          ghost var m := coefficients;
          if x !in coefficients {
            coefficients := coefficients[x := []];
            keys := keys + [x];
          }
          coefficients := coefficients[x := coefficients[x] + [a]];
          if x !in m {
            UpdateTwice(m, x, [], [] + [a]);
          }
        case None =>
          NoCoefficientStep(args, i);
      }
      ConstantStep(args, i);
      if IsConstant(arg) {
        constants := constants + [arg];
      }
    }
    assert args[..|args|] == args;
  }

  /** The condition of the match function. */
  predicate HasLikeTerms(args: seq<Node>)
    requires forall a <- args :: IsExpression(a)
  {
    |Constants(args)| > 1 || exists x :: x in Coefficients(args) && |Coefficients(args)[x]| > 1
  }

  /** The condition read off the arguments: two numbers, or two terms in
      one variable. */
  lemma LikeTermsIff(args: seq<Node>)
    requires forall a <- args :: IsExpression(a)
    ensures HasLikeTerms(args) <==> |Numbers(args)| > 1 || exists x :: |CoefficientsIn(args, x)| > 1
  {
    ConstantsAreNumbers(args);
    CoefficientMapLists(args);
    var m := Coefficients(args);
    if exists x :: |CoefficientsIn(args, x)| > 1 {
      var x :| |CoefficientsIn(args, x)| > 1;
      assert x in m && |m[x]| > 1;
    }
    if exists x :: x in m && |m[x]| > 1 {
      var x :| x in m && |m[x]| > 1;
      assert |CoefficientsIn(args, x)| > 1;
    }
  }

  // ---------------------------------------------------------------------
  // Sorting the keys

  /** String order of `Array.prototype.sort` (code unit by code unit). */
  predicate StrLe(a: string, b: string)
  {
    a == [] || (b != [] && (a[0] < b[0] || (a[0] == b[0] && StrLe(a[1..], b[1..]))))
  }

  lemma {:induction false} StrLeTotal(a: string, b: string)
    ensures StrLe(a, b) || StrLe(b, a)
  {
    if a != [] && b != [] && a[0] == b[0] {
      StrLeTotal(a[1..], b[1..]);
    }
  }

  predicate SortedStrings(s: seq<string>)
  {
    forall i :: 0 < i < |s| ==> StrLe(s[i - 1], s[i])
  }

  function Insert(x: string, s: seq<string>): (r: seq<string>)
    requires SortedStrings(s)
    ensures SortedStrings(r) && multiset(r) == multiset(s) + multiset{x}
    ensures r != [] && (r[0] == x || (s != [] && r[0] == s[0]))
  {
    if s == [] || StrLe(x, s[0]) then [x] + s
    else
      StrLeTotal(x, s[0]);
      var rest := Insert(x, s[1..]);
      assert s == [s[0]] + s[1..];
      [s[0]] + rest
  }

  /** `Object.keys(coefficients).sort()`. */
  function SortStrings(s: seq<string>): (r: seq<string>)
    ensures SortedStrings(r) && multiset(r) == multiset(s)
  {
    if s == [] then []
    else
      assert s == [s[0]] + s[1..];
      Insert(s[0], SortStrings(s[1..]))
  }

  // ---------------------------------------------------------------------
  // The rule

  /** The term `populatePattern('#a #x', {a: coeff, x: variable})` builds. */
  function Term(coeff: Node, x: string): Node
  {
    Apply("mul", [coeff, Identifier(x)], {Implicit})
  }

  lemma TermIsPopulated(coeff: Node, x: string, eval: Node -> int)
    requires IsExpression(coeff)
    ensures PopulatePattern(CoefficientPattern, Bindings(map["a" := coeff, "x" := Identifier(x)], map[], map[]), eval)
            == Ok(Term(coeff, x))
  {
    var b := Bindings(map["a" := coeff, "x" := Identifier(x)], map[], map[]);
    var pa, px := Placeholder("a", None), Placeholder("x", None);
    assert !ArgsHaveGroup([px]);
    assert !HasGroup(CoefficientPattern);
    assert Fill(pa, b, eval) == Ok(coeff);
    assert Fill(px, b, eval) == Ok(Identifier(x));
    assert [px][1..] == [];
    assert FillArgs([], b, eval) == Ok([]);
    assert [Identifier(x)] + [] == [Identifier(x)];
    assert FillArgs([px], b, eval) == Ok([Identifier(x)]);
    assert CoefficientPattern.args == [pa, px];
    assert [pa, px][1..] == [px];
    assert [coeff] + [Identifier(x)] == [coeff, Identifier(x)];
    assert FillArgs([pa, px], b, eval) == Ok([coeff, Identifier(x)]);
    assert FillArgs(CoefficientPattern.args, b, eval) == Ok([coeff, Identifier(x)]);
  }

  /** The output for one variable: its single term, or an `add` of them. */
  function Group(coeffs: seq<Node>, x: string): Node
    requires coeffs != []
  {
    var terms := seq(|coeffs|, k requires 0 <= k < |coeffs| => Term(coeffs[k], x));
    if |terms| > 1 then Apply("add", terms, {}) else terms[0]
  }

  /** The match function as written: it returns the matched node itself,
      which has no `node` field. */
  function LikeTermsMatch(node: Node): (r: MatchAnswer)
    ensures r != Null <==>
      IsAdd(node) && IsExpression(node) &&
      (assert forall a <- node.args :: IsExpression(a);
       |Numbers(node.args)| > 1 || exists x :: |CoefficientsIn(node.args, x)| > 1)
    ensures r != Null ==> !r.hasNode
  {
    if IsAdd(node) && IsExpression(node) then
      assert forall a <- node.args :: IsExpression(a);
      LikeTermsIff(node.args);
      if HasLikeTerms(node.args) then Record(false, NoBindings, NoIndexes) else Null
    else Null
  }

  /** The match function returning `{node}`: it answers at the same nodes,
      and with the node. */
  function LikeTermsMatchFixed(node: Node): (r: MatchAnswer)
    ensures r != Null <==> LikeTermsMatch(node) != Null
    ensures r != Null ==> r.hasNode
  {
    if LikeTermsMatch(node) != Null then Record(true, NoBindings, NoIndexes) else Null
  }

  /** One output per variable, in sorted name order. */
  function Groups(args: seq<Node>): seq<Node>
    requires forall a <- args :: IsExpression(a)
  {
    var coefficients := Coefficients(args);
    var keys := SortStrings(KeyOrder(args));
    KeysHaveCoefficients(args, keys, coefficients);
    seq(|keys|, k requires 0 <= k < |keys| => Group(coefficients[keys[k]], keys[k]))
  }

  /** The rewrite function: the groups, then the constants as one `add`.
      An empty list of variables makes `applyNode` throw. Only expressions
      reach it. */
  function LikeTermsRewrite(node: Node, b: Bindings, idx: Indexes): (r: Result<Node, Error>)
    ensures node.Apply? && IsExpression(node) ==>
      (assert forall a <- node.args :: IsExpression(a);
       r.Err? <==> Coefficients(node.args) == map[])
  {
    if !node.Apply? || !IsExpression(node) then Err(ArgsUndefined)
    else
      assert forall a <- node.args :: IsExpression(a);
      NoKeysIffNoCoefficients(node.args);
      var groups := Groups(node.args);
      assert |groups| == |SortStrings(KeyOrder(node.args))|;
      var constants := Constants(node.args);
      if groups == [] then Err(EmptyApply)
      else Ok(Apply("add", groups + (if constants != [] then [Apply("add", constants, {})] else []), {}))
  }

  /** `collectLikeTermsRule` as written. */
  function LikeTermsRule(): Rule
  {
    DefineRule(LikeTermsMatch, LikeTermsRewrite)
  }

  /** `collectLikeTermsRule` with a match function returning `{node}`. */
  function LikeTermsRuleFixed(): Rule
  {
    DefineRule(LikeTermsMatchFixed, LikeTermsRewrite)
  }

  /** The sorted keys are exactly the variables that have coefficients. */
  /** Every sorted key names a non-empty list of coefficients. */
  lemma KeysHaveCoefficients(args: seq<Node>, keys: seq<string>, coefficients: map<string, seq<Node>>)
    requires forall a <- args :: IsExpression(a)
    requires keys == SortStrings(KeyOrder(args)) && coefficients == Coefficients(args)
    ensures forall k :: 0 <= k < |keys| ==> keys[k] in coefficients && coefficients[keys[k]] != []
  {
    SortedKeys(args);
    CoefficientLists(args);
  }

  lemma SortedKeys(args: seq<Node>)
    requires forall a <- args :: IsExpression(a)
    ensures var keys := SortStrings(KeyOrder(args));
      SortedStrings(keys) && forall x :: x in keys <==> x in Coefficients(args)
  {
    CoefficientLists(args);
    var keys := SortStrings(KeyOrder(args));
    assert forall x :: x in keys <==> x in multiset(keys);
    assert forall x :: x in KeyOrder(args) <==> x in multiset(KeyOrder(args));
  }

  /** The k-th group holds the terms, in argument order, of the k-th
      variable in sorted order. */
  lemma GroupsShape(args: seq<Node>)
    requires forall a <- args :: IsExpression(a)
    ensures var keys := SortStrings(KeyOrder(args));
      |Groups(args)| == |keys| &&
      forall k :: 0 <= k < |keys| ==>
        CoefficientsIn(args, keys[k]) != [] &&
        Groups(args)[k] == Group(CoefficientsIn(args, keys[k]), keys[k])
  {
    CoefficientLists(args);
    SortedKeys(args);
  }

  /** There are no keys exactly when no argument has a coefficient. */
  lemma NoKeysIffNoCoefficients(args: seq<Node>)
    requires forall a <- args :: IsExpression(a)
    ensures SortStrings(KeyOrder(args)) == [] <==> Coefficients(args) == map[]
  {
    SortedKeys(args);
    var m, keys := Coefficients(args), SortStrings(KeyOrder(args));
    if keys != [] {
      assert keys[0] in m;
    }
  }

  /** The rewrite lists each variable once, in sorted order, each with the
      coefficients of its terms in argument order, and then the numeric
      arguments as one `add`. */
  lemma RewriteShape(node: Node, b: Bindings, idx: Indexes)
    requires IsAdd(node) && IsExpression(node)
    ensures forall a <- node.args :: IsExpression(a)
    ensures var r := LikeTermsRewrite(node, b, idx);
      var keys := SortStrings(KeyOrder(node.args));
      var constants := Constants(node.args);
      r.Ok? ==>
        r.value.op == "add" &&
        |r.value.args| == |keys| + (if constants != [] then 1 else 0) &&
        (forall k :: 0 <= k < |keys| ==>
           CoefficientsIn(node.args, keys[k]) != [] &&
           r.value.args[k] == Group(CoefficientsIn(node.args, keys[k]), keys[k])) &&
        (constants != [] ==> r.value.args[|keys|] == Apply("add", Numbers(node.args), {}))
  {
    assert forall a <- node.args :: IsExpression(a);
    ConstantsAreNumbers(node.args);
    GroupsShape(node.args);
  }

  /** As written the rule never rewrites: whenever it applies, `applyRule`
      returns its input unchanged. */
  lemma LikeTermsRuleIsNoOp(t: Node)
    requires CanApplyRule(LikeTermsRule(), t)
    ensures ApplyRule(LikeTermsRule(), t) == Ok(t)
  {
  }

  /** Both versions apply to exactly the trees that have an `add` with like
      terms somewhere. */
  lemma CanApplyLikeTerms(t: Node)
    ensures CanApplyRule(LikeTermsRule(), t) <==>
      exists q :: ValidPath(t, q) && LikeTermsMatch(At(t, q)) != Null
    ensures CanApplyRule(LikeTermsRuleFixed(), t) <==> CanApplyRule(LikeTermsRule(), t)
  {
    SearchNoneIffAllNull(LikeTermsMatch, t);
    SearchNoneIffAllNull(LikeTermsMatchFixed, t);
  }

  /** With `{node}` returned, the first `add` with like terms (in
      post-order) is replaced by the rewrite. */
  lemma LikeTermsRuleFixedRewrites(t: Node)
    requires CanApplyRule(LikeTermsRuleFixed(), t)
    ensures var l := Search(LikeTermsMatchFixed, t).value;
      var node := At(t, l.path);
      LikeTermsRewrite(node, NoBindings, NoIndexes).Ok? ==>
        ApplyRule(LikeTermsRuleFixed(), t) ==
          Ok(ReplaceAt(t, l.path, FixMinuses(LikeTermsRewrite(node, NoBindings, NoIndexes).value)))
  {
  }
}
