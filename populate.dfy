/** `_expandVariableLengthPatternNode` and `populatePattern` (lib/matcher.js,
    repeated in lib/pattern.js): turning a rewrite pattern and a placeholder
    table into a tree. A variable-length group `T + ...` (or `T * ...`) is
    first expanded into as many copies of its template `T` as the table has
    entries, then every bound placeholder is replaced by its value and every
    `#eval(...)` by the number the evaluator gives. */
module Populate {
  import opened Wrappers
  import opened Nodes
  import opened Traverse
  import opened Utils
  import opened Matcher

  // ---------------------------------------------------------------------
  // Expansion of one variable-length group

  /** Copy `i` of a template: every subscripted placeholder gets subscript
      `i`; a nested group is expanded with the same length; a subtree that
      was already expanded is left alone. */
  function Instantiate(t: Node, i: nat, length: nat, negs: map<nat, bool>): (r: Node)
    decreases Size(t), 2
  {
    if t.Apply? && WasExpanded in t.flags then t
    else if IsVariableLengthPattern(t) then Expand(t, length, negs)
    else match t
      case Placeholder(n, Some(_)) => Placeholder(n, Some(i))
      case Apply(op, args, f) =>
        Apply(op, seq(|args|, k requires 0 <= k < |args| =>
          ArgSizeBound(args, k); Instantiate(args[k], i, length, negs)), f)
      case Eval(a) => Eval(Instantiate(a, i, length, negs))
      case Parentheses(b) => Parentheses(Instantiate(b, i, length, negs))
      case _ => t
  }

  /** Wraps copy `i` of an `add` group in a `neg` when the match recorded
      a negation at index `i`. */
  function SignCopy(op: string, negs: map<nat, bool>, i: nat, copy: Node): Node
  {
    if op == "add" && |negs| > 0 && i in negs then
      Apply("neg", [copy], if negs[i] then {WasMinus} else {})
    else copy
  }

  /** `_expandVariableLengthPatternNode(pattern, length, negatives)`. */
  function Expand(p: Node, length: nat, negs: map<nat, bool>): (r: Node)
    requires p.Apply? && |p.args| > 0
    ensures r.Apply? && r.op == p.op && |r.args| == length
    ensures WasExpanded in r.flags && r.flags - {WasExpanded} == p.flags - {WasExpanded}
    decreases Size(p), 1
  {
    ArgSizeBound(p.args, 0);
    Apply(p.op, seq(length, i requires 0 <= i < length =>
      SignCopy(p.op, negs, i, Instantiate(p.args[0], i, length, negs))), p.flags + {WasExpanded})
  }

  /** The two loops of `_expandVariableLengthPatternNode`: push `length`
      copies of the template, then wrap the negated ones of an `add`. */
  method ExpandVariableLengthPatternNode(p: Node, length: nat, negs: map<nat, bool>) returns (r: Node)
    requires p.Apply? && |p.args| > 0
    ensures r == Expand(p, length, negs)
  {
    var args: seq<Node> := [];
    for i := 0 to length
      invariant |args| == i
      invariant forall k :: 0 <= k < i ==> args[k] == Instantiate(p.args[0], k, length, negs)
    {
      args := args + [Instantiate(p.args[0], i, length, negs)];
    }
    if p.op == "add" && |negs| > 0 {
      for i := 0 to |args|
        invariant |args| == length
        invariant forall k :: 0 <= k < i ==> args[k] == SignCopy(p.op, negs, k, Instantiate(p.args[0], k, length, negs))
        invariant forall k :: i <= k < length ==> args[k] == Instantiate(p.args[0], k, length, negs)
      {
        if i in negs {
          args := args[i := Apply("neg", [args[i]], if negs[i] then {WasMinus} else {})];
        }
      }
    }
    r := Apply(p.op, args, p.flags + {WasExpanded});
  }

  /** Subscripts carried by placeholders outside already-expanded groups. */
  function OpenSubscripts(t: Node): set<nat>
  {
    if t.Apply? && WasExpanded in t.flags then {}
    else match t
      case Placeholder(_, Some(k)) => {k}
      case Apply(_, args, _) => set k, a | a in args && k in OpenSubscripts(a) :: k
      case Eval(a) => OpenSubscripts(a)
      case Parentheses(b) => OpenSubscripts(b)
      case _ => {}
  }

  /** In copy `i` every placeholder outside a nested group has subscript `i`. */
  lemma {:induction false} InstantiateSubscripts(t: Node, i: nat, length: nat, negs: map<nat, bool>)
    ensures OpenSubscripts(Instantiate(t, i, length, negs)) <= {i}
    decreases Size(t)
  {
    if t.Apply? && WasExpanded in t.flags {
    } else if IsVariableLengthPattern(t) {
      assert WasExpanded in Expand(t, length, negs).flags;
    } else {
      match t
      case Apply(op, args, f) =>
        var r := Instantiate(t, i, length, negs);
        forall a | a in r.args ensures OpenSubscripts(a) <= {i} {
          var k :| 0 <= k < |args| && r.args[k] == a;
          ArgSizeBound(args, k);
          InstantiateSubscripts(args[k], i, length, negs);
        }
      case Eval(a) => InstantiateSubscripts(a, i, length, negs);
      case Parentheses(b) => InstantiateSubscripts(b, i, length, negs);
      case _ =>
    }
  }

  /** An expansion has exactly `length` copies; copy `i` is the template
      with subscripts `i`, negated for an `add` exactly where `negs` records
      a negation at `i`; the group is marked as expanded. */
  lemma ExpandShape(p: Node, length: nat, negs: map<nat, bool>, i: nat)
    requires p.Apply? && |p.args| > 0 && i < length
    ensures var r := Expand(p, length, negs);
      r.Apply? && r.op == p.op && |r.args| == length && WasExpanded in r.flags &&
      var copy := Instantiate(p.args[0], i, length, negs);
      OpenSubscripts(copy) <= {i} &&
      (if p.op == "add" && i in negs
       then r.args[i] == Apply("neg", [copy], if negs[i] then {WasMinus} else {})
       else r.args[i] == copy)
  {
    InstantiateSubscripts(p.args[0], i, length, negs);
  }

  // ---------------------------------------------------------------------
  // Sizing a group from the table

  /** The last occurrence of `name` in `nodes` carries a subscript. */
  predicate LastSubscripted(nodes: seq<Node>, name: string)
  {
    LastPlaceholder(nodes, name).Some? && LastPlaceholder(nodes, name).value.subscript.Some?
  }

  /** The first name (in table key order) whose table entry, the last
      occurrence in post-order, carries a subscript. */
  function FirstSubscripted(names: seq<string>, nodes: seq<Node>): (r: Option<string>)
    ensures r.Some? ==> r.value in names && LastSubscripted(nodes, r.value)
    ensures r.None? ==> forall n <- names :: !LastSubscripted(nodes, n)
  {
    if names == [] then None
    else if LastSubscripted(nodes, names[0]) then Some(names[0])
    else FirstSubscripted(names[1..], nodes)
  }

  /** No name before the chosen one qualifies: the choice occurs at or
      before every name whose last occurrence is subscripted. */
  lemma {:induction false} FirstSubscriptedIsFirst(names: seq<string>, nodes: seq<Node>, j: nat)
    requires j < |names| && LastSubscripted(nodes, names[j])
    ensures FirstSubscripted(names, nodes).Some?
    ensures FirstSubscripted(names, nodes).value in names[..j + 1]
  {
    if !LastSubscripted(nodes, names[0]) {
      assert names[1..][j - 1] == names[j];
      FirstSubscriptedIsFirst(names[1..], nodes, j - 1);
      assert names[1..][..j] == names[1..j + 1];
    }
  }

  lemma MaxExists(s: set<nat>)
    requires s != {}
    ensures exists m :: m in s && forall y :: y in s ==> y <= m
    decreases s
  {
    var x :| x in s;
    var rest := s - {x};
    var top := x;
    if rest != {} {
      MaxExists(rest);
      var m :| m in rest && forall y :: y in rest ==> y <= m;
      top := if x <= m then m else x;
    }
    forall y | y in s ensures y <= top {
      if y != x { assert y in rest; }
    }
    assert top in s;
  }

  /** `Math.max` over the keys of a family. */
  function MaxKey(s: set<nat>): (r: nat)
    requires s != {}
    ensures r in s && forall y :: y in s ==> y <= r
  {
    MaxExists(s);
    var m :| m in s && forall y :: y in s ==> y <= m;
    m
  }

  lemma FamilyKeysNonEmpty(b: Bindings, name: string)
    requires name in Families(b)
    ensures FamilyKeys(b, name) != {}
  {
    var key :| key in b.entries && key.0 == name;
    assert key.1 in FamilyKeys(b, name);
  }

  /** The number of copies `populatePattern` asks for: one more than the
      largest subscript bound for the sizing placeholder. A name bound to a
      single node yields no copies (`Math.max` over the node's field names
      is NaN); a template without a subscripted last occurrence, or a name
      with no bindings, makes the source throw. */
  function GroupLength(t: Node, b: Bindings): (r: Result<nat, Error>)
    requires t.Apply? && |t.args| > 0
    ensures var nodes := PostOrder(t.args[0]);
      match FirstSubscripted(PlaceholderNames(nodes), nodes)
      case None => r == Err(NoVariablePlaceholder)
      case Some(v) =>
        (r.Ok? <==> v in Bound(b)) &&
        (v in b.plain ==> r == Ok(0)) &&
        (v !in b.plain && v in Families(b) ==>
           r.Ok? && r.value - 1 in FamilyKeys(b, v) && forall k <- FamilyKeys(b, v) :: k < r.value)
  {
    var nodes := PostOrder(t.args[0]);
    match FirstSubscripted(PlaceholderNames(nodes), nodes)
    case None => Err(NoVariablePlaceholder)
    case Some(v) =>
      if v in b.plain then Ok(0)
      else if v in Families(b) then
        FamilyKeysNonEmpty(b, v);
        Ok(MaxKey(FamilyKeys(b, v)) + 1)
      else Err(UnboundFamily)
  }


  // ---------------------------------------------------------------------
  // populatePattern

  /** The first pass of `populatePattern`: every variable-length group met
      on the way down is replaced by its expansion. `exported` is false for
      the copy in lib/pattern.js, whose expander import is undefined. */
  function ExpandGroups(t: Node, b: Bindings, exported: bool): (r: Result<Node, Error>)
    ensures !HasGroup(t) ==> r == Ok(t)
    ensures HasGroup(t) && !exported ==> r.Err?
  {
    if IsVariableLengthPattern(t) then
      match GroupLength(t, b)
      case Err(e) => Err(e)
      case Ok(length) => if exported then Ok(Expand(t, length, b.negatives)) else Err(ExpanderNotExported)
    else match t
      case Apply(op, args, f) =>
        var args' :- ExpandGroupsArgs(args, b, exported);
        Ok(Apply(op, args', f))
      case Eval(a) =>
        var a' :- ExpandGroups(a, b, exported);
        Ok(Eval(a'))
      case Parentheses(x) =>
        var x' :- ExpandGroups(x, b, exported);
        Ok(Parentheses(x'))
      case _ => Ok(t)
  }

  function ExpandGroupsArgs(args: seq<Node>, b: Bindings, exported: bool): (r: Result<seq<Node>, Error>)
    ensures r.Ok? ==> |r.value| == |args|
    ensures !ArgsHaveGroup(args) ==> r == Ok(args)
    ensures ArgsHaveGroup(args) && !exported ==> r.Err?
  {
    if args == [] then Ok([])
    else
      var a :- ExpandGroups(args[0], b, exported);
      var rest :- ExpandGroupsArgs(args[1..], b, exported);
      assert [args[0]] + args[1..] == args;
      Ok([a] + rest)
  }

  /** The second pass of `populatePattern`, bottom-up: a bound placeholder
      becomes its value (a subscripted one the entry under its subscript),
      an unbound one stays, and `#eval(x)` becomes the number `eval` gives
      for the already populated `x`. */
  function Fill(t: Node, b: Bindings, eval: Node -> int): (r: Result<Node, Error>)
    ensures Names(t) !! Bound(b) && !HasEval(t) ==> r == Ok(t)
  {
    match t
    case Eval(a) =>
      var a' :- Fill(a, b, eval);
      Ok(Number(eval(a')))
    case Placeholder(n, Some(k)) =>
      if n in b.plain then Err(MissingSubscript)
      else if n in Families(b) then
        if (n, k) in b.entries then Ok(b.entries[(n, k)]) else Err(MissingSubscript)
      else Ok(t)
    case Placeholder(n, None) =>
      if n in b.plain then Ok(b.plain[n])
      else if n in Families(b) then Err(FamilyAsNode)
      else Ok(t)
    case Apply(op, args, f) =>
      var args' :- FillArgs(args, b, eval);
      Ok(Apply(op, args', f))
    case Parentheses(x) =>
      var x' :- Fill(x, b, eval);
      Ok(Parentheses(x'))
    case _ => Ok(t)
  }

  function FillArgs(args: seq<Node>, b: Bindings, eval: Node -> int): (r: Result<seq<Node>, Error>)
    ensures r.Ok? ==> |r.value| == |args|
    ensures ArgsNames(args) !! Bound(b) && !ArgsHaveEval(args) ==> r == Ok(args)
  {
    if args == [] then Ok([])
    else
      var a :- Fill(args[0], b, eval);
      var rest :- FillArgs(args[1..], b, eval);
      assert [args[0]] + args[1..] == args;
      Ok([a] + rest)
  }

  /** A variable-length group whose sizing placeholder names a family is
      replaced by exactly one copy per subscript up to the largest bound. */
  lemma GroupExpandedToFamilySize(t: Node, b: Bindings, v: string)
    requires IsVariableLengthPattern(t)
    requires FirstSubscripted(PlaceholderNames(PostOrder(t.args[0])), PostOrder(t.args[0])) == Some(v)
    requires v !in b.plain && v in Families(b)
    ensures ExpandGroups(t, b, true).Ok?
    ensures var r := ExpandGroups(t, b, true).value;
      r == Expand(t, |r.args|, b.negatives) &&
      |r.args| - 1 in FamilyKeys(b, v) &&
      forall k :: k in FamilyKeys(b, v) ==> k < |r.args|
  {
    FamilyKeysNonEmpty(b, v);
    var n := MaxKey(FamilyKeys(b, v)) + 1;
    assert GroupLength(t, b) == Ok(n);
    assert |Expand(t, n, b.negatives).args| == n;
  }

  /** The names of the placeholders `Fill` would look at (everything below
      an `#eval` becomes a number). */
  function Names(t: Node): set<string>
  {
    match t
    case Placeholder(n, _) => {n}
    case Apply(_, args, _) => ArgsNames(args)
    case Parentheses(x) => Names(x)
    case _ => {}
  }

  function ArgsNames(args: seq<Node>): set<string>
  {
    if args == [] then {} else Names(args[0]) + ArgsNames(args[1..])
  }

  function Bound(b: Bindings): set<string>
  {
    b.plain.Keys + Families(b)
  }

  lemma {:induction false} ExpressionHasNoNames(t: Node)
    requires IsExpression(t)
    ensures Names(t) == {}
  {
    match t
    case Apply(_, args, _) => ArgsHaveNoNames(args);
    case Parentheses(x) => ExpressionHasNoNames(x);
    case _ =>
  }

  lemma {:induction false} ArgsHaveNoNames(args: seq<Node>)
    requires forall a <- args :: IsExpression(a)
    ensures ArgsNames(args) == {}
  {
    if args != [] {
      ExpressionHasNoNames(args[0]);
      ArgsHaveNoNames(args[1..]);
    }
  }

  /** A successful population leaves exactly the unbound placeholders:
      every bound one was replaced by a placeholder-free value. */
  lemma {:induction false} FillNames(t: Node, b: Bindings, eval: Node -> int)
    requires Ground(b) && Fill(t, b, eval).Ok?
    ensures Names(Fill(t, b, eval).value) == Names(t) - Bound(b)
  {
    match t
    case Placeholder(n, Some(k)) =>
      if n !in b.plain && n in Families(b) {
        ExpressionHasNoNames(b.entries[(n, k)]);
      }
    case Placeholder(n, None) =>
      if n in b.plain {
        ExpressionHasNoNames(b.plain[n]);
      }
    case Apply(_, args, _) => FillArgsNames(args, b, eval);
    case Parentheses(x) => FillNames(x, b, eval);
    case _ =>
  }

  lemma {:induction false} FillArgsNames(args: seq<Node>, b: Bindings, eval: Node -> int)
    requires Ground(b) && FillArgs(args, b, eval).Ok?
    ensures ArgsNames(FillArgs(args, b, eval).value) == ArgsNames(args) - Bound(b)
  {
    if args != [] {
      FillNames(args[0], b, eval);
      FillArgsNames(args[1..], b, eval);
      var r := FillArgs(args, b, eval).value;
      assert r[1..] == FillArgs(args[1..], b, eval).value;
    }
  }

  function HasEval(t: Node): bool
  {
    match t
    case Eval(_) => true
    case Apply(_, args, _) => ArgsHaveEval(args)
    case Parentheses(x) => HasEval(x)
    case _ => false
  }

  function ArgsHaveEval(args: seq<Node>): bool
  {
    args != [] && (HasEval(args[0]) || ArgsHaveEval(args[1..]))
  }

  function HasGroup(t: Node): bool
  {
    IsVariableLengthPattern(t) ||
    match t
    case Apply(_, args, _) => ArgsHaveGroup(args)
    case Eval(a) => HasGroup(a)
    case Parentheses(x) => HasGroup(x)
    case _ => false
  }

  function ArgsHaveGroup(args: seq<Node>): bool
  {
    args != [] && (HasGroup(args[0]) || ArgsHaveGroup(args[1..]))
  }

  /** `populatePattern` of lib/matcher.js: without groups it is `Fill`
      alone. */
  function PopulatePattern(p: Node, b: Bindings, eval: Node -> int): (r: Result<Node, Error>)
    ensures !HasGroup(p) ==> r == Fill(p, b, eval)
  {
    var expanded :- ExpandGroups(p, b, true);
    Fill(expanded, b, eval)
  }

  /** Populating from a table of expressions leaves no bound name behind. */
  lemma PopulateLeavesNoBoundName(p: Node, b: Bindings, eval: Node -> int)
    requires Ground(b) && PopulatePattern(p, b, eval).Ok?
    ensures Names(PopulatePattern(p, b, eval).value) !! Bound(b)
  {
    FillNames(ExpandGroups(p, b, true).value, b, eval);
  }

  /** `populatePattern` of lib/pattern.js: it agrees with lib/matcher.js on
      patterns without variable-length groups and fails on every other
      pattern. */
  function PopulatePatternSplit(p: Node, b: Bindings, eval: Node -> int): (r: Result<Node, Error>)
    ensures HasGroup(p) ==> r.Err?
    ensures !HasGroup(p) ==> r == PopulatePattern(p, b, eval)
  {
    var expanded :- ExpandGroups(p, b, false);
    Fill(expanded, b, eval)
  }
}
