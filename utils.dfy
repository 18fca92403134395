/** Helpers of lib/utils.js: range checks, runs of arguments, placeholder
    tables, the variable-length-pattern test and the minus-sign repair pass.
    The errors the engine raises by throwing are collected here as values. */
module Utils {
  import opened Wrappers
  import opened Nodes
  import opened Traverse

  /** The ways the engine ends by throwing. */
  datatype Error =
    | NullMatch              // applyRule destructures a null match result
    | ArgsUndefined          // checkBounds reads `.length` of a node without args
    | NoVariablePlaceholder  // populate: no subscripted placeholder to size an expansion
    | UnboundFamily          // populate: the sizing placeholder has no bindings
    | MissingSubscript       // populate: a subscripted placeholder whose entry is absent
    | FamilyAsNode           // populate: an unsubscripted placeholder bound to a family table
    | ExpanderNotExported    // lib/pattern.js calls an expander lib/matcher.js does not export
    | EmptyApply             // applyNode on an empty argument list

  /** The `indexes` record of a match: absent (a custom match function gave
      none), the empty object `{}`, or a half-open argument range. */
  datatype Indexes = NoIndexes | EmptyIndexes | Span(start: nat, end: nat)

  /** `checkBounds(indexes, node.args)`: does the range leave some argument
      out? `args` is None for a node that has no `args` field. */
  function CheckBounds(indexes: Indexes, args: Option<seq<Node>>): (r: Result<bool, Error>)
    requires !indexes.NoIndexes?
    ensures r.Err? <==> args.None? && !(indexes.Span? && indexes.start > 0)
    ensures r.Err? ==> r.error == ArgsUndefined
    ensures indexes.EmptyIndexes? && args.Some? ==> r == Ok(false)
    ensures indexes.Span? && args.Some? && indexes.start <= indexes.end <= |args.value| ==>
      r.Ok? && (r.value <==> indexes.end - indexes.start < |args.value|)
  {
    match indexes
    case Span(s, e) =>
      if s > 0 then Ok(true)
      else if args.None? then Err(ArgsUndefined)
      else Ok(e < |args.value|)
    case EmptyIndexes =>
      if args.None? then Err(ArgsUndefined) else Ok(false)
  }

  // ---------------------------------------------------------------------
  // getRanges

  /** `[s, e)` is a run of at least two consecutive elements that satisfy
      `p` and cannot be extended on either side. */
  ghost predicate MaximalRun<T>(xs: seq<T>, p: T -> bool, s: nat, e: nat)
  {
    s + 1 < e <= |xs| &&
    (forall k :: s <= k < e ==> p(xs[k])) &&
    (s == 0 || !p(xs[s - 1])) &&
    (e == |xs| || !p(xs[e]))
  }

  /** Element `k` satisfies `p` and so does a neighbour. */
  ghost predicate InLongRun<T>(xs: seq<T>, p: T -> bool, k: nat)
    requires k < |xs|
  {
    p(xs[k]) && ((k > 0 && p(xs[k - 1])) || (k + 1 < |xs| && p(xs[k + 1])))
  }

  ghost predicate Covered(ranges: seq<(nat, nat)>, k: nat)
  {
    exists m :: 0 <= m < |ranges| && ranges[m].0 <= k < ranges[m].1
  }

  ghost predicate Increasing(ranges: seq<(nat, nat)>)
  {
    forall m :: 0 <= m < |ranges| - 1 ==> ranges[m].1 < ranges[m + 1].0
  }

  /** What `getRanges` has established after scanning `xs[..i]`, with `start`
      the beginning of the open run (or -1). */
  ghost predicate ScanState<T>(xs: seq<T>, p: T -> bool, ranges: seq<(nat, nat)>, start: int, i: nat)
  {
    i <= |xs| && -1 <= start < i &&
    (start == -1 ==> i == 0 || !p(xs[i - 1])) &&
    (start != -1 ==> (start == 0 || !p(xs[start - 1])) && (forall k :: start <= k < i ==> p(xs[k]))) &&
    (forall m :: 0 <= m < |ranges| ==> MaximalRun(xs, p, ranges[m].0, ranges[m].1)) &&
    Increasing(ranges) &&
    (|ranges| > 0 ==> ranges[|ranges| - 1].1 < i && (start != -1 ==> ranges[|ranges| - 1].1 < start)) &&
    (forall k :: 0 <= k < i && InLongRun(xs, p, k) && (start == -1 || k < start) ==> Covered(ranges, k))
  }

  /** The ranges once the run opened at `start` ends before `i`: only a
      run of two or more elements is recorded. */
  function Closed(ranges: seq<(nat, nat)>, start: nat, i: nat): seq<(nat, nat)>
  {
    if i - start > 1 then ranges + [(start, i)] else ranges
  }

  /** Closing the open run at `i` (which fails `p`, or is the end). */
  lemma CloseRun<T>(xs: seq<T>, p: T -> bool, ranges: seq<(nat, nat)>, start: int, i: nat)
    requires ScanState(xs, p, ranges, start, i) && start != -1
    requires i == |xs| || !p(xs[i])
    ensures var r := Closed(ranges, start as nat, i);
      (i < |xs| ==> ScanState(xs, p, r, -1, i + 1)) &&
      (forall m :: 0 <= m < |r| ==> MaximalRun(xs, p, r[m].0, r[m].1)) &&
      Increasing(r) &&
      (forall k :: 0 <= k < i && InLongRun(xs, p, k) ==> Covered(r, k))
  {
    var r := Closed(ranges, start as nat, i);
    if i - start > 1 {
      assert r == ranges + [(start as nat, i)];
      forall m | 0 <= m < |r| ensures MaximalRun(xs, p, r[m].0, r[m].1) {
        if m < |ranges| { assert r[m] == ranges[m]; }
      }
      forall m | 0 <= m < |r| - 1 ensures r[m].1 < r[m + 1].0 {
        assert r[m] == ranges[m];
        if m + 1 < |ranges| { assert r[m + 1] == ranges[m + 1]; }
      }
      CoverExtended(xs, p, ranges, start as nat, i);
    } else {
      assert r == ranges;
      forall k | 0 <= k < i && InLongRun(xs, p, k)
        ensures Covered(ranges, k)
      {
        assert k != start;
      }
    }
  }

  lemma CoverExtended<T>(xs: seq<T>, p: T -> bool, ranges: seq<(nat, nat)>, start: nat, i: nat)
    requires start < i <= |xs|
    requires forall k :: 0 <= k < start && InLongRun(xs, p, k) ==> Covered(ranges, k)
    ensures forall k :: 0 <= k < i && InLongRun(xs, p, k) ==> Covered(ranges + [(start, i)], k)
  {
    var r := ranges + [(start, i)];
    forall k | 0 <= k < i && InLongRun(xs, p, k)
      ensures Covered(r, k)
    {
      if k < start {
        var m :| 0 <= m < |ranges| && ranges[m].0 <= k < ranges[m].1;
        assert r[m] == ranges[m];
      } else {
        assert r[|r| - 1] == (start, i);
      }
    }
  }

  /** Scanning an element that satisfies `p` opens or extends the run. */
  lemma ExtendRun<T>(xs: seq<T>, p: T -> bool, ranges: seq<(nat, nat)>, start: int, i: nat)
    requires ScanState(xs, p, ranges, start, i) && i < |xs| && p(xs[i])
    ensures ScanState(xs, p, ranges, if start == -1 then i else start, i + 1)
  {
  }

  /** `getRanges`: the maximal runs of two or more consecutive elements
      satisfying `p`, in increasing order; every element of such a run is
      covered, and no shorter run is reported. */
  method GetRanges<T>(xs: seq<T>, p: T -> bool) returns (ranges: seq<(nat, nat)>)
    ensures forall m :: 0 <= m < |ranges| ==> MaximalRun(xs, p, ranges[m].0, ranges[m].1)
    ensures Increasing(ranges)
    ensures forall k :: 0 <= k < |xs| && InLongRun(xs, p, k) ==> Covered(ranges, k)
  {
    ranges := [];
    var start: int := -1;
    var i := 0;
    while i < |xs|
      invariant ScanState(xs, p, ranges, start, i)
    {
      if p(xs[i]) {
        ExtendRun(xs, p, ranges, start, i);
        if start == -1 {
          start := i;
        }
      } else {
        if start != -1 {
          CloseRun(xs, p, ranges, start, i);
          ranges := Closed(ranges, start as nat, i);
        } else {
          SkipElement(xs, p, ranges, i);
        }
        start := -1;
      }
      i := i + 1;
    }
    if start != -1 {
      CloseRun(xs, p, ranges, start, i);
      ranges := Closed(ranges, start as nat, i);
    } else {
      ScanDone(xs, p, ranges, i);
    }
  }

  /** An element outside any run leaves the state as it was. */
  lemma SkipElement<T>(xs: seq<T>, p: T -> bool, ranges: seq<(nat, nat)>, i: nat)
    requires ScanState(xs, p, ranges, -1, i) && i < |xs| && !p(xs[i])
    ensures ScanState(xs, p, ranges, -1, i + 1)
  {
  }

  lemma ScanDone<T>(xs: seq<T>, p: T -> bool, ranges: seq<(nat, nat)>, i: nat)
    requires ScanState(xs, p, ranges, -1, i) && i == |xs|
    ensures forall m :: 0 <= m < |ranges| ==> MaximalRun(xs, p, ranges[m].0, ranges[m].1)
    ensures Increasing(ranges)
    ensures forall k :: 0 <= k < |xs| && InLongRun(xs, p, k) ==> Covered(ranges, k)
  {
  }

  // ---------------------------------------------------------------------
  // getPlaceholders

  /** The last placeholder named `name` in `nodes`, if any. */
  function LastPlaceholder(nodes: seq<Node>, name: string): (r: Option<Node>)
    ensures r.None? <==> forall n <- nodes :: !(n.Placeholder? && n.name == name)
    ensures r.Some? ==>
      r.value.Placeholder? && r.value.name == name &&
      exists k :: 0 <= k < |nodes| && nodes[k] == r.value &&
        forall j :: k < j < |nodes| ==> !(nodes[j].Placeholder? && nodes[j].name == name)
  {
    if nodes == [] then None
    else
      var last := nodes[|nodes| - 1];
      if last.Placeholder? && last.name == name then Some(last)
      else
        var r := LastPlaceholder(nodes[..|nodes| - 1], name);
        assert nodes == nodes[..|nodes| - 1] + [last];
        r
  }

  /** Placeholder names in order of first occurrence (the key order of the
      table `getPlaceholders` builds). */
  function PlaceholderNames(nodes: seq<Node>): (r: seq<string>)
    ensures forall i, j :: 0 <= i < j < |r| ==> r[i] != r[j]
    ensures forall name :: name in r <==> exists n <- nodes :: n.Placeholder? && n.name == name
  {
    if nodes == [] then []
    else
      var last := nodes[|nodes| - 1];
      var pre := PlaceholderNames(nodes[..|nodes| - 1]);
      assert nodes == nodes[..|nodes| - 1] + [last];
      if last.Placeholder? && last.name !in pre then pre + [last.name] else pre
  }

  /** The names come in order of first occurrence: an occurrence (at `q`)
      of a later name `r[j]` is preceded by an occurrence of each earlier
      name `r[i]`. */
  lemma {:induction false} PlaceholderNamesInOrder(nodes: seq<Node>, i: nat, j: nat, q: nat)
    requires i < j < |PlaceholderNames(nodes)| && q < |nodes|
    requires nodes[q].Placeholder? && nodes[q].name == PlaceholderNames(nodes)[j]
    ensures exists q' :: 0 <= q' < q && nodes[q'].Placeholder? && nodes[q'].name == PlaceholderNames(nodes)[i]
  {
    var n := |nodes| - 1;
    var r := PlaceholderNames(nodes);
    var pre := PlaceholderNames(nodes[..n]);
    assert |r| <= |pre| + 1 && r[..|pre|] == pre;
    assert r[i] == pre[i] && r[i] in pre;
    if q < n {
      assert nodes[..n][q] == nodes[q];
      assert nodes[q] in nodes[..n];
      assert j < |pre|;
      assert r[j] == pre[j];
      PlaceholderNamesInOrder(nodes[..n], i, j, q);
      var k1 :| 0 <= k1 < q && nodes[..n][k1].Placeholder? && nodes[..n][k1].name == pre[i];
      assert nodes[k1] == nodes[..n][k1];
    } else {
      var q0 :| q0 in nodes[..n] && q0.Placeholder? && q0.name == r[i];
      var k0 :| 0 <= k0 < n && nodes[..n][k0] == q0;
      assert nodes[k0] == q0;
    }
  }

  /** `getPlaceholders`: walks the tree in post-order and keeps, for each
      name, the last placeholder node visited; `names` is the key order. */
  method GetPlaceholders(ast: Node) returns (table: map<string, Node>, names: seq<string>)
    ensures names == PlaceholderNames(PostOrder(ast))
    ensures forall name :: name in table <==> name in names
    ensures forall name :: name in table ==> Some(table[name]) == LastPlaceholder(PostOrder(ast), name)
  {
    var nodes := PostOrder(ast);
    table, names := map[], [];
    for k := 0 to |nodes|
      invariant names == PlaceholderNames(nodes[..k])
      invariant forall name :: name in table <==> name in names
      invariant forall name :: name in table ==> Some(table[name]) == LastPlaceholder(nodes[..k], name)
    {
      assert nodes[..k + 1][..k] == nodes[..k];
      var node := nodes[k];
      if node.Placeholder? {
        if node.name !in table {
          names := names + [node.name];
        }
        table := table[node.name := node];
      }
    }
    assert nodes[..|nodes|] == nodes;
  }

  // ---------------------------------------------------------------------
  // hasPlaceholderWithSubscript / isVariableLengthPattern

  predicate ZeroSubscripted(n: Node)
  {
    n.Placeholder? && n.subscript == Some(0)
  }

  /** Some placeholder in the tree carries the subscript 0. */
  predicate HasZeroSubscript(t: Node)
  {
    match t
    case Placeholder(_, s) => s == Some(0)
    case Apply(_, args, _) => exists a <- args :: HasZeroSubscript(a)
    case Eval(a) => HasZeroSubscript(a)
    case Parentheses(b) => HasZeroSubscript(b)
    case _ => false
  }

  /** The recursive definition agrees with a scan of the post-order walk. */
  lemma {:induction false} HasZeroSubscriptInPostOrder(t: Node)
    ensures HasZeroSubscript(t) <==> exists n <- PostOrder(t) :: ZeroSubscripted(n)
  {
    match t
    case Apply(_, args, _) => ArgsZeroSubscriptInPostOrder(args);
    case Eval(a) => HasZeroSubscriptInPostOrder(a);
    case Parentheses(b) => HasZeroSubscriptInPostOrder(b);
    case _ =>
      assert PostOrder(t) == [t];
      assert ZeroSubscripted(t) <==> exists n <- [t] :: ZeroSubscripted(n) by {
        assert [t][0] == t;
      }
  }

  lemma {:induction false} ArgsZeroSubscriptInPostOrder(args: seq<Node>)
    ensures (exists a <- args :: HasZeroSubscript(a)) <==> exists n <- ArgsPostOrder(args) :: ZeroSubscripted(n)
  {
    if args != [] {
      HasZeroSubscriptInPostOrder(args[0]);
      ArgsZeroSubscriptInPostOrder(args[1..]);
      assert args == [args[0]] + args[1..];
    }
  }

  /** `hasPlaceholderWithSubscript`: a flag set by the first post-order visit
      of a placeholder with subscript 0. */
  method HasPlaceholderWithSubscript(ast: Node) returns (result: bool)
    ensures result == HasZeroSubscript(ast)
  {
    var nodes := PostOrder(ast);
    result := false;
    for k := 0 to |nodes|
      invariant result <==> exists j :: 0 <= j < k && ZeroSubscripted(nodes[j])
    {
      if !result && ZeroSubscripted(nodes[k]) {
        result := true;
      }
    }
    HasZeroSubscriptInPostOrder(ast);
  }

  /** `isVariableLengthPattern`: an Apply of exactly a template and an
      Ellipsis, where the post-order walk of the template meets a
      placeholder with subscript 0. */
  function IsVariableLengthPattern(n: Node): (r: bool)
    ensures r <==> n.Apply? && |n.args| == 2 && n.args[1] == Ellipsis &&
                   exists m <- PostOrder(n.args[0]) :: ZeroSubscripted(m)
  {
    if n.Apply? && |n.args| == 2 && n.args[1] == Ellipsis then
      HasZeroSubscriptInPostOrder(n.args[0]);
      HasZeroSubscript(n.args[0])
    else false
  }

  // ---------------------------------------------------------------------
  // fixMinuses

  /** A `neg` produced from a subtraction (`wasMinus` set). */
  predicate IsWasMinusNeg(n: Node)
  {
    n.Apply? && n.op == "neg" && WasMinus in n.flags && |n.args| > 0
  }

  /** Index of the first `wasMinus` negation among `args`. */
  function FirstWasMinusNeg(args: seq<Node>): (r: Option<nat>)
    ensures r.Some? ==> r.value < |args| && IsWasMinusNeg(args[r.value]) &&
                        forall j :: 0 <= j < r.value ==> !IsWasMinusNeg(args[j])
    ensures r.None? ==> forall j :: 0 <= j < |args| ==> !IsWasMinusNeg(args[j])
  {
    if args == [] then None
    else if IsWasMinusNeg(args[0]) then Some(0)
    else match FirstWasMinusNeg(args[1..])
      case None => None
      case Some(k) => Some(k + 1)
  }

  /** The search loop of the product case of `fixMinuses`. */
  method FindWasMinusNeg(args: seq<Node>) returns (r: Option<nat>)
    ensures r == FirstWasMinusNeg(args)
  {
    for i := 0 to |args|
      invariant forall j :: 0 <= j < i ==> !IsWasMinusNeg(args[j])
    {
      if IsWasMinusNeg(args[i]) {
        return Some(i);
      }
    }
    return None;
  }

  function WrapWasMinus(n: Node): Node
  {
    Apply("neg", [n], {WasMinus})
  }

  /** The rewrite `fixMinuses` applies to a node whose parent is an `add`:
      `-a / b` becomes `-(a / b)`, and a product with a `wasMinus` factor
      loses the first such sign, which moves in front of the product. */
  function FixAtNode(n: Node): (r: Node)
    ensures IsDiv(n) && |n.args| > 0 && IsWasMinusNeg(n.args[0]) ==>
      r == WrapWasMinus(n.(args := n.args[0 := n.args[0].args[0]]))
    ensures IsMul(n) && FirstWasMinusNeg(n.args).Some? ==>
      var k := FirstWasMinusNeg(n.args).value;
      r == WrapWasMinus(n.(args := n.args[k := n.args[k].args[0]]))
    ensures (!(IsDiv(n) && |n.args| > 0 && IsWasMinusNeg(n.args[0])) &&
             !(IsMul(n) && FirstWasMinusNeg(n.args).Some?)) ==> r == n
  {
    if IsDiv(n) && |n.args| > 0 && IsWasMinusNeg(n.args[0]) then
      WrapWasMinus(n.(args := n.args[0 := n.args[0].args[0]]))
    else if IsMul(n) then
      match FirstWasMinusNeg(n.args)
      case Some(k) => WrapWasMinus(n.(args := n.args[k := n.args[k].args[0]]))
      case None => n
    else n
  }

  /** `fixMinuses` below a parent that is (`underAdd`) or is not an `add`:
      children first, then the node itself. */
  function FixUnder(t: Node, underAdd: bool): Node
  {
    var t' := match t
      case Apply(op, args, f) =>
        Apply(op, seq(|args|, i requires 0 <= i < |args| => FixUnder(args[i], op == "add")), f)
      case Eval(a) => Eval(FixUnder(a, false))
      case Parentheses(b) => Parentheses(FixUnder(b, false))
      case _ => t;
    if underAdd then FixAtNode(t') else t'
  }

  /** `fixMinuses`: the root has no parent, so it is never rewritten itself. */
  function FixMinuses(t: Node): (r: Node)
    ensures EraseWasMinus(r) == EraseWasMinus(t)
    ensures NoWasMinus(t) ==> r == t
  {
    FixMinusesOnlyMovesSigns(t, false);
    if NoWasMinus(t) then FixMinusesIdentity(t, false); FixUnder(t, false)
    else FixUnder(t, false)
  }

  /** `t` with every `wasMinus` negation removed. */
  function EraseWasMinus(t: Node): Node
  {
    match t
    case Apply(op, args, f) =>
      if op == "neg" && WasMinus in f && |args| > 0 then EraseWasMinus(args[0])
      else Apply(op, seq(|args|, i requires 0 <= i < |args| => EraseWasMinus(args[i])), f)
    case Eval(a) => Eval(EraseWasMinus(a))
    case Parentheses(b) => Parentheses(EraseWasMinus(b))
    case _ => t
  }

  predicate NoWasMinus(t: Node)
  {
    match t
    case Apply(op, args, f) => !(op == "neg" && WasMinus in f) && forall a <- args :: NoWasMinus(a)
    case Eval(a) => NoWasMinus(a)
    case Parentheses(b) => NoWasMinus(b)
    case _ => true
  }

  lemma EraseAtNode(n: Node)
    ensures EraseWasMinus(FixAtNode(n)) == EraseWasMinus(n)
  {
    if IsDiv(n) && |n.args| > 0 && IsWasMinusNeg(n.args[0]) {
      var m := n.(args := n.args[0 := n.args[0].args[0]]);
      assert EraseWasMinus(WrapWasMinus(m)) == EraseWasMinus(m);
      assert EraseWasMinus(m).args == EraseWasMinus(n).args;
    } else if IsMul(n) && FirstWasMinusNeg(n.args).Some? {
      var k := FirstWasMinusNeg(n.args).value;
      var m := n.(args := n.args[k := n.args[k].args[0]]);
      assert EraseWasMinus(WrapWasMinus(m)) == EraseWasMinus(m);
      assert EraseWasMinus(m).args == EraseWasMinus(n).args;
    }
  }

  /** `fixMinuses` only moves `wasMinus` signs: erasing them, the tree is
      unchanged. */
  lemma {:induction false} FixMinusesOnlyMovesSigns(t: Node, underAdd: bool)
    ensures EraseWasMinus(FixUnder(t, underAdd)) == EraseWasMinus(t)
  {
    var t' := match t
      case Apply(op, args, f) =>
        Apply(op, seq(|args|, i requires 0 <= i < |args| => FixUnder(args[i], op == "add")), f)
      case Eval(a) => Eval(FixUnder(a, false))
      case Parentheses(b) => Parentheses(FixUnder(b, false))
      case _ => t;
    match t {
      case Apply(op, args, f) =>
        forall i | 0 <= i < |args| ensures EraseWasMinus(FixUnder(args[i], op == "add")) == EraseWasMinus(args[i]) {
          FixMinusesOnlyMovesSigns(args[i], op == "add");
        }
        if op == "neg" && WasMinus in f && |args| > 0 {
          assert EraseWasMinus(t') == EraseWasMinus(t'.args[0]);
        } else {
          assert EraseWasMinus(t').args == EraseWasMinus(t).args;
        }
      case Eval(a) => FixMinusesOnlyMovesSigns(a, false);
      case Parentheses(b) => FixMinusesOnlyMovesSigns(b, false);
      case _ =>
    }
    if underAdd {
      EraseAtNode(t');
    }
  }

  /** A tree without `wasMinus` negations is left as it is. */
  lemma {:induction false} FixMinusesIdentity(t: Node, underAdd: bool)
    requires NoWasMinus(t)
    ensures FixUnder(t, underAdd) == t
  {
    match t {
      case Apply(op, args, f) =>
        forall i | 0 <= i < |args| ensures FixUnder(args[i], op == "add") == args[i] {
          FixMinusesIdentity(args[i], op == "add");
        }
        assert FixUnder(t, false).args == args;
        assert forall j :: 0 <= j < |args| ==> NoWasMinus(args[j]) && !IsWasMinusNeg(args[j]);
      case Eval(a) => FixMinusesIdentity(a, false);
      case Parentheses(b) => FixMinusesIdentity(b, false);
      case _ =>
    }
  }
}
