/** The structural matcher of lib/matcher.js: `_matchNode`,
    `_matchPlaceholder`, `_matchSubArray`, `_matchEllipsis` and `matchNode`.

    The source threads one mutable placeholder table through the recursion
    and reports success as a boolean. Here every step takes the table as a
    value and returns the verdict together with the table as it stands
    afterwards, so entries written by a comparison that later fails stay
    visible exactly where the source keeps them. */
module Matcher {
  import opened Wrappers
  import opened Nodes
  import opened Utils

  /** The placeholder table: plain bindings (`#a`), the entries of the
      subscripted families (`#a_0`, `#a_1`, ... stored under `("a", 0)`,
      `("a", 1)`, ...) and the `negatives` record of the last successful
      variable-length group in an `add`. A family exists once it has an
      entry, as the source creates a family table together with its first
      entry. */
  datatype Bindings = Bindings(
    plain: map<string, Node>,
    entries: map<(string, nat), Node>,
    negatives: map<nat, bool>)

  const NoBindings: Bindings := Bindings(map[], map[], map[])

  /** Names of the families that have at least one entry. */
  function Families(b: Bindings): set<string>
  {
    set key | key in b.entries :: key.0
  }

  /** The subscripts bound in family `name`. */
  function FamilyKeys(b: Bindings, name: string): set<nat>
  {
    set key | key in b.entries && key.0 == name :: key.1
  }

  /** Per-placeholder predicates, keyed by placeholder name. */
  type Constraints = map<string, Node -> bool>

  /** Every bound value is an expression (a copy of part of the input). */
  ghost predicate Ground(b: Bindings)
  {
    (forall n :: n in b.plain ==> IsExpression(b.plain[n])) &&
    (forall key :: key in b.entries ==> IsExpression(b.entries[key]))
  }

  /** `b2` keeps every binding of `b1`: bindings are never overwritten. */
  ghost predicate Extends(b2: Bindings, b1: Bindings)
  {
    (forall n :: n in b1.plain ==> n in b2.plain && b2.plain[n] == b1.plain[n]) &&
    (forall key :: key in b1.entries ==> key in b2.entries && b2.entries[key] == b1.entries[key])
  }

  /** Every bound value satisfies the constraint of its placeholder name. */
  ghost predicate Respects(b: Bindings, c: Constraints)
  {
    (forall n :: n in b.plain && n in c ==> c[n](b.plain[n])) &&
    (forall key :: key in b.entries && key.0 in c ==> c[key.0](b.entries[key]))
  }

  /** What survives of a per-offset copy when the offset fails: the copy is
      shallow, so the family tables that existed before it are shared and
      keep what was added to them; everything else reverts. */
  function Leak(b: Bindings, copy: Bindings): (r: Bindings)
    ensures r.plain == b.plain && r.negatives == b.negatives
    ensures forall key :: key in r.entries <==> key in copy.entries && key.0 in Families(b)
  {
    var existing := Families(b);
    b.(entries := map key | key in copy.entries && key.0 in existing :: copy.entries[key])
  }

  lemma LeakKeeps(b: Bindings, copy: Bindings, c: Constraints)
    requires Extends(copy, b) && Ground(b) && Ground(copy)
    ensures Ground(Leak(b, copy)) && Extends(Leak(b, copy), b)
    ensures Respects(b, c) && Respects(copy, c) ==> Respects(Leak(b, copy), c)
    ensures copy == b ==> Leak(b, copy) == b
  {
    var r := Leak(b, copy);
    forall key | key in b.entries ensures key.0 in Families(b) {
    }
    if copy == b {
      assert r.entries == b.entries;
    }
  }

  // ---------------------------------------------------------------------
  // Pattern shape

  /** No Ellipsis opens the argument list of an `add` or `mul` (the source
      would clone the missing template before it and throw). */
  predicate WellFormed(p: Node)
  {
    match p
    case Apply(op, args, _) =>
      ((op == "add" || op == "mul") ==> |args| == 0 || args[0] != Ellipsis) &&
      forall a <- args :: WellFormed(a)
    case Eval(a) => WellFormed(a)
    case Parentheses(b) => WellFormed(b)
    case _ => true
  }

  lemma {:induction false} ExpressionIsWellFormed(e: Node)
    requires IsExpression(e)
    ensures WellFormed(e)
  {
    match e
    case Apply(_, args, _) =>
      forall k | 0 <= k < |args| ensures WellFormed(args[k]) {
        ExpressionIsWellFormed(args[k]);
      }
      if |args| > 0 {
        assert IsExpression(args[0]);
      }
    case Parentheses(b) => ExpressionIsWellFormed(b);
    case _ =>
  }

  /** 0 for expressions (a bound value re-matched as a pattern), 1 for
      anything holding pattern syntax; the first component of the matcher's
      termination measure. */
  function Rank(p: Node): nat
  {
    if IsExpression(p) then 0 else 1
  }

  /** Two trees that differ at most in the subscripts of their placeholders. */
  predicate SameShape(s: Node, t: Node)
  {
    match s
    case Apply(op, args, f) =>
      t.Apply? && t.op == op && t.flags == f && |t.args| == |args| &&
      forall k :: 0 <= k < |args| ==> SameShape(args[k], t.args[k])
    case Eval(a) => t.Eval? && SameShape(a, t.arg)
    case Parentheses(b) => t.Parentheses? && SameShape(b, t.body)
    case Placeholder(n, sub) => t.Placeholder? && t.name == n && (sub.Some? <==> t.subscript.Some?)
    case _ => t == s
  }

  lemma {:induction false} SameShapeKeeps(s: Node, t: Node)
    requires SameShape(s, t)
    ensures Size(t) == Size(s)
    ensures IsExpression(t) <==> IsExpression(s)
    ensures WellFormed(t) <==> WellFormed(s)
  {
    match s
    case Apply(op, args, f) =>
      forall k | 0 <= k < |args|
        ensures Size(t.args[k]) == Size(args[k])
        ensures IsExpression(t.args[k]) <==> IsExpression(args[k])
        ensures WellFormed(t.args[k]) <==> WellFormed(args[k])
      {
        SameShapeKeeps(args[k], t.args[k]);
      }
      ArgsSizeSameShape(args, t.args);
      AllArgs(args, t.args);
    case Eval(a) => SameShapeKeeps(a, t.arg);
    case Parentheses(b) => SameShapeKeeps(b, t.body);
    case _ =>
  }

  lemma AllArgs(xs: seq<Node>, ys: seq<Node>)
    requires |xs| == |ys|
    requires forall k :: 0 <= k < |xs| ==> (IsExpression(ys[k]) <==> IsExpression(xs[k]))
    requires forall k :: 0 <= k < |xs| ==> (WellFormed(ys[k]) <==> WellFormed(xs[k]))
    requires forall k :: 0 <= k < |xs| ==> (xs[k] == Ellipsis <==> ys[k] == Ellipsis)
    ensures (forall a <- xs :: IsExpression(a)) <==> (forall a <- ys :: IsExpression(a))
    ensures (forall a <- xs :: WellFormed(a)) <==> (forall a <- ys :: WellFormed(a))
  {
    if (forall a <- xs :: IsExpression(a)) {
      forall a <- ys ensures IsExpression(a) {
        var k :| 0 <= k < |ys| && ys[k] == a;
        assert xs[k] in xs;
      }
    }
    if (forall a <- ys :: IsExpression(a)) {
      forall a <- xs ensures IsExpression(a) {
        var k :| 0 <= k < |xs| && xs[k] == a;
        assert ys[k] in ys;
      }
    }
    if (forall a <- xs :: WellFormed(a)) {
      forall a <- ys ensures WellFormed(a) {
        var k :| 0 <= k < |ys| && ys[k] == a;
        assert xs[k] in xs;
      }
    }
    if (forall a <- ys :: WellFormed(a)) {
      forall a <- xs ensures WellFormed(a) {
        var k :| 0 <= k < |xs| && xs[k] == a;
        assert ys[k] in ys;
      }
    }
  }

  lemma {:induction false} ArgsSizeSameShape(xs: seq<Node>, ys: seq<Node>)
    requires |xs| == |ys|
    requires forall k :: 0 <= k < |xs| ==> Size(ys[k]) == Size(xs[k])
    ensures ArgsSize(ys) == ArgsSize(xs)
  {
    if xs != [] {
      ArgsSizeSameShape(xs[1..], ys[1..]);
    }
  }

  // ---------------------------------------------------------------------
  // Renumbering the template of an ellipsis

  /** The counter a subscripted placeholder named `n` receives next:
      counters start at 1. */
  function NextSubscript(cs: map<string, nat>, n: string): nat
  {
    if n in cs then cs[n] else 1
  }

  /** The template of `_matchEllipsis` after its post-order `leave` pass:
      each subscripted placeholder gets its name's next counter value. */
  function Renumber(t: Node, cs: map<string, nat>): (r: (Node, map<string, nat>))
    ensures SameShape(t, r.0)
  {
    match t
    case Placeholder(n, Some(_)) =>
      var v := NextSubscript(cs, n);
      (Placeholder(n, Some(v)), cs[n := v + 1])
    case Apply(op, args, f) =>
      var (args', cs') := RenumberArgs(args, cs);
      (Apply(op, args', f), cs')
    case Eval(a) =>
      var (a', cs') := Renumber(a, cs);
      (Eval(a'), cs')
    case Parentheses(b) =>
      var (b', cs') := Renumber(b, cs);
      (Parentheses(b'), cs')
    case _ => (t, cs)
  }

  function RenumberArgs(args: seq<Node>, cs: map<string, nat>): (r: (seq<Node>, map<string, nat>))
    ensures |r.0| == |args|
    ensures forall k :: 0 <= k < |args| ==> SameShape(args[k], r.0[k])
  {
    if args == [] then ([], cs)
    else
      var (a, cs1) := Renumber(args[0], cs);
      var (rest, cs2) := RenumberArgs(args[1..], cs1);
      ([a] + rest, cs2)
  }

  /** The renumbered template of a group: same size, same kind, same
      well-formedness as the template. */
  lemma RenumberKeeps(t: Node, cs: map<string, nat>)
    ensures Size(Renumber(t, cs).0) == Size(t)
    ensures IsExpression(Renumber(t, cs).0) <==> IsExpression(t)
    ensures WellFormed(Renumber(t, cs).0) <==> WellFormed(t)
  {
    SameShapeKeeps(t, Renumber(t, cs).0);
  }

  // ---------------------------------------------------------------------
  // The matcher

  /** Verdict and table after `_matchNode`; `idx` is the `indexes` record
      the call filled in (a span only for an add/add or mul/mul pair). */
  datatype Outcome = Outcome(ok: bool, b: Bindings, idx: Indexes)

  /** After matching pattern arguments from some position: verdict, table,
      the `negatives` record of the current offset, next input index. */
  datatype ArgsOutcome = ArgsOutcome(ok: bool, b: Bindings, negs: map<nat, bool>, j: nat)

  /** After an ellipsis: how many input arguments it consumed. */
  datatype EllipsisOutcome = EllipsisOutcome(count: nat, b: Bindings, negs: map<nat, bool>)

  lemma ChildRank(p: Node, k: nat)
    requires p.Apply? && k < |p.args|
    ensures Size(p.args[k]) < Size(p) && Rank(p.args[k]) <= Rank(p)
    ensures WellFormed(p) ==> WellFormed(p.args[k])
    ensures IsExpression(p) ==> IsExpression(p.args[k])
  {
    ArgSizeBound(p.args, k);
    assert p.args[k] in p.args;
  }

  /** Names of the placeholders without a subscript anywhere in `t`. */
  function PlainNames(t: Node): set<string>
  {
    match t
    case Placeholder(n, None) => {n}
    case Apply(_, args, _) => PlainNamesOf(args)
    case Eval(a) => PlainNames(a)
    case Parentheses(x) => PlainNames(x)
    case _ => {}
  }

  function PlainNamesOf(args: seq<Node>): set<string>
  {
    if args == [] then {} else PlainNames(args[0]) + PlainNamesOf(args[1..])
  }

  lemma PlainNamesFrom(args: seq<Node>, k: nat)
    requires k < |args|
    ensures PlainNamesOf(args[k..]) == PlainNames(args[k]) + PlainNamesOf(args[k + 1..])
  {
    assert args[k..][1..] == args[k + 1..];
  }

  /** `_matchNode(pattern, input, context, indexes)`. */
  function MatchNodeAt(p: Node, i: Node, c: Constraints, b: Bindings): (r: Outcome)
    requires IsExpression(i) && WellFormed(p) && Ground(b)
    ensures Ground(r.b) && Extends(r.b, b)
    ensures Respects(b, c) ==> Respects(r.b, c)
    ensures IsExpression(p) ==> r.b == b
    ensures r.ok && r.idx.Span? ==> i.Apply? && r.idx.start <= r.idx.end <= |i.args|
    ensures r.ok ==> PlainNames(p) <= r.b.plain.Keys
    decreases Rank(p), Size(p), 3, 0
  {
    match p
    case Placeholder(_, _) => MatchPlaceholder(p, i, c, b)
    case Number(v) => Outcome(i.Number? && i.value == v, b, EmptyIndexes)
    case Identifier(n) => Outcome(i.Identifier? && i.name == n, b, EmptyIndexes)
    case Parentheses(pb) =>
      if i.Parentheses? then
        var r := MatchNodeAt(pb, i.body, c, b);
        Outcome(r.ok, r.b, EmptyIndexes)
      else Outcome(false, b, EmptyIndexes)
    case Apply(op, pargs, pflags) =>
      if !i.Apply? || |pflags - {Implicit}| != |i.flags - {Implicit}| || op != i.op then
        Outcome(false, b, EmptyIndexes)
      else if op == "add" || op == "mul" then
        var r := SubArray(p, i, c, b, 0);
        Outcome(r.ok && pflags - {Implicit} <= i.flags, r.b, r.idx)
      else if |pargs| != |i.args| then
        Outcome(false, b, EmptyIndexes)
      else
        var r := Pairwise(p, i, c, b, 0);
        assert pargs[0..] == pargs;
        Outcome(r.ok && pflags - {Implicit} <= i.flags, r.b, EmptyIndexes)
    case _ => Outcome(false, b, EmptyIndexes)
  }

  /** `_matchPlaceholder`: the constraint is checked at every occurrence; a
      name (or family entry) already bound must re-match its value, an
      unbound one is bound to the input. */
  function MatchPlaceholder(p: Node, i: Node, c: Constraints, b: Bindings): (r: Outcome)
    requires p.Placeholder?
    requires IsExpression(i) && Ground(b)
    ensures Ground(r.b) && Extends(r.b, b)
    ensures Respects(b, c) ==> Respects(r.b, c)
    ensures r.idx == EmptyIndexes
    ensures r.ok ==> PlainNames(p) <= r.b.plain.Keys
    ensures p.name in c && !c[p.name](i) ==> !r.ok && r.b == b
    decreases Rank(p), Size(p), 2, 0
  {
    if p.name in c && !c[p.name](i) then Outcome(false, b, EmptyIndexes)
    else match p.subscript
      case Some(sub) =>
        var k: nat := sub;
        if (p.name, k) in b.entries then
          var v := b.entries[(p.name, k)];
          ExpressionIsWellFormed(v);
          var r := MatchNodeAt(v, i, c, b);
          Outcome(r.ok, r.b, EmptyIndexes)
        else
          Outcome(true, b.(entries := b.entries[(p.name, k) := i]), EmptyIndexes)
      case None =>
        if p.name in b.plain then
          var v := b.plain[p.name];
          ExpressionIsWellFormed(v);
          var r := MatchNodeAt(v, i, c, b);
          Outcome(r.ok, r.b, EmptyIndexes)
        else
          Outcome(true, b.(plain := b.plain[p.name := i]), EmptyIndexes)
  }

  /** `_matchSubArray` from offset `off`: the first offset at which every
      pattern argument matches wins; a failed offset leaks into the shared
      family tables only. */
  function SubArray(p: Node, i: Node, c: Constraints, b: Bindings, off: nat): (r: Outcome)
    requires p.Apply? && (p.op == "add" || p.op == "mul") && i.Apply?
    requires IsExpression(i) && WellFormed(p) && Ground(b)
    ensures Ground(r.b) && Extends(r.b, b)
    ensures Respects(b, c) ==> Respects(r.b, c)
    ensures IsExpression(p) ==> r.b == b
    ensures r.ok ==> r.idx.Span? && off <= r.idx.start <= r.idx.end <= |i.args| &&
                     r.idx.end - r.idx.start >= |p.args|
    ensures !r.ok ==> r.idx == EmptyIndexes
    ensures r.ok ==> PlainNames(p) <= r.b.plain.Keys
    decreases Rank(p), Size(p), 2, |i.args| + 1 - off
  {
    if off + |p.args| > |i.args| then Outcome(false, b, EmptyIndexes)
    else
      var r := ArgsFrom(p, i, c, b, map[], 0, off);
      assert p.args[0..] == p.args;
      if r.ok then
        Outcome(true, if |r.negs| > 0 then r.b.(negatives := r.negs) else r.b, Span(off, r.j))
      else
        LeakKeeps(b, r.b, c);
        SubArray(p, i, c, Leak(b, r.b), off + 1)
  }

  /** The `every` over pattern arguments inside one offset of
      `_matchSubArray`, from pattern argument `k` and input argument `j`. */
  function ArgsFrom(p: Node, i: Node, c: Constraints, b: Bindings, negs: map<nat, bool>, k: nat, j: nat): (r: ArgsOutcome)
    requires p.Apply? && (p.op == "add" || p.op == "mul") && i.Apply?
    requires IsExpression(i) && WellFormed(p) && Ground(b)
    requires k <= |p.args| && j <= |i.args|
    ensures Ground(r.b) && Extends(r.b, b)
    ensures Respects(b, c) ==> Respects(r.b, c)
    ensures IsExpression(p) ==> r.b == b && r.negs == negs
    ensures r.ok ==> j + |p.args| - k <= r.j <= |i.args|
    ensures r.ok ==> PlainNamesOf(p.args[k..]) <= r.b.plain.Keys
    decreases Rank(p), Size(p), 1, |p.args| - k, 1
  {
    if k == |p.args| then ArgsOutcome(true, b, negs, j)
    else if j >= |i.args| then ArgsOutcome(false, b, negs, j)
    else if p.args[k] == Ellipsis then ArgsEllipsis(p, i, c, b, negs, k, j)
    else ArgsNode(p, i, c, b, negs, k, j)
  }

  /** One step of the `every`: the pattern argument is an Ellipsis, which
      must consume at least one input argument. */
  function ArgsEllipsis(p: Node, i: Node, c: Constraints, b: Bindings, negs: map<nat, bool>, k: nat, j: nat): (r: ArgsOutcome)
    requires p.Apply? && (p.op == "add" || p.op == "mul") && i.Apply?
    requires IsExpression(i) && WellFormed(p) && Ground(b)
    requires k < |p.args| && j < |i.args| && p.args[k] == Ellipsis
    ensures Ground(r.b) && Extends(r.b, b)
    ensures Respects(b, c) ==> Respects(r.b, c)
    ensures !IsExpression(p)
    ensures r.ok ==> j + |p.args| - k <= r.j <= |i.args|
    ensures r.ok ==> PlainNamesOf(p.args[k..]) <= r.b.plain.Keys
    decreases Rank(p), Size(p), 1, |p.args| - k, 0
  {
    assert p.args[k] in p.args;
    PlainNamesFrom(p.args, k);
    var e := EllipsisFrom(p, k, i, c, b, negs, map[], j, 0);
    if e.count > 0 then ArgsFrom(p, i, c, e.b, e.negs, k + 1, j + e.count)
    else ArgsOutcome(false, e.b, e.negs, j)
  }

  /** One step of the `every`: an ordinary pattern argument against the
      next input argument. */
  function ArgsNode(p: Node, i: Node, c: Constraints, b: Bindings, negs: map<nat, bool>, k: nat, j: nat): (r: ArgsOutcome)
    requires p.Apply? && (p.op == "add" || p.op == "mul") && i.Apply?
    requires IsExpression(i) && WellFormed(p) && Ground(b)
    requires k < |p.args| && j < |i.args| && p.args[k] != Ellipsis
    ensures Ground(r.b) && Extends(r.b, b)
    ensures Respects(b, c) ==> Respects(r.b, c)
    ensures IsExpression(p) ==> r.b == b && r.negs == negs
    ensures r.ok ==> j + |p.args| - k <= r.j <= |i.args|
    ensures r.ok ==> PlainNamesOf(p.args[k..]) <= r.b.plain.Keys
    decreases Rank(p), Size(p), 1, |p.args| - k, 0
  {
    ChildRank(p, k);
    ChildRank(i, j);
    PlainNamesFrom(p.args, k);
    var r := MatchNodeAt(p.args[k], i.args[j], c, b);
    if r.ok then ArgsFrom(p, i, c, r.b, negs, k + 1, j + 1)
    else ArgsOutcome(false, r.b, negs, j + 1)
  }

  /** `_matchEllipsis` from input argument `idx`, with `count` arguments
      consumed so far: the template `p.args[k - 1]`, renumbered afresh for
      each input argument, is matched until the first failure. In an `add`
      a `neg` argument is unwrapped first and its sign recorded. */
  function EllipsisFrom(p: Node, k: nat, i: Node, c: Constraints, b: Bindings, negs: map<nat, bool>,
                        cs: map<string, nat>, idx: nat, count: nat): (r: EllipsisOutcome)
    requires p.Apply? && 0 < k < |p.args| && i.Apply?
    requires IsExpression(i) && WellFormed(p) && Ground(b)
    requires idx <= |i.args|
    ensures Ground(r.b) && Extends(r.b, b)
    ensures Respects(b, c) ==> Respects(r.b, c)
    ensures count <= r.count <= count + |i.args| - idx
    decreases Rank(p), Size(p), 0, |i.args| - idx
  {
    if idx >= |i.args| then EllipsisOutcome(count, b, negs)
    else
      var (arg', negs') := EllipsisArg(p, i, negs, idx);
      var (tmpl, cs') := Renumber(p.args[k - 1], cs);
      ChildRank(p, k - 1);
      RenumberKeeps(p.args[k - 1], cs);
      var r := MatchNodeAt(tmpl, arg', c, b);
      if r.ok then EllipsisFrom(p, k, i, c, r.b, negs', cs', idx + 1, count + 1)
      else EllipsisOutcome(count, r.b, negs')
  }

  /** Argument-by-argument comparison of two argument lists of equal length
      (the array case of `_matchNode` for operators other than add/mul). */
  function Pairwise(p: Node, i: Node, c: Constraints, b: Bindings, k: nat): (r: Outcome)
    requires p.Apply? && i.Apply? && |p.args| == |i.args| && k <= |p.args|
    requires IsExpression(i) && WellFormed(p) && Ground(b)
    ensures Ground(r.b) && Extends(r.b, b)
    ensures Respects(b, c) ==> Respects(r.b, c)
    ensures IsExpression(p) ==> r.b == b
    ensures r.idx == EmptyIndexes
    ensures r.ok ==> PlainNamesOf(p.args[k..]) <= r.b.plain.Keys
    decreases Rank(p), Size(p), 1, |p.args| - k
  {
    if k == |p.args| then Outcome(true, b, EmptyIndexes)
    else
      ChildRank(p, k);
      ChildRank(i, k);
      PlainNamesFrom(p.args, k);
      var r := MatchNodeAt(p.args[k], i.args[k], c, b);
      if r.ok then Pairwise(p, i, c, r.b, k + 1)
      else Outcome(false, r.b, EmptyIndexes)
  }

  /** `matchNode`: the table and indexes of a successful match, else null. */
  function MatchNode(p: Node, i: Node, c: Constraints): (r: Option<(Bindings, Indexes)>)
    requires IsExpression(i) && WellFormed(p)
    ensures r.Some? ==> Ground(r.value.0) && Respects(r.value.0, c)
    ensures r.Some? ==> PlainNames(p) <= r.value.0.plain.Keys
    ensures r.Some? && r.value.1.Span? ==> i.Apply? && r.value.1.start <= r.value.1.end <= |i.args|
  {
    var r := MatchNodeAt(p, i, c, NoBindings);
    if r.ok then Some((r.b, r.idx)) else None
  }

  // ---------------------------------------------------------------------
  // The loops of `_matchEllipsis` and `_matchSubArray`

  /** The input argument the ellipsis compares at `idx`, and the
      `negatives` record after looking at it. */
  function EllipsisArg(p: Node, i: Node, negs: map<nat, bool>, idx: nat): (r: (Node, map<nat, bool>))
    requires p.Apply? && i.Apply? && IsExpression(i) && idx < |i.args|
    ensures IsExpression(r.0)
  {
    var arg := i.args[idx];
    assert arg in i.args && IsExpression(arg);
    if p.op == "add" && IsNeg(arg) then
      assert arg.args[0] in arg.args;
      (arg.args[0], negs[idx := WasMinus in arg.flags])
    else (arg, negs)
  }

  lemma EllipsisStep(p: Node, k: nat, i: Node, c: Constraints, b: Bindings, negs: map<nat, bool>,
                     cs: map<string, nat>, idx: nat, count: nat)
    requires p.Apply? && 0 < k < |p.args| && i.Apply?
    requires IsExpression(i) && WellFormed(p) && Ground(b)
    requires idx < |i.args|
    ensures var (arg, negs') := EllipsisArg(p, i, negs, idx);
            var (tmpl, cs') := Renumber(p.args[k - 1], cs);
            WellFormed(tmpl) &&
            var r := MatchNodeAt(tmpl, arg, c, b);
            EllipsisFrom(p, k, i, c, b, negs, cs, idx, count) ==
              if r.ok then EllipsisFrom(p, k, i, c, r.b, negs', cs', idx + 1, count + 1)
              else EllipsisOutcome(count, r.b, negs')
  {
    ChildRank(p, k - 1);
    RenumberKeeps(p.args[k - 1], cs);
  }

  /** The `for` loop of `_matchEllipsis`, starting at input argument `j`
      with fresh subscript counters. */
  method MatchEllipsis(p: Node, k: nat, i: Node, c: Constraints, b: Bindings, negs: map<nat, bool>, j: nat)
    returns (e: EllipsisOutcome)
    requires p.Apply? && 0 < k < |p.args| && i.Apply?
    requires IsExpression(i) && WellFormed(p) && Ground(b)
    requires j <= |i.args|
    ensures e == EllipsisFrom(p, k, i, c, b, negs, map[], j, 0)
  {
    var counters: map<string, nat> := map[];
    var placeholders := b;
    var negatives: map<nat, bool> := negs;
    var count: nat := 0;
    var idx: nat := j;
    while idx < |i.args|
      invariant j <= idx <= |i.args| && Ground(placeholders)
      invariant EllipsisFrom(p, k, i, c, b, negs, map[], j, 0) ==
                EllipsisFrom(p, k, i, c, placeholders, negatives, counters, idx, count)
      decreases |i.args| - idx
    {
      EllipsisStep(p, k, i, c, placeholders, negatives, counters, idx, count);
      var (arg, negatives') := EllipsisArg(p, i, negatives, idx);
      negatives := negatives';
      var (template, next) := Renumber(p.args[k - 1], counters);
      counters := next;
      var r := MatchNodeAt(template, arg, c, placeholders);
      placeholders := r.b;
      if !r.ok {
        return EllipsisOutcome(count, placeholders, negatives);
      }
      count, idx := count + 1, idx + 1;
    }
    return EllipsisOutcome(count, placeholders, negatives);
  }

  /** The offset loop of `_matchSubArray`: offsets `0 .. |input| - |pattern|`
      in increasing order; success commits the copy and records the range. */
  method MatchSubArray(p: Node, i: Node, c: Constraints, b: Bindings) returns (r: Outcome)
    requires p.Apply? && (p.op == "add" || p.op == "mul") && i.Apply?
    requires IsExpression(i) && WellFormed(p) && Ground(b)
    ensures r == SubArray(p, i, c, b, 0)
  {
    var placeholders := b;
    var off := 0;
    while off + |p.args| <= |i.args|
      invariant Ground(placeholders)
      invariant SubArray(p, i, c, b, 0) == SubArray(p, i, c, placeholders, off)
      decreases |i.args| - off
    {
      var attempt := ArgsFrom(p, i, c, placeholders, map[], 0, off);
      if attempt.ok {
        var committed := attempt.b;
        if |attempt.negs| > 0 {
          committed := committed.(negatives := attempt.negs);
        }
        return Outcome(true, committed, Span(off, attempt.j));
      }
      placeholders := Leak(placeholders, attempt.b);
      off := off + 1;
    }
    return Outcome(false, placeholders, EmptyIndexes);
  }
}
