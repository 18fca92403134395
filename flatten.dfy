/** lib/flatten-operands.js: after a post-order walk no `add` has an `add`
    argument and no `mul` a `mul` argument; operand order is kept. */
module Flatten {
  import opened Nodes

  /** What one argument contributes to an `op` node after flattening: its
      own arguments when it is an `op` node itself, else itself. */
  function Spread(op: string, a: Node): seq<Node>
  {
    if a.Apply? && a.op == op then a.args else [a]
  }

  /** One level of flattening of the arguments of an `op` node. */
  function FlattenArgs(op: string, args: seq<Node>): seq<Node>
  {
    if args == [] then [] else Spread(op, args[0]) + FlattenArgs(op, args[1..])
  }

  function IsChain(op: string): bool
  {
    op == "add" || op == "mul"
  }

  /** The tree after the walk: children first, then the node's own level. */
  function Flatten(t: Node): (r: Node)
    ensures t.Apply? <==> r.Apply?
    ensures t.Apply? ==> r.op == t.op && r.flags == t.flags
    ensures !t.Apply? ==> t.Number? == r.Number? && t.Identifier? == r.Identifier? &&
                          t.Eval? == r.Eval? && t.Parentheses? == r.Parentheses?
  {
    match t
    case Apply(op, args, f) =>
      if IsChain(op) then Apply(op, FlattenArgs(op, FlattenEach(args)), f)
      else Apply(op, FlattenEach(args), f)
    case Eval(a) => Eval(Flatten(a))
    case Parentheses(b) => Parentheses(Flatten(b))
    case _ => t
  }

  function FlattenEach(args: seq<Node>): (r: seq<Node>)
    ensures |r| == |args|
    ensures forall k :: 0 <= k < |args| ==> r[k] == Flatten(args[k])
  {
    if args == [] then [] else [Flatten(args[0])] + FlattenEach(args[1..])
  }

  /** No `add` directly under an `add` and no `mul` directly under a `mul`,
      anywhere in the tree. */
  predicate IsFlat(t: Node)
  {
    match t
    case Apply(op, args, _) =>
      (IsChain(op) ==> forall a <- args :: !(a.Apply? && a.op == op)) &&
      forall a <- args :: IsFlat(a)
    case Eval(a) => IsFlat(a)
    case Parentheses(b) => IsFlat(b)
    case _ => true
  }

  lemma {:induction false} FlattenArgsAppend(op: string, xs: seq<Node>, ys: seq<Node>)
    ensures FlattenArgs(op, xs + ys) == FlattenArgs(op, xs) + FlattenArgs(op, ys)
  {
    if xs != [] {
      assert (xs + ys)[1..] == xs[1..] + ys;
      FlattenArgsAppend(op, xs[1..], ys);
    } else {
      assert xs + ys == ys;
    }
  }

  /** The in-place loop of the source on one node's arguments: an `op`
      argument at `i` is spliced out and replaced by its own arguments, and
      `i` skips past them. */
  method FlattenLevel(op: string, args: seq<Node>) returns (r: seq<Node>)
    ensures r == FlattenArgs(op, args)
  {
    r := args;
    var i := 0;
    ghost var k := 0;
    while i < |r|
      invariant k <= |args| && i <= |r|
      invariant r[..i] == FlattenArgs(op, args[..k]) && r[i..] == args[k..]
      decreases |r| - i
    {
      var arg := r[i];
      assert arg == args[k];
      FlattenArgsAppend(op, args[..k], [arg]);
      assert args[..k + 1] == args[..k] + [arg];
      if arg.Apply? && arg.op == op {
        r := r[..i] + arg.args + r[i + 1..];
        i := i + |arg.args|;
      } else {
        i := i + 1;
      }
      k := k + 1;
      assert r[..i] == FlattenArgs(op, args[..k]);
    }
    assert args[..k] == args;
  }

  /** `flattenOperands`: the post-order walk, each node's arguments
      flattened before the node itself. */
  method FlattenOperands(t: Node) returns (r: Node)
    ensures r == Flatten(t)
    decreases t
  {
    match t {
      case Apply(op, args, f) =>
        var done: seq<Node> := [];
        for k := 0 to |args|
          invariant done == FlattenEach(args[..k])
        {
          var a := FlattenOperands(args[k]);
          FlattenEachAppend(args[..k], [args[k]]);
          assert args[..k + 1] == args[..k] + [args[k]];
          done := done + [a];
        }
        assert args[..|args|] == args;
        if IsChain(op) {
          done := FlattenLevel(op, done);
        }
        r := Apply(op, done, f);
      case Eval(a) =>
        var a' := FlattenOperands(a);
        r := Eval(a');
      case Parentheses(b) =>
        var b' := FlattenOperands(b);
        r := Parentheses(b');
      case _ =>
        r := t;
    }
  }

  lemma FlattenEachAppend(xs: seq<Node>, ys: seq<Node>)
    ensures FlattenEach(xs + ys) == FlattenEach(xs) + FlattenEach(ys)
  {
  }

  /** Every node of a flattened tree is flat. */
  lemma {:induction false} FlattenIsFlat(t: Node)
    ensures IsFlat(Flatten(t))
  {
    match t
    case Apply(op, args, f) =>
      forall a <- args ensures IsFlat(Flatten(a)) {
        FlattenIsFlat(a);
      }
      if IsChain(op) {
        FlatLevel(op, FlattenEach(args));
      }
    case Eval(a) => FlattenIsFlat(a);
    case Parentheses(b) => FlattenIsFlat(b);
    case _ =>
  }

  /** One level of flattening over flat arguments leaves flat arguments of
      a different kind. */
  lemma {:induction false} FlatLevel(op: string, xs: seq<Node>)
    requires IsChain(op) && forall x <- xs :: IsFlat(x)
    ensures forall y <- FlattenArgs(op, xs) :: IsFlat(y) && !(y.Apply? && y.op == op)
  {
    if xs != [] {
      FlatLevel(op, xs[1..]);
      var x := xs[0];
      assert IsFlat(x);
      forall y <- Spread(op, x) ensures IsFlat(y) && !(y.Apply? && y.op == op) {
        if x.Apply? && x.op == op {
          assert y in x.args;
        } else {
          assert y == x;
        }
      }
    }
  }

  /** A flat tree is left as it is. */
  lemma {:induction false} FlatUnchanged(t: Node)
    requires IsFlat(t)
    ensures Flatten(t) == t
  {
    match t
    case Apply(op, args, f) =>
      forall k | 0 <= k < |args| ensures Flatten(args[k]) == args[k] {
        FlatUnchanged(args[k]);
      }
      assert FlattenEach(args) == args;
      if IsChain(op) {
        FlatLevelUnchanged(op, args);
      }
    case Eval(a) => FlatUnchanged(a);
    case Parentheses(b) => FlatUnchanged(b);
    case _ =>
  }

  lemma {:induction false} FlatLevelUnchanged(op: string, xs: seq<Node>)
    requires forall x <- xs :: !(x.Apply? && x.op == op)
    ensures FlattenArgs(op, xs) == xs
  {
    if xs != [] {
      FlatLevelUnchanged(op, xs[1..]);
      assert [xs[0]] + xs[1..] == xs;
    }
  }

  /** Flattening twice is flattening once. */
  lemma FlattenIdempotent(t: Node)
    ensures Flatten(Flatten(t)) == Flatten(t)
  {
    FlattenIsFlat(t);
    FlatUnchanged(Flatten(t));
  }

  /** The maximal subtrees under a chain of `op` nodes, left to right. */
  function Terms(op: string, t: Node): seq<Node>
  {
    if t.Apply? && t.op == op then TermsArgs(op, t.args) else [t]
  }

  function TermsArgs(op: string, args: seq<Node>): seq<Node>
  {
    if args == [] then [] else Terms(op, args[0]) + TermsArgs(op, args[1..])
  }

  /** Operand order is kept: a flattened `add` (or `mul`) has as arguments
      the flattened operands of its whole `add` (`mul`) chain, left to
      right. */
  lemma {:induction false} FlattenKeepsOrder(op: string, args: seq<Node>, f: set<Flag>)
    requires IsChain(op)
    ensures Flatten(Apply(op, args, f)) == Apply(op, FlattenEach(TermsArgs(op, args)), f)
  {
    LevelOrder(op, args);
  }

  lemma {:induction false} LevelOrder(op: string, args: seq<Node>)
    requires IsChain(op)
    ensures FlattenArgs(op, FlattenEach(args)) == FlattenEach(TermsArgs(op, args))
  {
    if args != [] {
      var a := args[0];
      LevelOrder(op, args[1..]);
      assert FlattenEach(args)[1..] == FlattenEach(args[1..]);
      if a.Apply? && a.op == op {
        LevelOrder(op, a.args);
      }
      FlattenEachAppend(Terms(op, a), TermsArgs(op, args[1..]));
    }
  }
}
