/** One-step unfoldings of the matcher, used to compute concrete matches. */
module MatcherFacts {
  import opened Wrappers
  import opened Nodes
  import opened Utils
  import opened Matcher

  /** An unbound, unsubscripted placeholder whose constraint (if any)
      accepts the input binds it. */
  lemma MatchFreshPlaceholder(name: string, v: Node, c: Constraints, b: Bindings)
    requires IsExpression(v) && Ground(b) && name !in b.plain
    requires name in c ==> c[name](v)
    ensures MatchNodeAt(Placeholder(name, None), v, c, b) ==
            Outcome(true, b.(plain := b.plain[name := v]), EmptyIndexes)
  {
  }

  /** An unbound entry of a family whose constraint (if any) accepts the
      input binds it. */
  lemma MatchFreshEntry(name: string, k: nat, v: Node, c: Constraints, b: Bindings)
    requires IsExpression(v) && Ground(b) && (name, k) !in b.entries
    requires name in c ==> c[name](v)
    ensures MatchNodeAt(Placeholder(name, Some(k)), v, c, b) ==
            Outcome(true, b.(entries := b.entries[(name, k) := v]), EmptyIndexes)
  {
  }

  /** A pattern argument that is not an ellipsis is matched against the
      next input argument, and the `every` goes on only if it matched. */
  lemma ArgsFromNodeStep(p: Node, i: Node, c: Constraints, b: Bindings, negs: map<nat, bool>, k: nat, j: nat)
    requires p.Apply? && (p.op == "add" || p.op == "mul") && i.Apply?
    requires IsExpression(i) && WellFormed(p) && Ground(b)
    requires k < |p.args| && j < |i.args| && p.args[k] != Ellipsis
    ensures IsExpression(i.args[j]) && WellFormed(p.args[k])
    ensures var r := MatchNodeAt(p.args[k], i.args[j], c, b);
      ArgsFrom(p, i, c, b, negs, k, j) ==
        if r.ok then ArgsFrom(p, i, c, r.b, negs, k + 1, j + 1) else ArgsOutcome(false, r.b, negs, j + 1)
  {
    ChildRank(p, k);
    ChildRank(i, j);
  }

  /** An offset at which the `every` succeeds ends the search. */
  lemma SubArrayHit(p: Node, i: Node, c: Constraints, b: Bindings, off: nat)
    requires p.Apply? && (p.op == "add" || p.op == "mul") && i.Apply?
    requires IsExpression(i) && WellFormed(p) && Ground(b)
    requires off + |p.args| <= |i.args| && ArgsFrom(p, i, c, b, map[], 0, off).ok
    ensures var r := ArgsFrom(p, i, c, b, map[], 0, off);
      SubArray(p, i, c, b, off) ==
        Outcome(true, if |r.negs| > 0 then r.b.(negatives := r.negs) else r.b, Span(off, r.j))
  {
  }

  /** An offset at which the `every` fails moves on to the next one with
      what leaks from the failed attempt. */
  lemma SubArrayMiss(p: Node, i: Node, c: Constraints, b: Bindings, off: nat)
    requires p.Apply? && (p.op == "add" || p.op == "mul") && i.Apply?
    requires IsExpression(i) && WellFormed(p) && Ground(b)
    requires off + |p.args| <= |i.args| && !ArgsFrom(p, i, c, b, map[], 0, off).ok
    ensures Ground(Leak(b, ArgsFrom(p, i, c, b, map[], 0, off).b))
    ensures SubArray(p, i, c, b, off) == SubArray(p, i, c, Leak(b, ArgsFrom(p, i, c, b, map[], 0, off).b), off + 1)
  {
    LeakKeeps(b, ArgsFrom(p, i, c, b, map[], 0, off).b, c);
  }

  /** An add/add or mul/mul pair with equal operators and matching flags
      is decided by the sub-array search. */
  lemma MatchChain(p: Node, i: Node, c: Constraints, b: Bindings)
    requires p.Apply? && (p.op == "add" || p.op == "mul") && i.Apply? && i.op == p.op
    requires IsExpression(i) && WellFormed(p) && Ground(b)
    requires |p.flags - {Implicit}| == |i.flags - {Implicit}| && p.flags - {Implicit} <= i.flags
    ensures MatchNodeAt(p, i, c, b) == SubArray(p, i, c, b, 0)
  {
  }
}
