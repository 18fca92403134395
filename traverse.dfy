/** The tree walks the engine borrows from math-traverse (`traverse` and
    `replace`), re-expressed over the Node datatype: children, positions
    (paths), post-order listing, and rebuilding a tree with one position
    replaced. A path is the sequence of child indexes from the root; the
    position of a node stands in for the object identity (`node ===
    matchedNode`) the source uses. */
module Traverse {
  import opened Nodes

  type Path = seq<nat>

  /** The child nodes a traversal visits, left to right. */
  function Children(n: Node): (r: seq<Node>)
    ensures forall k :: 0 <= k < |r| ==> Size(r[k]) < Size(n)
  {
    match n
    case Apply(_, args, _) => ArgsSmaller(args); args
    case Eval(a) => [a]
    case Parentheses(b) => [b]
    case _ => []
  }

  /** `n` with its child `k` replaced by `c`. */
  function WithChild(n: Node, k: nat, c: Node): (r: Node)
    requires k < |Children(n)|
    ensures Children(r) == Children(n)[k := c]
  {
    match n
    case Apply(op, args, f) => Apply(op, args[k := c], f)
    case Eval(_) => Eval(c)
    case Parentheses(_) => Parentheses(c)
  }

  lemma ChildSize(n: Node, k: nat)
    requires k < |Children(n)|
    ensures Size(Children(n)[k]) < Size(n)
  {
    if n.Apply? {
      ArgSizeBound(n.args, k);
    }
  }

  predicate ValidPath(t: Node, p: Path)
    decreases |p|
  {
    p == [] || (p[0] < |Children(t)| && ValidPath(Children(t)[p[0]], p[1..]))
  }

  /** The node at position `p`. */
  function At(t: Node, p: Path): Node
    requires ValidPath(t, p)
    decreases |p|
  {
    if p == [] then t else At(Children(t)[p[0]], p[1..])
  }

  /** `t` rebuilt with the node at position `p` replaced by `x`; afterwards
      position `p` holds `x`. */
  function ReplaceAt(t: Node, p: Path, x: Node): (r: Node)
    requires ValidPath(t, p)
    ensures ValidPath(r, p) && At(r, p) == x
    decreases |p|
  {
    if p == [] then x
    else WithChild(t, p[0], ReplaceAt(Children(t)[p[0]], p[1..], x))
  }

  predicate IsPrefix(p: Path, q: Path)
  {
    |p| <= |q| && q[..|p|] == p
  }

  /** Every position that is neither above nor below `p` is untouched: one
      replacement rewrites exactly one location. */
  lemma {:induction false} ReplaceAtElsewhere(t: Node, p: Path, x: Node, q: Path)
    requires ValidPath(t, p) && ValidPath(t, q)
    requires !IsPrefix(p, q) && !IsPrefix(q, p)
    ensures ValidPath(ReplaceAt(t, p, x), q)
    ensures At(ReplaceAt(t, p, x), q) == At(t, q)
    decreases |p|
  {
    assert p != [] && q != [];
    var r := ReplaceAt(t, p, x);
    if p[0] == q[0] {
      ReplaceAtElsewhere(Children(t)[p[0]], p[1..], x, q[1..]);
    }
  }

  /** Walking `p` and then `q` is walking `p + q`. */
  lemma {:induction false} AtAppend(t: Node, p: Path, q: Path)
    requires ValidPath(t, p)
    ensures ValidPath(t, p + q) <==> ValidPath(At(t, p), q)
    ensures ValidPath(t, p + q) ==> At(t, p + q) == At(At(t, p), q)
    decreases |p|
  {
    if p != [] {
      assert (p + q)[0] == p[0] && (p + q)[1..] == p[1..] + q;
      AtAppend(Children(t)[p[0]], p[1..], q);
    } else {
      assert p + q == q;
    }
  }

  /** All nodes of `t`, children before their parent (the visiting order of a
      `leave` callback). */
  function PostOrder(t: Node): seq<Node>
  {
    match t
    case Apply(_, args, _) => ArgsPostOrder(args) + [t]
    case Eval(a) => PostOrder(a) + [t]
    case Parentheses(b) => PostOrder(b) + [t]
    case _ => [t]
  }

  function ArgsPostOrder(args: seq<Node>): seq<Node>
  {
    if args == [] then [] else PostOrder(args[0]) + ArgsPostOrder(args[1..])
  }
}
