/** The expression tree shared by inputs and patterns (the node shapes of
    math-parser, as constructed by lib/nodes.js), and the node predicates of
    lib/nodes.js. Number literals are integers; source locations are not
    modelled. */
module Nodes {
  import opened Wrappers

  /** Boolean annotation keys that an `Apply` node may carry with the value
      `true`. `Implicit` marks juxtaposition (`2 x`); `WasMinus` marks a `neg`
      that was written as a subtraction; `WasExpanded` marks a variable-length
      group that has already been expanded. */
  datatype Flag = WasMinus | WasExpanded | Implicit

  datatype Node =
    | Number(value: int)
    | Identifier(name: string)
    | Apply(op: string, args: seq<Node>, flags: set<Flag>)
      /** An `Apply` whose operator is the placeholder `#eval`. */
    | Eval(arg: Node)
    | Parentheses(body: Node)
      /** `#name` or `#name_k`; the subscript is the numeral `k`. */
    | Placeholder(name: string, subscript: Option<nat>)
    | Ellipsis

  /** Number of nodes in a tree. */
  function Size(n: Node): nat
  {
    match n
    case Apply(_, args, _) => 1 + ArgsSize(args)
    case Eval(a) => 1 + Size(a)
    case Parentheses(b) => 1 + Size(b)
    case _ => 1
  }

  function ArgsSize(args: seq<Node>): nat
  {
    if args == [] then 0 else Size(args[0]) + ArgsSize(args[1..])
  }

  lemma {:induction false} ArgSizeBound(args: seq<Node>, k: nat)
    requires k < |args|
    ensures Size(args[k]) <= ArgsSize(args)
  {
    if k > 0 {
      ArgSizeBound(args[1..], k - 1);
    }
  }

  lemma ArgsSmaller(args: seq<Node>)
    ensures forall k :: 0 <= k < |args| ==> Size(args[k]) <= ArgsSize(args)
  {
    forall k | 0 <= k < |args| ensures Size(args[k]) <= ArgsSize(args) {
      ArgSizeBound(args, k);
    }
  }

  /** An expression as the parser produces it from ordinary input text: no
      placeholders, ellipses or evaluation markers anywhere, and every `neg`
      has exactly one argument. */
  predicate IsExpression(n: Node)
  {
    match n
    case Number(_) => true
    case Identifier(_) => true
    case Apply(op, args, _) => (op == "neg" ==> |args| == 1) && forall a <- args :: IsExpression(a)
    case Parentheses(b) => IsExpression(b)
    case _ => false
  }

  // ---------------------------------------------------------------------
  // Constructors (lib/nodes.js). The optional `loc` argument is dropped.

  /** `applyNode` without an explicit location computes one from its first
      and last argument, so it needs a non-empty argument list. */
  function ApplyNode(op: string, args: seq<Node>, flags: set<Flag> := {}): (r: Node)
    requires |args| > 0
    ensures r.Apply? && r.op == op && r.args == args && r.flags == flags
    ensures IsAdd(r) <==> op == "add"
    ensures IsNumber(r) <==> op == "neg" && IsNumber(args[0])
  {
    Apply(op, args, flags)
  }

  function IdentifierNode(name: string): (r: Node)
    ensures IsIdentifier(r) && !IsNumber(r) && r.name == name
  {
    Identifier(name)
  }

  function NumberNode(value: int): (r: Node)
    ensures IsNumber(r) && GetValue(r) == Some(value)
  {
    Number(value)
  }

  function ParensNode(body: Node): (r: Node)
    ensures r.Parentheses? && r.body == body && !IsNumber(r) && !IsAdd(r)
  {
    Parentheses(body)
  }

  // ---------------------------------------------------------------------
  // Node predicates (lib/nodes.js and the same-named queries of math-nodes).

  predicate IsAdd(n: Node) { n.Apply? && n.op == "add" }

  predicate IsMul(n: Node) { n.Apply? && n.op == "mul" }

  predicate IsDiv(n: Node) { n.Apply? && n.op == "div" }

  predicate IsNeg(n: Node) { n.Apply? && n.op == "neg" }

  predicate IsIdentifier(n: Node) { n.Identifier? }

  /** A number literal, or the negation of something that is a number. */
  predicate IsNumber(n: Node)
  {
    if n.Number? then true
    else if IsNeg(n) then |n.args| > 0 && IsNumber(n.args[0])
    else false
  }

  /** The value of a numeric node; `None` where the source returns
      `undefined`. */
  function GetValue(n: Node): Option<int>
  {
    if n.Number? then Some(n.value)
    else if IsNeg(n) && |n.args| > 0 then
      match GetValue(n.args[0])
      case Some(v) => Some(-v)
      case None => None
    else None
  }

  /** `getValue` is defined exactly where `isNumber` holds. */
  lemma {:induction false} GetValueDefinedIffNumber(n: Node)
    ensures GetValue(n).Some? <==> IsNumber(n)
  {
    if IsNeg(n) && |n.args| > 0 {
      GetValueDefinedIffNumber(n.args[0]);
    }
  }

  /** The value of a negation is the negated value of its argument. */
  lemma GetValueOfNeg(m: Node, flags: set<Flag>)
    requires IsNumber(m)
    ensures IsNumber(Apply("neg", [m], flags))
    ensures GetValue(Apply("neg", [m], flags)).Some?
    ensures GetValue(Apply("neg", [m], flags)).value == -GetValue(m).value
  {
    GetValueDefinedIffNumber(m);
  }
}
