/** Expression nodes in memory, and the trees they represent. */
module ExprNodes {
  import opened Exprs

  datatype Type = TSymbol | TNot | TBin(op: Op) | TComp(rel: Rel)

  // union expr_data
  datatype Data = Null | SubExpr(node: Node) | OfSym(sym: Sym)

  // struct expr
  class Node {
    var typ: Type
    var left: Data
    var right: Data

    constructor (typ: Type, left: Data, right: Data)
      ensures this.typ == typ && this.left == left && this.right == right
    {
      this.typ, this.left, this.right := typ, left, right;
    }
  }

  /** The nodes of a tree, arranged as they are linked, and the set of them. */
  datatype Shape =
    | Leaf(top: Node, nodes: set<Node>)
    | Unary(top: Node, arg: Shape, nodes: set<Node>)
    | Binary(top: Node, l: Shape, r: Shape, nodes: set<Node>)

  function One(n: Node): Shape { Leaf(n, {n}) }

  function Over(n: Node, a: Shape): Shape { Unary(n, a, {n} + a.nodes) }

  function Both(n: Node, l: Shape, r: Shape): Shape { Binary(n, l, r, {n} + l.nodes + r.nodes) }

  /** The nodes of t represent the expression e; no node is shared. */
  ghost predicate IsTree(t: Shape, e: Expr)
    reads t.nodes
    decreases e
  {
    match e
    case Symbol(s) => t == One(t.top) && t.top.typ == TSymbol && t.top.left == OfSym(s)
    case Comp(rel, l, r) =>
      t == One(t.top) && t.top.typ == TComp(rel) && t.top.left == OfSym(l) && t.top.right == OfSym(r)
    case Not(a) =>
      && t.Unary? && t == Over(t.top, t.arg) && t.top !in t.arg.nodes && IsTree(t.arg, a)
      && t.top.typ == TNot && t.top.left == SubExpr(t.arg.top) && t.top.right == Null
    case Bin(op, l, r) =>
      && t.Binary? && t == Both(t.top, t.l, t.r)
      && t.top !in t.l.nodes && t.top !in t.r.nodes && t.l.nodes !! t.r.nodes
      && IsTree(t.l, l) && IsTree(t.r, r)
      && t.top.typ == TBin(op) && t.top.left == SubExpr(t.l.top) && t.top.right == SubExpr(t.r.top)
  }

  // The tree t with another node on top.
  function WithTop(t: Shape, n: Node): Shape {
    match t
    case Leaf(_, _) => One(n)
    case Unary(_, a, _) => Over(n, a)
    case Binary(_, l, r, _) => Both(n, l, r)
  }

  function TypeOf(e: Expr): Type {
    match e
    case Symbol(_) => TSymbol
    case Comp(rel, _, _) => TComp(rel)
    case Not(_) => TNot
    case Bin(op, _, _) => TBin(op)
  }

  lemma TopOf(t: Shape, e: Expr)
    requires IsTree(t, e)
    ensures t.top in t.nodes && t.top.typ == TypeOf(e)
  {}

  /** An operator node and its operands. */
  lemma BothParts(t: Shape, op: Op, l: Expr, r: Expr)
    requires IsTree(t, Bin(op, l, r))
    ensures t.Binary? && t.nodes == {t.top} + t.l.nodes + t.r.nodes
    ensures t.top !in t.l.nodes && t.top !in t.r.nodes && t.l.nodes !! t.r.nodes
    ensures IsTree(t.l, l) && IsTree(t.r, r)
    ensures t.top.typ == TBin(op) && t.top.left == SubExpr(t.l.top) && t.top.right == SubExpr(t.r.top)
  {}

  lemma BothTree(n: Node, tl: Shape, tr: Shape, op: Op, l: Expr, r: Expr)
    requires IsTree(tl, l) && IsTree(tr, r) && n !in tl.nodes && n !in tr.nodes && tl.nodes !! tr.nodes
    requires n.typ == TBin(op) && n.left == SubExpr(tl.top) && n.right == SubExpr(tr.top)
    ensures IsTree(Both(n, tl, tr), Bin(op, l, r)) && Both(n, tl, tr).nodes == {n} + tl.nodes + tr.nodes
    ensures Both(n, tl, tr).top == n
  {}
}
