/** Links into a tree of nodes, and what happens when one of them is redirected. */
module ExprLinks {
  import opened Exprs
  import opened ExprEq
  import opened ExprDups
  import opened ExprNodes

  // The subtree that p leads to, and the tree with another one in its place.
  function ShapeAt(t: Shape, p: Path): Shape {
    if p == [] || !t.Binary? then t else ShapeAt(if p[0].L? then t.l else t.r, p[1..])
  }

  function PutShape(t: Shape, p: Path, s: Shape): Shape {
    if p == [] || !t.Binary? then s
    else if p[0].L? then Both(t.top, PutShape(t.l, p[1..], s), t.r)
    else Both(t.top, t.l, PutShape(t.r, p[1..], s))
  }

  // The contents of nodes, as a value.
  datatype Content = Content(typ: Type, left: Data, right: Data)

  ghost function Contents(s: set<Node>): map<Node, Content>
    reads s
  {
    map n | n in s :: Content(n.typ, n.left, n.right)
  }

  /** IsTree, on given contents. */
  ghost predicate IsTreeIn(m: map<Node, Content>, t: Shape, e: Expr) {
    t.top in m &&
    var c := m[t.top];
    match e
    case Symbol(s) => t == One(t.top) && c.typ == TSymbol && c.left == OfSym(s)
    case Comp(rel, l, r) => t == One(t.top) && c.typ == TComp(rel) && c.left == OfSym(l) && c.right == OfSym(r)
    case Not(a) =>
      && t.Unary? && t == Over(t.top, t.arg) && t.top !in t.arg.nodes && IsTreeIn(m, t.arg, a)
      && c.typ == TNot && c.left == SubExpr(t.arg.top) && c.right == Null
    case Bin(op, l, r) =>
      && t.Binary? && t == Both(t.top, t.l, t.r)
      && t.top !in t.l.nodes && t.top !in t.r.nodes && t.l.nodes !! t.r.nodes
      && IsTreeIn(m, t.l, l) && IsTreeIn(m, t.r, r)
      && c.typ == TBin(op) && c.left == SubExpr(t.l.top) && c.right == SubExpr(t.r.top)
  }

  lemma {:induction false} SameAsIn(t: Shape, e: Expr, s: set<Node>)
    requires t.nodes <= s
    ensures IsTree(t, e) ==> IsTreeIn(Contents(s), t, e)
    ensures IsTreeIn(Contents(s), t, e) ==> IsTree(t, e)
    decreases e
  {
    match e
    case Not(a) => if t.Unary? && t == Over(t.top, t.arg) { SameAsIn(t.arg, a, s); }
    case Bin(_, l, r) =>
      if t.Binary? && t == Both(t.top, t.l, t.r) {
        SameAsIn(t.l, l, s);
        SameAsIn(t.r, r, s);
      }
    case _ =>
  }

  lemma {:induction false} InOther(m: map<Node, Content>, m': map<Node, Content>, t: Shape, e: Expr)
    requires IsTreeIn(m, t, e) && forall n :: n in t.nodes && n in m ==> n in m' && m'[n] == m[n]
    ensures IsTreeIn(m', t, e)
    decreases e
  {
    match e
    case Not(a) => InOther(m, m', t.arg, a);
    case Bin(_, l, r) => InOther(m, m', t.l, l); InOther(m, m', t.r, r);
    case _ =>
  }

  /** The subtree at p, and the node whose field leads to it. */
  lemma {:induction false} SubtreeAt(m: map<Node, Content>, op: Op, t: Shape, e: Expr, p: Path)
    requires IsTreeIn(m, t, e) && OnSpine(op, e, p)
    ensures IsTreeIn(m, ShapeAt(t, p), At(op, e, p)) && ShapeAt(t, p).nodes <= t.nodes
    ensures p != [] ==> t.top !in ShapeAt(t, p).nodes
    decreases |p|
  {
    if p != [] {
      if p[0].L? { SubtreeAt(m, op, t.l, e.left, p[1..]); } else { SubtreeAt(m, op, t.r, e.right, p[1..]); }
    }
  }

  // The node whose field leads to the subtree at p.
  function ParentAt(t: Shape, p: Path): Node
    requires p != []
  {
    ShapeAt(t, p[..|p| - 1]).top
  }

  function Redirected(c: Content, side: Side, n: Node): Content {
    if side.L? then c.(left := SubExpr(n)) else c.(right := SubExpr(n))
  }

  // Outside the subtree at p only the field that leads to it may differ.
  ghost predicate OnlyLink(m: map<Node, Content>, m': map<Node, Content>, t: Shape, p: Path, n: Node)
    requires p != []
  {
    forall x :: x in t.nodes && x !in ShapeAt(t, p).nodes && x in m ==>
      x in m' && m'[x] == if x == ParentAt(t, p) then Redirected(m[x], p[|p| - 1], n) else m[x]
  }

  function Sub(t: Shape, side: Side): Shape
    requires t.Binary?
  {
    if side.L? then t.l else t.r
  }

  // A new operand of the node on top, whose field leads to it.
  lemma NewOperand(m: map<Node, Content>, m': map<Node, Content>, op: Op, t: Shape, e: Expr, side: Side,
                   s: Shape, x: Expr)
    requires IsTreeIn(m, t, e) && HasOp(e, op) && IsTreeIn(m', s, x)
    requires s.nodes !! t.nodes - Sub(t, side).nodes && t.top in m' && m'[t.top] == Redirected(m[t.top], side, s.top)
    requires forall n :: n in t.nodes && n != t.top && n !in Sub(t, side).nodes && n in m ==> n in m' && m'[n] == m[n]
    ensures IsTreeIn(m', PutShape(t, [side], s), Put(op, e, [side], x))
    ensures PutShape(t, [side], s).top == t.top
    ensures PutShape(t, [side], s).nodes == (t.nodes - Sub(t, side).nodes) + s.nodes
  {
    assert [side][1..] == [];
    if side.L? { InOther(m, m', t.r, e.right); } else { InOther(m, m', t.l, e.left); }
  }

  /** With the tree s put at p, the nodes represent the expression with x there. */
  lemma {:induction false} PutInPlace(m: map<Node, Content>, m': map<Node, Content>, op: Op, t: Shape, e: Expr,
                                      p: Path, s: Shape, x: Expr)
    requires IsTreeIn(m, t, e) && OnSpine(op, e, p) && p != [] && IsTreeIn(m', s, x)
    requires s.nodes !! t.nodes - ShapeAt(t, p).nodes && OnlyLink(m, m', t, p, s.top)
    ensures IsTreeIn(m', PutShape(t, p, s), Put(op, e, p, x))
    ensures PutShape(t, p, s).top == t.top
    ensures PutShape(t, p, s).nodes == (t.nodes - ShapeAt(t, p).nodes) + s.nodes
    decreases |p|
  {
    var side, rest := p[0], p[1..];
    if rest == [] {
      PutOperandInPlace(m, m', op, t, e, p, s, x);
    } else {
      BelowTop(m, op, t, e, p);
      LinkBelow(m, m', t, p, s.top);
      PutTwice(op, t, e, p, s, x);
      hide IsTreeIn, Put, PutShape, ShapeAt, OnSpine, ParentAt, OnlyLink;
      var c, ec := Sub(t, side), Child(e, side);
      PutInPlace(m, m', op, c, ec, rest, s, x);
      NewOperand(m, m', op, t, e, side, PutShape(c, rest, s), Put(op, ec, rest, x));
    }
  }

  lemma PutOperandInPlace(m: map<Node, Content>, m': map<Node, Content>, op: Op, t: Shape, e: Expr,
                          p: Path, s: Shape, x: Expr)
    requires IsTreeIn(m, t, e) && OnSpine(op, e, p) && |p| == 1 && IsTreeIn(m', s, x)
    requires s.nodes !! t.nodes - ShapeAt(t, p).nodes && OnlyLink(m, m', t, p, s.top)
    ensures IsTreeIn(m', PutShape(t, p, s), Put(op, e, p, x))
    ensures PutShape(t, p, s).top == t.top
    ensures PutShape(t, p, s).nodes == (t.nodes - ShapeAt(t, p).nodes) + s.nodes
  {
    var side := p[0];
    assert p == [side] && p[..|p| - 1] == [] && [side][1..] == [];
    assert ShapeAt(t, p) == Sub(t, side) && ParentAt(t, p) == t.top && t.top in t.nodes && t.top in m;
    hide IsTreeIn, Put, PutShape, ShapeAt, OnSpine, ParentAt;
    assert m'[t.top] == Redirected(m[t.top], side, s.top);
    NewOperand(m, m', op, t, e, side, s, x);
  }

  // Below the top, too, only the field that leads to p may differ.
  lemma LinkBelow(m: map<Node, Content>, m': map<Node, Content>, t: Shape, p: Path, n: Node)
    requires |p| > 1 && t.Binary? && t.top in t.nodes && t.top in m && OnlyLink(m, m', t, p, n)
    requires var c, rest := Sub(t, p[0]), p[1..];
      && c.nodes <= t.nodes && t.top !in c.nodes && ShapeAt(t, p) == ShapeAt(c, rest)
      && ShapeAt(c, rest).nodes <= c.nodes && ParentAt(t, p) == ParentAt(c, rest) && ParentAt(t, p) in c.nodes
    ensures var c := Sub(t, p[0]);
      && OnlyLink(m, m', c, p[1..], n) && t.top in m' && m'[t.top] == m[t.top]
      && forall y :: y in t.nodes && y !in c.nodes && y in m ==> y in m' && m'[y] == m[y]
  {
    hide ShapeAt, ParentAt;
  }

  // A path of more than one step.
  lemma BelowTop(m: map<Node, Content>, op: Op, t: Shape, e: Expr, p: Path)
    requires IsTreeIn(m, t, e) && OnSpine(op, e, p) && |p| > 1
    ensures t.Binary? && HasOp(e, op)
    ensures var side, rest := p[0], p[1..]; var c, ec := Sub(t, side), Child(e, side);
      && IsTreeIn(m, c, ec) && OnSpine(op, ec, rest) && c.nodes <= t.nodes && t.top in t.nodes && t.top in m
      && t.top !in c.nodes && Redirected(m[t.top], side, c.top) == m[t.top]
      && ShapeAt(t, p) == ShapeAt(c, rest) && ShapeAt(c, rest).nodes <= c.nodes
      && ParentAt(t, p) == ParentAt(c, rest) && ParentAt(t, p) in c.nodes
  {
    var side, rest := p[0], p[1..];
    var c, ec := Sub(t, side), Child(e, side);
    SubtreeAt(m, op, c, ec, rest);
    assert p[..|p| - 1][1..] == rest[..|rest| - 1] && p[..|p| - 1][0] == side;
    ParentIsInside(m, op, c, ec, rest);
  }

  lemma PutTwice(op: Op, t: Shape, e: Expr, p: Path, s: Shape, x: Expr)
    requires OnSpine(op, e, p) && |p| > 1 && t.Binary?
    ensures PutShape(t, p, s) == PutShape(t, [p[0]], PutShape(Sub(t, p[0]), p[1..], s))
    ensures Put(op, e, p, x) == Put(op, e, [p[0]], Put(op, Child(e, p[0]), p[1..], x))
  {
    assert [p[0]][1..] == [];
  }

  lemma {:induction false} ParentIsInside(m: map<Node, Content>, op: Op, t: Shape, e: Expr, p: Path)
    requires IsTreeIn(m, t, e) && OnSpine(op, e, p) && p != []
    ensures ParentAt(t, p) in t.nodes && ParentAt(t, p) !in ShapeAt(t, p).nodes
    decreases |p|
  {
    var c, ec, rest := if p[0].L? then t.l else t.r, Child(e, p[0]), p[1..];
    SubtreeAt(m, op, c, ec, rest);
    if rest == [] {
      assert p[..|p| - 1] == [];
    } else {
      assert p[..|p| - 1][1..] == rest[..|rest| - 1] && p[..|p| - 1][0] == p[0];
      ParentIsInside(m, op, c, ec, rest);
    }
  }

  /** Different operands have different nodes. */
  lemma {:induction false} OperandsApart(m: map<Node, Content>, op: Op, t: Shape, e: Expr, p: Path, q: Path)
    requires IsTreeIn(m, t, e) && IsOperand(op, e, p) && IsOperand(op, e, q) && p != q
    ensures ShapeAt(t, p).nodes !! ShapeAt(t, q).nodes
    ensures p != [] && q != []
    decreases |p|
  {
    var cp, cq := if p[0].L? then t.l else t.r, if q[0].L? then t.l else t.r;
    SubtreeAt(m, op, cp, Child(e, p[0]), p[1..]);
    SubtreeAt(m, op, cq, Child(e, q[0]), q[1..]);
    if p[0] == q[0] {
      OperandsApart(m, op, cp, Child(e, p[0]), p[1..], q[1..]);
    }
  }

  // ---------- links ----------

  // struct expr **: a variable holding the root, or a field of an operator node.
  datatype Link = Root | Field(node: Node, side: Side)

  ghost predicate IsLink(t: Shape, p: Path, k: Link) {
    if p == [] then k == Root else k == Field(ParentAt(t, p), p[|p| - 1])
  }

  /** The operator nodes of the level are the same in both. */
  ghost predicate SameOperators(op: Op, e: Expr, t: Shape, t': Shape) {
    HasOp(e, op) ==>
      && t.Binary? && t'.Binary? && t.top == t'.top
      && SameOperators(op, e.left, t.l, t'.l) && SameOperators(op, e.right, t.r, t'.r)
  }

  lemma {:induction false} SameOperatorsAt(op: Op, e: Expr, t: Shape, t': Shape, p: Path)
    requires SameOperators(op, e, t, t') && OnSpine(op, e, p) && HasOp(At(op, e, p), op)
    ensures ShapeAt(t, p).top == ShapeAt(t', p).top
  {
    if p != [] {
      SameOperatorsAt(op, Child(e, p[0]), if p[0].L? then t.l else t.r, if p[0].L? then t'.l else t'.r, p[1..]);
    }
  }

  // Links stay valid when only operands are replaced.
  lemma LinkStays(op: Op, e: Expr, t: Shape, t': Shape, p: Path, k: Link)
    requires SameOperators(op, e, t, t') && OnSpine(op, e, p) && IsLink(t, p, k)
    ensures IsLink(t', p, k)
  {
    if p != [] {
      Shorten(op, e, p);
      SameOperatorsAt(op, e, t, t', p[..|p| - 1]);
    }
  }

  lemma {:induction false} Shorten(op: Op, e: Expr, p: Path)
    requires OnSpine(op, e, p) && p != []
    ensures OnSpine(op, e, p[..|p| - 1]) && HasOp(At(op, e, p[..|p| - 1]), op)
    ensures At(op, e, p) == Child(At(op, e, p[..|p| - 1]), p[|p| - 1])
  {
    var q := p[..|p| - 1];
    if |p| == 1 {
      assert q == [] && p[1..] == [];
    } else {
      Shorten(op, Child(e, p[0]), p[1..]);
      assert q[1..] == p[1..][..|p| - 2] && q[0] == p[0];
    }
  }

  lemma {:induction false} SameOperatorsTransitive(op: Op, e: Expr, x: Expr, t: Shape, u: Shape, v: Shape)
    requires SameOperators(op, e, t, u) && SameSpine(op, e, x) && SameOperators(op, x, u, v)
    ensures SameOperators(op, e, t, v)
  {
    if HasOp(e, op) {
      SameOperatorsTransitive(op, e.left, x.left, t.l, u.l, v.l);
      SameOperatorsTransitive(op, e.right, x.right, t.r, u.r, v.r);
    }
  }

  lemma {:induction false} SameOperatorsReflexive(m: map<Node, Content>, op: Op, e: Expr, t: Shape)
    requires IsTreeIn(m, t, e)
    ensures SameOperators(op, e, t, t)
  {
    if HasOp(e, op) {
      SameOperatorsReflexive(m, op, e.left, t.l);
      SameOperatorsReflexive(m, op, e.right, t.r);
    }
  }

  lemma {:induction false} PutKeepsOperators(m: map<Node, Content>, op: Op, e: Expr, t: Shape, p: Path, s: Shape)
    requires IsTreeIn(m, t, e) && IsOperand(op, e, p)
    ensures SameOperators(op, e, t, PutShape(t, p, s))
    decreases |p|
  {
    if p != [] {
      PutKeepsOperators(m, op, Child(e, p[0]), if p[0].L? then t.l else t.r, p[1..], s);
      SameOperatorsReflexive(m, op, e.left, t.l);
      SameOperatorsReflexive(m, op, e.right, t.r);
    }
  }
}
