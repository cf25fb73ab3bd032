/** The rewriters of expr.c, overwriting nodes. */
module ExprRewrite {
  import opened Exprs
  import opened ExprSimplify
  import opened ExprNodes

  method IsSymbolNode(n: Node, s: Sym, ghost t: Shape, ghost e: Expr) returns (r: bool)
    requires IsTree(t, e) && n == t.top
    ensures r <==> e == Symbol(s)
  {
    r := n.typ == TSymbol && n.left == OfSym(s);
  }

  // *e = *x, where x is one of the operands.
  method Overwrite(n: Node, x: Node, ghost t: Shape, ghost e: Expr) returns (ghost t': Shape)
    requires IsTree(t, e) && x == t.top && n !in t.nodes
    modifies n
    ensures IsTree(t', e) && t'.top == n && t'.nodes <= t.nodes + {n}
  {
    n.typ, n.left, n.right := x.typ, x.left, x.right;
    t' := WithTop(t, n);
    OtherTop(t, e, n);
  }

  lemma OtherTop(t: Shape, e: Expr, n: Node)
    requires IsTree(t, e) && n !in t.nodes
    requires n.typ == t.top.typ && n.left == t.top.left && n.right == t.top.right
    ensures IsTree(WithTop(t, n), e) && WithTop(t, n).nodes <= t.nodes + {n}
  {}

  method BecomeSymbol(n: Node, s: Sym) returns (ghost t: Shape)
    modifies n
    ensures t == One(n) && IsTree(t, Symbol(s))
  {
    n.typ, n.left, n.right := TSymbol, OfSym(s), Null;
    t := One(n);
  }

  // The operands of the node n are simplified.
  method FoldYnInPlace(n: Node, ghost t: Shape, ghost op: Op, ghost l: Expr, ghost r: Expr)
    returns (ghost t': Shape)
    requires IsTree(t, Bin(op, l, r)) && n == t.top
    modifies n
    ensures IsTree(t', FoldYn(op, l, r)) && t'.top == n && t'.nodes <= t.nodes
  {
    var nl, nr := n.left.node, n.right.node;
    var lNo := IsSymbolNode(nl, SymNo, t.l, l);
    var lYes := IsSymbolNode(nl, SymYes, t.l, l);
    var rNo := IsSymbolNode(nr, SymNo, t.r, r);
    var rYes := IsSymbolNode(nr, SymYes, t.r, r);
    t' := t;
    if n.typ.op.AndOp? {
      if lNo {
        t' := BecomeSymbol(n, SymNo);
      } else if lYes {
        t' := Overwrite(n, nr, t.r, r);
      } else if rNo {
        t' := BecomeSymbol(n, SymNo);
      } else if rYes {
        t' := Overwrite(n, nl, t.l, l);
      }
    } else {
      if lNo {
        t' := Overwrite(n, nr, t.r, r);
      } else if lYes {
        t' := BecomeSymbol(n, SymYes);
      } else if rNo {
        t' := Overwrite(n, nl, t.l, l);
      } else if rYes {
        t' := BecomeSymbol(n, SymYes);
      }
    }
  }

  /** expr_eliminate_yn */
  method EliminateYnInPlace(n: Node, ghost t: Shape, ghost e: Expr) returns (ghost t': Shape)
    requires IsTree(t, e) && n == t.top
    modifies t.nodes
    ensures IsTree(t', EliminateYn(e)) && t'.top == n && t'.nodes <= t.nodes
    decreases e
  {
    t' := t;
    if n.typ.TBin? {
      hide FoldYn;
      ghost var tl := EliminateYnInPlace(n.left.node, t.l, e.left);
      ghost var tr := EliminateYnInPlace(n.right.node, t.r, e.right);
      t' := FoldYnInPlace(n, Both(n, tl, tr), e.op, EliminateYn(e.left), EliminateYn(e.right));
    }
  }

  /** expr_trans_bool */
  method TransBoolInPlace(n: Node, ghost t: Shape, ghost e: Expr)
    requires IsTree(t, e) && n == t.top
    modifies t.nodes
    ensures IsTree(t, TransBool(e))
    decreases e
  {
    if n.typ.TBin? || n.typ.TNot? {
      TransBoolInPlace(n.left.node, if e.Bin? then t.l else t.arg, if e.Bin? then e.left else e.arg);
      if n.right.SubExpr? {
        TransBoolInPlace(n.right.node, t.r, e.right);
      }
    } else if n.typ == TComp(NE) {
      if n.left.sym.Type().Tristate? && n.right.sym == SymNo {
        n.typ := TSymbol;
        n.right := Null;
      }
    }
  }

  // ---------- expr_transform ----------

  // A bool symbol compared with y, m or n.
  method TransformCompInPlace(n: Node, ghost t: Shape, ghost rel: Rel, ghost l: Sym, ghost r: Sym)
    returns (ghost t': Shape)
    requires IsTree(t, Comp(rel, l, r)) && n == t.top
    modifies n
    ensures IsTree(t', TransformComp(rel, l, r)) && t'.top == n && fresh(t'.nodes - t.nodes)
  {
    t' := t;
    var s, c := n.left.sym, n.right.sym;
    if (n.typ == TComp(EQ) || n.typ == TComp(NE)) && s.Type().Boolean? {
      if c == SymMod {
        n.left := OfSym(if n.typ == TComp(EQ) then SymNo else SymYes);
        n.typ, n.right := TSymbol, Null;
      } else if c == (if n.typ == TComp(EQ) then SymYes else SymNo) {
        n.typ, n.right := TSymbol, Null;
      } else if c == (if n.typ == TComp(EQ) then SymNo else SymYes) {
        var x := new Node(TSymbol, OfSym(s), Null);
        n.typ, n.left, n.right := TNot, SubExpr(x), Null;
        t' := Over(n, One(x));
      }
    }
  }

  /** expr_transform; the result may be another node. */
  method TransformInPlace(n: Node, ghost t: Shape, ghost e: Expr) returns (n': Node, ghost t': Shape)
    requires IsTree(t, e) && n == t.top
    modifies t.nodes
    ensures IsTree(t', Transform(e)) && n' == t'.top && fresh(t'.nodes - t.nodes)
    decreases Weight(e), 2
  {
    hide DeMorgan, TransformComp, TransformSymbolNot;
    n', t' := n, t;
    match n.typ {
      case TSymbol =>
      case TComp(_) =>
        t' := TransformCompInPlace(n, t, e.rel, e.lhs, e.rhs);
      case TBin(_) =>
        t' := TransformOperands(n, t, e.op, e.left, e.right);
      case TNot =>
        var a;
        ghost var ta;
        a, ta := TransformInPlace(n.left.node, t.arg, e.arg);
        n.left := SubExpr(a);
        TransformAgain(e.arg);
        n', t' := NegateInPlace(n, Over(n, ta), Transform(e.arg));
    }
  }

  method TransformOperands(n: Node, ghost t: Shape, ghost op: Op, ghost el: Expr, ghost er: Expr)
    returns (ghost t': Shape)
    requires IsTree(t, Bin(op, el, er)) && n == t.top
    modifies t.nodes
    ensures IsTree(t', Bin(op, Transform(el), Transform(er))) && n == t'.top && fresh(t'.nodes - t.nodes)
    decreases Weight(Bin(op, el, er)), 1
  {
    hide Transform;
    t' := TransformLeft(n, t, op, el, er);
    t' := TransformRight(n, t', op, Transform(el), er);
  }

  method TransformLeft(n: Node, ghost t: Shape, ghost op: Op, ghost el: Expr, ghost er: Expr)
    returns (ghost t': Shape)
    requires IsTree(t, Bin(op, el, er)) && n == t.top
    modifies t.nodes
    ensures IsTree(t', Bin(op, Transform(el), er)) && n == t'.top && fresh(t'.nodes - t.nodes)
    decreases Weight(Bin(op, el, er)), 0
  {
    hide Transform, IsTree, Both;
    BothParts(t, op, el, er);
    var l;
    ghost var tl;
    l, tl := TransformInPlace(n.left.node, t.l, el);
    assert IsTree(t.r, er) && tl.nodes !! t.r.nodes && n !in tl.nodes;
    n.left := SubExpr(l);
    BothTree(n, tl, t.r, op, Transform(el), er);
    t' := Both(n, tl, t.r);
  }

  method TransformRight(n: Node, ghost t: Shape, ghost op: Op, ghost el: Expr, ghost er: Expr)
    returns (ghost t': Shape)
    requires IsTree(t, Bin(op, el, er)) && n == t.top
    modifies t.nodes
    ensures IsTree(t', Bin(op, el, Transform(er))) && n == t'.top && fresh(t'.nodes - t.nodes)
    decreases Weight(Bin(op, el, er)), 0
  {
    hide Transform, IsTree, Both;
    BothParts(t, op, el, er);
    var r;
    ghost var tr;
    r, tr := TransformInPlace(n.right.node, t.r, er);
    assert IsTree(t.l, el) && tr.nodes !! t.l.nodes && n !in tr.nodes;
    n.right := SubExpr(r);
    BothTree(n, t.l, tr, op, el, Transform(er));
    t' := Both(n, t.l, tr);
  }

  lemma TransformAgain(a: Expr)
    ensures Transform(Transform(a)) == Transform(a) && Weight(Not(Transform(a))) <= Weight(Not(a))
    ensures Transform(Not(Transform(a))) == Transform(Not(a))
  {
    TransformFixesNormal(a);
  }

  // The switch for E_NOT, after the operand is transformed.
  method NegateInPlace(n: Node, ghost t: Shape, ghost a: Expr) returns (n': Node, ghost t': Shape)
    requires IsTree(t, Not(a)) && n == t.top && Transform(a) == a
    modifies t.nodes
    ensures IsTree(t', Transform(Not(a))) && n' == t'.top && fresh(t'.nodes - t.nodes)
    decreases Weight(Not(a)), 0
  {
    var x := n.left.node;
    n', t' := n, t;
    match x.typ {
      case TNot =>
        n', t' := TransformInPlace(x.left.node, t.arg.arg, a.arg);
      case TComp(rel) =>
        n', t' := x, t.arg;
        x.typ := TComp(NegateRel(rel));
      case TBin(op) =>
        n.typ := TBin(Dual(op));
        var y := new Node(TNot, x.right, Null);
        n.right := SubExpr(y);
        x.typ, x.right := TNot, Null;
        ghost var both := Both(n, Over(x, t.arg.l), Over(y, t.arg.r));
        n', t' := TransformInPlace(n, both, DeMorgan(op, a.left, a.right));
      case TSymbol =>
        var s := x.left.sym;
        if !s.Named? {
          n', t' := x, t.arg;
          x.left := OfSym(if s.SymYes? then SymNo else if s.SymMod? then SymMod else SymYes);
        }
    }
  }
}
