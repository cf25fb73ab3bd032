/** expr_eliminate_eq and expr_eq, overwriting nodes, with the global counter. */
module ExprCancel {
  import opened Options
  import opened Exprs
  import opened ExprSimplify
  import opened ExprEq
  import opened ExprNodes
  import opened ExprRewrite

  /** expr_copy: a tree of new nodes. */
  method Copy(n: Node, ghost t: Shape, ghost e: Expr) returns (n': Node, ghost t': Shape)
    requires IsTree(t, e) && n == t.top
    ensures IsTree(t', e) && n' == t'.top && fresh(t'.nodes)
    decreases e
  {
    match n.typ {
      case TSymbol | TComp(_) =>
        n' := new Node(n.typ, n.left, n.right);
        t' := One(n');
      case TNot =>
        var a;
        ghost var ta;
        a, ta := Copy(n.left.node, t.arg, e.arg);
        n' := new Node(TNot, SubExpr(a), Null);
        t' := Over(n', ta);
      case TBin(op) =>
        n', t' := CopyBoth(n, t, op, e.left, e.right);
    }
  }

  method CopyBoth(n: Node, ghost t: Shape, op: Op, ghost el: Expr, ghost er: Expr) returns (n': Node, ghost t': Shape)
    requires IsTree(t, Bin(op, el, er)) && n == t.top
    ensures IsTree(t', Bin(op, el, er)) && n' == t'.top && fresh(t'.nodes)
    decreases Bin(op, el, er), 0
  {
    hide IsTree, Both;
    BothParts(t, op, el, er);
    var l, r;
    ghost var tl, tr;
    l, tl := Copy(n.left.node, t.l, el);
    r, tr := Copy(n.right.node, t.r, er);
    n' := new Node(TBin(op), SubExpr(l), SubExpr(r));
    BothTree(n', tl, tr, op, el, er);
    t' := Both(n', tl, tr);
  }

  // expr_alloc_symbol
  method AllocSymbol(s: Sym) returns (n: Node, ghost t: Shape)
    ensures IsTree(t, Symbol(s)) && n == t.top && fresh(t.nodes)
  {
    n := new Node(TSymbol, OfSym(s), Null);
    t := One(n);
  }

  lemma SameYn(t1: Shape, t2: Shape, e1: Expr, e2: Expr)
    requires IsTree(t1, e1) && IsTree(t2, e2)
    ensures t1.top.typ == TSymbol && t2.top.typ == TSymbol && t1.top.left == t2.top.left
            && (t1.top.left == OfSym(SymYes) || t1.top.left == OfSym(SymNo))
      <==> e1 == e2 && IsYn(e1)
  {}

  lemma FirstOperands(op: Op, e1: Expr, e2: Expr)
    requires HasOp(e1, op)
    ensures var p := ExprEq.EliminateEq1(op, e1.left, e2); var q := ExprEq.EliminateEq1(op, e1.right, p.1);
      && ExprEq.EliminateEq1(op, e1, e2) == (Bin(op, p.0, q.0), q.1)
      && Cancelled(op, e1, e2) == Cancelled(op, e1.left, e2) + Cancelled(op, e1.right, p.1)
      && Size(Bin(op, p.0, e1.right)) + Size(p.1) <= Size(e1) + Size(e2)
  {}

  lemma SecondOperands(op: Op, e1: Expr, e2: Expr)
    requires !HasOp(e1, op) && HasOp(e2, op)
    ensures var p := ExprEq.EliminateEq1(op, e1, e2.left); var q := ExprEq.EliminateEq1(op, p.0, e2.right);
      && ExprEq.EliminateEq1(op, e1, e2) == (q.0, Bin(op, p.1, q.1))
      && Cancelled(op, e1, e2) == Cancelled(op, e1, e2.left) + Cancelled(op, p.0, e2.right)
      && Size(p.0) + Size(Bin(op, p.1, e2.right)) <= Size(e1) + Size(e2)
  {}

  /** How many pairs of operands __expr_eliminate_eq cancels. */
  function Cancelled(op: Op, e1: Expr, e2: Expr): nat
    decreases Size(e1) + Size(e2)
  {
    if HasOp(e1, op) then
      Cancelled(op, e1.left, e2) + Cancelled(op, e1.right, ExprEq.EliminateEq1(op, e1.left, e2).1)
    else if HasOp(e2, op) then
      Cancelled(op, e1, e2.left) + Cancelled(op, ExprEq.EliminateEq1(op, e1, e2.left).0, e2.right)
    else if (e1 == e2 && IsYn(e1)) || !ExprEq.Equal(e1, e2) then 0
    else 1
  }

  // The operands of a level that are not the one that is ignored.
  function Relevant(op: Op, e: Expr): nat {
    if HasOp(e, op) then Relevant(op, e.left) + Relevant(op, e.right)
    else if e == Unit(op) then 0 else 1
  }

  /** Both trees lose that many operands. */
  lemma {:induction false} CancelledOperands(op: Op, e1: Expr, e2: Expr)
    ensures var p := ExprEq.EliminateEq1(op, e1, e2);
      && Relevant(op, p.0) + Cancelled(op, e1, e2) == Relevant(op, e1)
      && Relevant(op, p.1) + Cancelled(op, e1, e2) == Relevant(op, e2)
    decreases Size(e1) + Size(e2)
  {
    hide ExprEq.EliminateEq1, ExprEq.Equal, Cancelled;
    if HasOp(e1, op) {
      FirstOperands(op, e1, e2);
      CancelledOperands(op, e1.left, e2);
      CancelledOperands(op, e1.right, ExprEq.EliminateEq1(op, e1.left, e2).1);
    } else if HasOp(e2, op) {
      SecondOperands(op, e1, e2);
      CancelledOperands(op, e1, e2.left);
      CancelledOperands(op, ExprEq.EliminateEq1(op, e1, e2.left).0, e2.right);
    } else {
      LeafOperands(op, e1, e2);
    }
  }

  // Neither of two leaves that cancel is ignored by the operator.
  lemma LeafOperands(op: Op, e1: Expr, e2: Expr)
    requires !HasOp(e1, op) && !HasOp(e2, op)
    ensures (e1 == e2 && IsYn(e1)) || !ExprEq.Equal(e1, e2) ==>
      ExprEq.EliminateEq1(op, e1, e2) == (e1, e2) && Cancelled(op, e1, e2) == 0
    ensures !(e1 == e2 && IsYn(e1)) && ExprEq.Equal(e1, e2) ==>
      && ExprEq.EliminateEq1(op, e1, e2) == (Unit(op), Unit(op)) && Cancelled(op, e1, e2) == 1
      && e1 != Unit(op) && e2 != Unit(op)
  {}

  // Those that one pass, or the second one, cancels.
  function CancelledByPass(e: Expr, e1: Expr, e2: Expr): nat
    requires e == e1 || e == e2
  {
    if e.Bin? then Cancelled(e.op, e1, e2) else 0
  }

  function CancelledAfter(e1: Expr, e2: Expr): nat {
    if e2.Bin? && !HasOp(e1, e2.op) then Cancelled(e2.op, e1, e2) else 0
  }

  class Canceller {
    var transCount: nat

    constructor ()
      ensures transCount == 0
    {
      transCount := 0;
    }

    /** __expr_eliminate_eq; what ep1 and ep2 point to afterwards is returned. */
    method EliminateEq1(op: Op, n1: Node, n2: Node, ghost t1: Shape, ghost t2: Shape, ghost e1: Expr, ghost e2: Expr)
      returns (n1': Node, n2': Node, ghost t1': Shape, ghost t2': Shape)
      requires IsTree(t1, e1) && IsTree(t2, e2) && n1 == t1.top && n2 == t2.top && t1.nodes !! t2.nodes
      modifies this, t1.nodes, t2.nodes
      ensures IsTree(t1', ExprEq.EliminateEq1(op, e1, e2).0) && n1' == t1'.top && fresh(t1'.nodes - t1.nodes)
      ensures IsTree(t2', ExprEq.EliminateEq1(op, e1, e2).1) && n2' == t2'.top && fresh(t2'.nodes - t2.nodes)
      ensures t1'.nodes !! t2'.nodes
      ensures transCount == old(transCount) + Cancelled(op, e1, e2)
      decreases Size(e1) + Size(e2), if HasOp(e1, op) || HasOp(e2, op) then 2 else 7
    {
      hide IsTree;
      n1', n2', t1', t2' := n1, n2, t1, t2;
      TopOf(t1, e1);
      TopOf(t2, e2);
      if n1.typ == TBin(op) {
        n2', t1', t2' := CancelFirst(op, n1, n2, t1, t2, e1, e2);
      } else if n2.typ == TBin(op) {
        n1', t1', t2' := CancelSecond(op, n1, n2, t1, t2, e1, e2);
      } else {
        n1', n2', t1', t2' := CancelLeaves(op, n1, n2, t1, t2, e1, e2);
      }
    }

    method CancelFirst(op: Op, n1: Node, n2: Node, ghost t1: Shape, ghost t2: Shape, ghost e1: Expr, ghost e2: Expr)
      returns (n2': Node, ghost t1': Shape, ghost t2': Shape)
      requires IsTree(t1, e1) && IsTree(t2, e2) && n1 == t1.top && n2 == t2.top && t1.nodes !! t2.nodes
      requires HasOp(e1, op)
      modifies this, t1.nodes, t2.nodes
      ensures IsTree(t1', ExprEq.EliminateEq1(op, e1, e2).0) && n1 == t1'.top && fresh(t1'.nodes - t1.nodes)
      ensures IsTree(t2', ExprEq.EliminateEq1(op, e1, e2).1) && n2' == t2'.top && fresh(t2'.nodes - t2.nodes)
      ensures t1'.nodes !! t2'.nodes
      ensures transCount == old(transCount) + Cancelled(op, e1, e2)
      decreases Size(e1) + Size(e2), 1
    {
      ghost var p := ExprEq.EliminateEq1(op, e1.left, e2);
      FirstOperands(op, e1, e2);
      hide ExprEq.EliminateEq1, IsTree, Size, Cancelled;
      n2', t1', t2' := CancelLeftOfFirst(op, n1, n2, t1, t2, e1, e2);
      n2', t1', t2' := CancelRightOfFirst(op, n1, n2', t1', t2', Bin(op, p.0, e1.right), p.1);
    }

    method CancelSecond(op: Op, n1: Node, n2: Node, ghost t1: Shape, ghost t2: Shape, ghost e1: Expr, ghost e2: Expr)
      returns (n1': Node, ghost t1': Shape, ghost t2': Shape)
      requires IsTree(t1, e1) && IsTree(t2, e2) && n1 == t1.top && n2 == t2.top && t1.nodes !! t2.nodes
      requires !HasOp(e1, op) && HasOp(e2, op)
      modifies this, t1.nodes, t2.nodes
      ensures IsTree(t1', ExprEq.EliminateEq1(op, e1, e2).0) && n1' == t1'.top && fresh(t1'.nodes - t1.nodes)
      ensures IsTree(t2', ExprEq.EliminateEq1(op, e1, e2).1) && n2 == t2'.top && fresh(t2'.nodes - t2.nodes)
      ensures t1'.nodes !! t2'.nodes
      ensures transCount == old(transCount) + Cancelled(op, e1, e2)
      decreases Size(e1) + Size(e2), 1
    {
      ghost var p := ExprEq.EliminateEq1(op, e1, e2.left);
      SecondOperands(op, e1, e2);
      hide ExprEq.EliminateEq1, IsTree, Size, Cancelled;
      n1', t1', t2' := CancelLeftOfSecond(op, n1, n2, t1, t2, e1, e2);
      n1', t1', t2' := CancelRightOfSecond(op, n1', n2, t1', t2', p.0, Bin(op, p.1, e2.right));
    }

    // One operand of the first or of the second tree.
    method CancelLeftOfFirst(op: Op, n1: Node, n2: Node, ghost t1: Shape, ghost t2: Shape,
                  ghost e1: Expr, ghost e2: Expr)
      returns (n2': Node, ghost t1': Shape, ghost t2': Shape)
      requires IsTree(t1, e1) && IsTree(t2, e2) && n1 == t1.top && n2 == t2.top && t1.nodes !! t2.nodes
      requires HasOp(e1, op)
      modifies this, t1.nodes, t2.nodes
      ensures IsTree(t1', Bin(op, ExprEq.EliminateEq1(op, e1.left, e2).0, e1.right))
      ensures IsTree(t2', ExprEq.EliminateEq1(op, e1.left, e2).1)
      ensures n1 == t1'.top && n2' == t2'.top && t1'.nodes !! t2'.nodes
      ensures fresh(t1'.nodes - t1.nodes) && fresh(t2'.nodes - t2.nodes)
      ensures transCount == old(transCount) + Cancelled(op, e1.left, e2)
      decreases Size(e1) + Size(e2), 0
    {
      hide ExprEq.EliminateEq1, IsTree, Both, Cancelled;
      BothParts(t1, op, e1.left, e1.right);
      var x;
      ghost var s;
      x, n2', s, t2' := EliminateEq1(op, n1.left.node, n2, t1.l, t2, e1.left, e2);
      assert s.nodes !! t1.r.nodes && n1 !in s.nodes;
      n1.left := SubExpr(x);
      BothTree(n1, s, t1.r, op, ExprEq.EliminateEq1(op, e1.left, e2).0, e1.right);
      t1' := Both(n1, s, t1.r);
    }

    method CancelRightOfFirst(op: Op, n1: Node, n2: Node, ghost t1: Shape, ghost t2: Shape,
                  ghost e1: Expr, ghost e2: Expr)
      returns (n2': Node, ghost t1': Shape, ghost t2': Shape)
      requires IsTree(t1, e1) && IsTree(t2, e2) && n1 == t1.top && n2 == t2.top && t1.nodes !! t2.nodes
      requires HasOp(e1, op)
      modifies this, t1.nodes, t2.nodes
      ensures IsTree(t1', Bin(op, e1.left, ExprEq.EliminateEq1(op, e1.right, e2).0))
      ensures IsTree(t2', ExprEq.EliminateEq1(op, e1.right, e2).1)
      ensures n1 == t1'.top && n2' == t2'.top && t1'.nodes !! t2'.nodes
      ensures fresh(t1'.nodes - t1.nodes) && fresh(t2'.nodes - t2.nodes)
      ensures transCount == old(transCount) + Cancelled(op, e1.right, e2)
      decreases Size(e1) + Size(e2), 0
    {
      hide ExprEq.EliminateEq1, IsTree, Both, Cancelled;
      BothParts(t1, op, e1.left, e1.right);
      var x;
      ghost var s;
      x, n2', s, t2' := EliminateEq1(op, n1.right.node, n2, t1.r, t2, e1.right, e2);
      assert s.nodes !! t1.l.nodes && n1 !in s.nodes;
      n1.right := SubExpr(x);
      BothTree(n1, t1.l, s, op, e1.left, ExprEq.EliminateEq1(op, e1.right, e2).0);
      t1' := Both(n1, t1.l, s);
    }

    method CancelLeftOfSecond(op: Op, n1: Node, n2: Node, ghost t1: Shape, ghost t2: Shape,
                  ghost e1: Expr, ghost e2: Expr)
      returns (n1': Node, ghost t1': Shape, ghost t2': Shape)
      requires IsTree(t1, e1) && IsTree(t2, e2) && n1 == t1.top && n2 == t2.top && t1.nodes !! t2.nodes
      requires HasOp(e2, op)
      modifies this, t1.nodes, t2.nodes
      ensures IsTree(t2', Bin(op, ExprEq.EliminateEq1(op, e1, e2.left).1, e2.right))
      ensures IsTree(t1', ExprEq.EliminateEq1(op, e1, e2.left).0)
      ensures n2 == t2'.top && n1' == t1'.top && t1'.nodes !! t2'.nodes
      ensures fresh(t1'.nodes - t1.nodes) && fresh(t2'.nodes - t2.nodes)
      ensures transCount == old(transCount) + Cancelled(op, e1, e2.left)
      decreases Size(e1) + Size(e2), 0
    {
      hide ExprEq.EliminateEq1, IsTree, Both, Cancelled;
      BothParts(t2, op, e2.left, e2.right);
      var x;
      ghost var s;
      n1', x, t1', s := EliminateEq1(op, n1, n2.left.node, t1, t2.l, e1, e2.left);
      assert s.nodes !! t2.r.nodes && n2 !in s.nodes;
      n2.left := SubExpr(x);
      BothTree(n2, s, t2.r, op, ExprEq.EliminateEq1(op, e1, e2.left).1, e2.right);
      t2' := Both(n2, s, t2.r);
    }

    method CancelRightOfSecond(op: Op, n1: Node, n2: Node, ghost t1: Shape, ghost t2: Shape,
                  ghost e1: Expr, ghost e2: Expr)
      returns (n1': Node, ghost t1': Shape, ghost t2': Shape)
      requires IsTree(t1, e1) && IsTree(t2, e2) && n1 == t1.top && n2 == t2.top && t1.nodes !! t2.nodes
      requires HasOp(e2, op)
      modifies this, t1.nodes, t2.nodes
      ensures IsTree(t2', Bin(op, e2.left, ExprEq.EliminateEq1(op, e1, e2.right).1))
      ensures IsTree(t1', ExprEq.EliminateEq1(op, e1, e2.right).0)
      ensures n2 == t2'.top && n1' == t1'.top && t1'.nodes !! t2'.nodes
      ensures fresh(t1'.nodes - t1.nodes) && fresh(t2'.nodes - t2.nodes)
      ensures transCount == old(transCount) + Cancelled(op, e1, e2.right)
      decreases Size(e1) + Size(e2), 0
    {
      hide ExprEq.EliminateEq1, IsTree, Both, Cancelled;
      BothParts(t2, op, e2.left, e2.right);
      var x;
      ghost var s;
      n1', x, t1', s := EliminateEq1(op, n1, n2.right.node, t1, t2.r, e1, e2.right);
      assert s.nodes !! t2.l.nodes && n2 !in s.nodes;
      n2.right := SubExpr(x);
      BothTree(n2, t2.l, s, op, e2.left, ExprEq.EliminateEq1(op, e1, e2.right).1);
      t2' := Both(n2, t2.l, s);
    }

    method CancelLeaves(op: Op, n1: Node, n2: Node, ghost t1: Shape, ghost t2: Shape, ghost e1: Expr, ghost e2: Expr)
      returns (n1': Node, n2': Node, ghost t1': Shape, ghost t2': Shape)
      requires IsTree(t1, e1) && IsTree(t2, e2) && n1 == t1.top && n2 == t2.top && t1.nodes !! t2.nodes
      requires !HasOp(e1, op) && !HasOp(e2, op)
      modifies this
      ensures IsTree(t1', ExprEq.EliminateEq1(op, e1, e2).0) && n1' == t1'.top && fresh(t1'.nodes - t1.nodes)
      ensures IsTree(t2', ExprEq.EliminateEq1(op, e1, e2).1) && n2' == t2'.top && fresh(t2'.nodes - t2.nodes)
      ensures t1'.nodes !! t2'.nodes
      ensures transCount == old(transCount) + Cancelled(op, e1, e2)
      decreases Size(e1) + Size(e2), 6
    {
      n1', n2', t1', t2' := n1, n2, t1, t2;
      SameYn(t1, t2, e1, e2);
      LeafOperands(op, e1, e2);
      hide IsTree, ExprEq.EliminateEq1, ExprEq.Equal, Cancelled;
      if n1.typ == TSymbol && n2.typ == TSymbol && n1.left == n2.left &&
         (n1.left == OfSym(SymYes) || n1.left == OfSym(SymNo)) {
        return;
      }
      var equal := Equal(n1, n2, t1, t2, e1, e2);
      if !equal {
        return;
      }
      transCount := transCount + 1;
      n1', t1' := AllocSymbol(if op.OrOp? then SymNo else SymYes);
      n2', t2' := AllocSymbol(if op.OrOp? then SymNo else SymYes);
    }

    /** expr_eliminate_eq, for trees that are not NULL. */
    method EliminateEq(n1: Node, n2: Node, ghost t1: Shape, ghost t2: Shape, ghost e1: Expr, ghost e2: Expr)
      returns (n1': Node, n2': Node, ghost t1': Shape, ghost t2': Shape)
      requires IsTree(t1, e1) && IsTree(t2, e2) && n1 == t1.top && n2 == t2.top && t1.nodes !! t2.nodes
      modifies this, t1.nodes, t2.nodes
      ensures IsTree(t1', ExprEq.EliminateEq(e1, e2).0) && n1' == t1'.top && fresh(t1'.nodes - t1.nodes)
      ensures IsTree(t2', ExprEq.EliminateEq(e1, e2).1) && n2' == t2'.top && fresh(t2'.nodes - t2.nodes)
      ensures t1'.nodes !! t2'.nodes
      ensures transCount == old(transCount) + CancelledByPass(e1, e1, e2)
                          + CancelledAfter(Pass(e1, e1, e2).0, Pass(e1, e1, e2).1)
      decreases Size(e1) + Size(e2), 4
    {
      hide Pass, SecondPass, IsTree;
      n1', n2', t1', t2' := FirstPassInPlace(n1, n2, t1, t2, e1, e2);
      ghost var p := Pass(e1, e1, e2);
      n1', n2', t1', t2' := SecondPassInPlace(n1', n2', t1', t2', p.0, p.1);
      ghost var q := BothPasses(e1, e2);
      hide BothPasses;
      t1' := EliminateYnInPlace(n1', t1', q.0);
      assert IsTree(t2', q.1);
      t2' := EliminateYnInPlace(n2', t2', q.1);
    }

    method FirstPassInPlace(n1: Node, n2: Node, ghost t1: Shape, ghost t2: Shape, ghost e1: Expr, ghost e2: Expr)
      returns (n1': Node, n2': Node, ghost t1': Shape, ghost t2': Shape)
      requires IsTree(t1, e1) && IsTree(t2, e2) && n1 == t1.top && n2 == t2.top && t1.nodes !! t2.nodes
      modifies this, t1.nodes, t2.nodes
      ensures IsTree(t1', Pass(e1, e1, e2).0) && n1' == t1'.top && fresh(t1'.nodes - t1.nodes)
      ensures IsTree(t2', Pass(e1, e1, e2).1) && n2' == t2'.top && fresh(t2'.nodes - t2.nodes)
      ensures t1'.nodes !! t2'.nodes
      ensures transCount == old(transCount) + CancelledByPass(e1, e1, e2)
      decreases Size(e1) + Size(e2), 3
    {
      hide ExprEq.EliminateEq1, IsTree, Cancelled;
      TopOf(t1, e1);
      TopOf(t2, e2);
      n1', n2', t1', t2' := n1, n2, t1, t2;
      if n1.typ.TBin? {
        n1', n2', t1', t2' := EliminateEq1(n1.typ.op, n1, n2, t1, t2, e1, e2);
      }
    }

    method SecondPassInPlace(n1: Node, n2: Node, ghost t1: Shape, ghost t2: Shape, ghost e1: Expr, ghost e2: Expr)
      returns (n1': Node, n2': Node, ghost t1': Shape, ghost t2': Shape)
      requires IsTree(t1, e1) && IsTree(t2, e2) && n1 == t1.top && n2 == t2.top && t1.nodes !! t2.nodes
      modifies this, t1.nodes, t2.nodes
      ensures IsTree(t1', SecondPass(e1, e2).0) && n1' == t1'.top && fresh(t1'.nodes - t1.nodes)
      ensures IsTree(t2', SecondPass(e1, e2).1) && n2' == t2'.top && fresh(t2'.nodes - t2.nodes)
      ensures t1'.nodes !! t2'.nodes
      ensures transCount == old(transCount) + CancelledAfter(e1, e2)
      decreases Size(e1) + Size(e2), 3
    {
      hide ExprEq.EliminateEq1, IsTree, Cancelled;
      TopOf(t1, e1);
      TopOf(t2, e2);
      n1', n2', t1', t2' := n1, n2, t1, t2;
      if n1.typ != n2.typ && n2.typ.TBin? {
        n1', n2', t1', t2' := EliminateEq1(n2.typ.op, n1, n2, t1, t2, e1, e2);
      }
    }

    /** expr_eq, for trees that are not NULL: neither tree changes, nor the
        counter. */
    method Equal(n1: Node, n2: Node, ghost t1: Shape, ghost t2: Shape, ghost e1: Expr, ghost e2: Expr)
      returns (res: bool)
      requires IsTree(t1, e1) && IsTree(t2, e2) && n1 == t1.top && n2 == t2.top
      modifies this
      ensures res == ExprEq.Equal(e1, e2) && transCount == old(transCount)
      decreases Size(e1) + Size(e2), 5
    {
      if n1.typ != n2.typ {
        return false;
      }
      match n1.typ {
        case TComp(_) =>
          return n1.left == n2.left && n1.right == n2.right;
        case TSymbol =>
          return n1.left == n2.left;
        case TNot =>
          res := Equal(n1.left.node, n2.left.node, t1.arg, t2.arg, e1.arg, e2.arg);
        case TBin(_) =>
          res := EqualCopies(n1, n2, t1, t2, e1, e2);
      }
    }

    // Cancelling works on copies.
    method EqualCopies(n1: Node, n2: Node, ghost t1: Shape, ghost t2: Shape, ghost e1: Expr, ghost e2: Expr)
      returns (res: bool)
      requires IsTree(t1, e1) && IsTree(t2, e2) && n1 == t1.top && n2 == t2.top
      requires e1.Bin? && HasOp(e2, e1.op)
      modifies this
      ensures res == ExprEq.Equal(e1, e2) && transCount == old(transCount)
      decreases Size(e1) + Size(e2), 5, 0
    {
      hide ExprEq.EliminateEq, IsTree;
      var c1, c2;
      ghost var s1, s2;
      c1, s1 := Copy(n1, t1, e1);
      c2, s2 := Copy(n2, t2, e2);
      var oldCount := transCount;
      c1, c2, s1, s2 := EliminateEq(c1, c2, s1, s2, e1, e2);
      res := c1.typ == TSymbol && c2.typ == TSymbol && c1.left == c2.left;
      SameSymbol(s1, s2, ExprEq.EliminateEq(e1, e2).0, ExprEq.EliminateEq(e1, e2).1);
      transCount := oldCount;
    }
  }

  // ---------- operands that may be NULL ----------

  ghost predicate IsTreePtr(n: Option<Node>, t: Shape, e: ExprPtr)
    reads t.nodes
  {
    (n.Some? <==> e.Some?) && (n.Some? ==> IsTree(t, e.value) && n.value == t.top)
  }

  // expr_is_yes
  method IsYes(n: Option<Node>, ghost t: Shape, ghost e: ExprPtr) returns (b: bool)
    requires IsTreePtr(n, t, e)
    ensures b == IsYesPtr(e)
  {
    return n.None? || (n.value.typ == TSymbol && n.value.left == OfSym(SymYes));
  }

  /** expr_eq */
  method EqualOrNull(ops: Canceller, n1: Option<Node>, n2: Option<Node>, ghost t1: Shape, ghost t2: Shape,
                     ghost e1: ExprPtr, ghost e2: ExprPtr) returns (res: bool)
    requires IsTreePtr(n1, t1, e1) && IsTreePtr(n2, t2, e2)
    modifies ops
    ensures res == ExprEq.EqualPtr(e1, e2) && ops.transCount == old(ops.transCount)
  {
    hide IsTree, ExprEq.Equal;
    if n1.None? || n2.None? {
      var yes1 := IsYes(n1, t1, e1);
      var yes2 := IsYes(n2, t2, e2);
      return yes1 && yes2;
    }
    res := ops.Equal(n1.value, n2.value, t1, t2, e1.value, e2.value);
  }

  function EliminateEqPtr(e1: ExprPtr, e2: ExprPtr): (ExprPtr, ExprPtr) {
    if e1.None? || e2.None? then (e1, e2)
    else
      var p := ExprEq.EliminateEq(e1.value, e2.value);
      (Some(p.0), Some(p.1))
  }

  /** expr_eliminate_eq: where one tree is NULL, the other one stays. */
  method EliminateEqOrNull(ops: Canceller, n1: Option<Node>, n2: Option<Node>, ghost t1: Shape, ghost t2: Shape,
                           ghost e1: ExprPtr, ghost e2: ExprPtr)
    returns (n1': Option<Node>, n2': Option<Node>, ghost t1': Shape, ghost t2': Shape)
    requires IsTreePtr(n1, t1, e1) && IsTreePtr(n2, t2, e2) && t1.nodes !! t2.nodes
    modifies ops, t1.nodes, t2.nodes
    ensures IsTreePtr(n1', t1', EliminateEqPtr(e1, e2).0) && IsTreePtr(n2', t2', EliminateEqPtr(e1, e2).1)
    ensures t1'.nodes !! t2'.nodes && fresh(t1'.nodes - t1.nodes) && fresh(t2'.nodes - t2.nodes)
    ensures n1.None? || n2.None? ==>
      n1' == n1 && n2' == n2 && t1' == t1 && t2' == t2 && ops.transCount == old(ops.transCount)
    ensures n1.None? ==> forall n :: n in t2.nodes ==> unchanged(n)
    ensures n2.None? ==> forall n :: n in t1.nodes ==> unchanged(n)
    ensures n1.Some? && n2.Some? ==>
      var p := Pass(e1.value, e1.value, e2.value);
      ops.transCount == old(ops.transCount) + CancelledByPass(e1.value, e1.value, e2.value) + CancelledAfter(p.0, p.1)
  {
    hide IsTree, ExprEq.EliminateEq, Pass, CancelledByPass, CancelledAfter;
    n1', n2', t1', t2' := n1, n2, t1, t2;
    if n1.None? || n2.None? {
      return;
    }
    var x1, x2;
    x1, x2, t1', t2' := ops.EliminateEq(n1.value, n2.value, t1, t2, e1.value, e2.value);
    n1', n2' := Some(x1), Some(x2);
  }

  lemma SameSymbol(t1: Shape, t2: Shape, e1: Expr, e2: Expr)
    requires IsTree(t1, e1) && IsTree(t2, e2)
    ensures t1.top.typ == TSymbol && t2.top.typ == TSymbol && t1.top.left == t2.top.left <==> e1.Symbol? && e1 == e2
  {}
}
