/** expr_eliminate_dups on nodes: both arguments of its helper are links into one
    tree, and operands are replaced through them. */
module ExprDedup {
  import opened Options
  import opened Exprs
  import opened ExprSimplify
  import opened ExprEq
  import opened ExprJoin
  import opened ExprDups
  import opened ExprNodes
  import opened ExprRewrite
  import opened ExprCancel
  import opened ExprLinks
  import opened ExprJoinNodes

  // *ep
  method Deref(root: Node, k: Link, ghost op: Op, ghost t: Shape, ghost e: Expr, ghost p: Path) returns (n: Node)
    requires IsTree(t, e) && root == t.top && OnSpine(op, e, p) && IsLink(t, p, k)
    ensures n == ShapeAt(t, p).top && IsTree(ShapeAt(t, p), At(op, e, p)) && ShapeAt(t, p).nodes <= t.nodes
  {
    ghost var m := Contents(t.nodes);
    SameAsIn(t, e, t.nodes);
    SubtreeAt(m, op, t, e, p);
    SameAsIn(ShapeAt(t, p), At(op, e, p), t.nodes);
    match k
    case Root => n := root;
    case Field(x, side) =>
      FieldLeads(m, op, t, e, p);
      n := if side.L? then x.left.node else x.right.node;
  }

  lemma FieldLeads(m: map<Node, Content>, op: Op, t: Shape, e: Expr, p: Path)
    requires IsTreeIn(m, t, e) && OnSpine(op, e, p) && p != []
    ensures var x := ParentAt(t, p);
      && x in t.nodes && x in m
      && (if p[|p| - 1].L? then m[x].left else m[x].right) == SubExpr(ShapeAt(t, p).top)
  {
    var q := p[..|p| - 1];
    Shorten(op, e, p);
    SubtreeAt(m, op, t, e, q);
    ShapeExtend(m, op, t, e, q, p[|p| - 1]);
    assert q + [p[|p| - 1]] == p;
  }

  lemma {:induction false} ShapeExtend(m: map<Node, Content>, op: Op, t: Shape, e: Expr, p: Path, side: Side)
    requires IsTreeIn(m, t, e) && OnSpine(op, e, p) && HasOp(At(op, e, p), op)
    ensures ShapeAt(t, p).Binary? && ShapeAt(t, p + [side]) == Sub(ShapeAt(t, p), side)
  {
    if p == [] {
      assert (p + [side])[1..] == [];
    } else {
      ShapeExtend(m, op, if p[0].L? then t.l else t.r, Child(e, p[0]), p[1..], side);
      assert (p + [side])[1..] == p[1..] + [side];
    }
  }

  /** *ep = x */
  method Store(k: Link, x: Node, ghost op: Op, ghost t: Shape, ghost e: Expr, ghost p: Path,
               ghost s: Shape, ghost ex: Expr) returns (ghost t': Shape)
    requires IsTree(t, e) && IsOperand(op, e, p) && p != [] && IsLink(t, p, k)
    requires IsTree(s, ex) && x == s.top && s.nodes !! t.nodes && k.Field?
    modifies k.node
    ensures t' == PutShape(t, p, s) && IsTree(t', Put(op, e, p, ex)) && t'.top == t.top
    ensures t'.nodes <= t.nodes + s.nodes && SameOperators(op, e, t, t')
  {
    ghost var all := t.nodes + s.nodes;
    ghost var m := Contents(all);
    SameAsIn(t, e, all);
    SameAsIn(s, ex, all);
    ParentIsInside(m, op, t, e, p);
    SubtreeAt(m, op, t, e, p);
    PutKeepsOperators(m, op, e, t, p, s);
    if k.side.L? {
      k.node.left := SubExpr(x);
    } else {
      k.node.right := SubExpr(x);
    }
    ghost var m' := Contents(all);
    InOther(m, m', s, ex);
    PutInPlace(m, m', op, t, e, p, s, ex);
    t' := PutShape(t, p, s);
    SameAsIn(t', Put(op, e, p, ex), all);
  }

  // ---------- joining two operands ----------

  /** expr_join_or and expr_join_and: a new tree, or NULL; the counter stays. */
  method JoinNodes(ops: Canceller, op: Op, n1: Node, n2: Node, ghost t1: Shape, ghost t2: Shape,
                   ghost e1: Expr, ghost e2: Expr) returns (j: Option<Node>, ghost t: Shape)
    requires IsTree(t1, e1) && IsTree(t2, e2) && n1 == t1.top && n2 == t2.top
    modifies ops
    ensures ops.transCount == old(ops.transCount)
    ensures j.Some? <==> Join(op, e1, e2).Some?
    ensures j.Some? ==> IsTree(t, Join(op, e1, e2).value) && j.value == t.top && fresh(t.nodes)
  {
    hide ExprEq.Equal, IsTree;
    t := t1;
    var equal := ops.Equal(n1, n2, t1, t2, e1, e2);
    if equal {
      var n;
      n, t := Copy(n1, t1, e1);
      j := Some(n);
    } else {
      if op == AndOp {
        j, t := JoinAndNodes(n1, n2, t1, t2, e1, e2);
      } else {
        j, t := JoinOrNodes(n1, n2, t1, t2, e1, e2);
      }
    }
  }

  // ---------- expr_eliminate_dups1 ----------

  /** A subtree that was rewritten below its top stays where it is. */
  lemma Absorb(m: map<Node, Content>, op: Op, t: Shape, e: Expr, p: Path, s: Shape, x: Expr)
    requires IsTreeIn(m, t, e) && IsOperand(op, e, p) && p != []
    requires IsTree(s, x) && s.top == ShapeAt(t, p).top && s.nodes !! t.nodes - ShapeAt(t, p).nodes
    requires forall n :: n in t.nodes && n !in ShapeAt(t, p).nodes && n in m ==> m[n] == Content(n.typ, n.left, n.right)
    ensures IsTree(PutShape(t, p, s), Put(op, e, p, x)) && PutShape(t, p, s).top == t.top
    ensures PutShape(t, p, s).nodes == (t.nodes - ShapeAt(t, p).nodes) + s.nodes
    ensures SameOperators(op, e, t, PutShape(t, p, s))
  {
    var all := t.nodes + s.nodes;
    var m' := Contents(all);
    SameAsIn(s, x, all);
    FieldLeads(m, op, t, e, p);
    ParentIsInside(m, op, t, e, p);
    PutInPlace(m, m', op, t, e, p, s, x);
    PutKeepsOperators(m, op, e, t, p, s);
    SameAsIn(PutShape(t, p, s), Put(op, e, p, x), all);
  }

  /** The nested call on the operand at p. */
  method InsideInPlace(ops: Canceller, n: Node, ghost op: Op, ghost t: Shape, ghost e: Expr, ghost p: Path)
    returns (ghost t': Shape)
    requires IsTree(t, e) && IsOperand(op, e, p) && p != [] && n == ShapeAt(t, p).top
    modifies ops, t.nodes
    ensures IsTree(t', DupsInside(op, e, p).1) && t'.top == t.top && fresh(t'.nodes - t.nodes)
    ensures SameOperators(op, e, t, t') && ops.transCount == old(ops.transCount) + DupsInside(op, e, p).2
    decreases Size(e), 0, 0
  {
    ghost var m, a, s := Contents(t.nodes), At(op, e, p), ShapeAt(t, p);
    SameAsIn(t, e, t.nodes);
    SubtreeAt(m, op, t, e, p);
    SameAsIn(s, a, t.nodes);
    OperandIsSmaller(op, e, p);
    hide IsTree, IsTreeIn;
    ghost var s' := PassInPlace(ops, n, s, a);
    Absorb(m, op, t, e, p, s', DupsPass(a).0);
    t' := PutShape(t, p, s');
  }

  /** One pass over a whole tree. */
  method PassInPlace(ops: Canceller, n: Node, ghost t: Shape, ghost e: Expr) returns (ghost t': Shape)
    requires IsTree(t, e) && n == t.top
    modifies ops, t.nodes
    ensures IsTree(t', DupsPass(e).0) && t'.top == n && fresh(t'.nodes - t.nodes)
    ensures ops.transCount == old(ops.transCount) + DupsPass(e).1
    decreases Size(e), if e.Bin? then 2 + 2 * SpineSize(e.op, e) else 0, 0
  {
    t' := t;
    TopOf(t, e);
    if n.typ.TBin? {
      assert At(e.op, e, []) == e;
      hide Dups1;
      t' := Dups1InPlace(ops, n.typ.op, n, Root, Root, t, e, [], []);
    }
  }

  /** expr_eliminate_dups1 */
  method Dups1InPlace(ops: Canceller, op: Op, root: Node, ep1: Link, ep2: Link,
                      ghost t: Shape, ghost e: Expr, ghost p1: Path, ghost p2: Path) returns (ghost t': Shape)
    requires IsTree(t, e) && root == t.top && OnSpine(op, e, p1) && OnSpine(op, e, p2)
    requires IsLink(t, p1, ep1) && IsLink(t, p2, ep2)
    modifies ops, t.nodes
    ensures IsTree(t', Dups1(op, e, p1, p2).0) && t'.top == root && fresh(t'.nodes - t.nodes)
    ensures SameOperators(op, e, t, t') && ops.transCount == old(ops.transCount) + Dups1(op, e, p1, p2).1
    decreases Size(e), 1 + SpineSize(op, At(op, e, p1)) + SpineSize(op, At(op, e, p2)), 0
  {
    hide IsTree, SameOperators, IsLink, OnSpine, Dups1, Size, SpineSize, SameSpine, ShapeAt, At, HasOp;
    var n1 := Deref(root, ep1, op, t, e, p1);
    var n2 := Deref(root, ep2, op, t, e, p2);
    KindOf(op, ShapeAt(t, p1), At(op, e, p1));
    KindOf(op, ShapeAt(t, p2), At(op, e, p2));
    if n1.typ == TBin(op) {
      t' := BranchFirst(ops, op, root, n1, ep2, t, e, p1, p2);
    } else if n2.typ == TBin(op) {
      t' := BranchSecond(ops, op, root, ep1, n2, t, e, p1, p2);
    } else if n1 == n2 {
      SamePlace(op, t, e, p1, p2);
      NoChange(op, t, e);
      OperandWithItself(op, e, p1);
      t' := t;
    } else {
      SamePlace(op, t, e, p1, p2);
      t' := DupsLeaves(ops, op, root, ep1, ep2, t, e, p1, p2);
    }
  }

  lemma KindOf(op: Op, t: Shape, e: Expr)
    requires IsTree(t, e)
    ensures t.top.typ == TBin(op) <==> HasOp(e, op)
  {}

  lemma OperandWithItself(op: Op, e: Expr, p: Path)
    requires IsOperand(op, e, p)
    ensures Dups1(op, e, p, p) == (e, 0)
  {}

  // Equal pointers to operands are equal places.
  lemma SamePlace(op: Op, t: Shape, e: Expr, p1: Path, p2: Path)
    requires IsTree(t, e) && IsOperand(op, e, p1) && IsOperand(op, e, p2)
    ensures ShapeAt(t, p1).top == ShapeAt(t, p2).top <==> p1 == p2
    ensures p1 != p2 ==> p1 != [] && p2 != []
  {
    var m := Contents(t.nodes);
    SameAsIn(t, e, t.nodes);
    SubtreeAt(m, op, t, e, p1);
    SubtreeAt(m, op, t, e, p2);
    if p1 != p2 {
      OperandsApart(m, op, t, e, p1, p2);
    }
  }

  lemma FieldIsLink(t: Shape, p: Path, side: Side)
    ensures IsLink(t, p + [side], Field(ShapeAt(t, p).top, side))
  {
    assert (p + [side])[..|p + [side]| - 1] == p;
  }

  // The first argument is an operator node: its operands, one after the other.
  method BranchFirst(ops: Canceller, op: Op, root: Node, n1: Node, ep2: Link,
                     ghost t: Shape, ghost e: Expr, ghost p1: Path, ghost p2: Path) returns (ghost t': Shape)
    requires IsTree(t, e) && root == t.top && OnSpine(op, e, p1) && OnSpine(op, e, p2)
    requires HasOp(At(op, e, p1), op) && n1 == ShapeAt(t, p1).top && IsLink(t, p2, ep2)
    modifies ops, t.nodes
    ensures IsTree(t', Dups1(op, e, p1, p2).0) && t'.top == root && fresh(t'.nodes - t.nodes)
    ensures SameOperators(op, e, t, t') && ops.transCount == old(ops.transCount) + Dups1(op, e, p1, p2).1
    decreases Size(e), SpineSize(op, At(op, e, p1)) + SpineSize(op, At(op, e, p2)), 1
  {
    AtExtend(op, e, p1, L);
    AtExtend(op, e, p1, R);
    ghost var first := Dups1(op, e, p1 + [L], p2);
    AfterFirst(op, e, first.0, p1 + [R], p2);
    FirstOfDups1(op, e, p1, p2);
    FieldIsLink(t, p1, L);
    FieldIsLink(t, p1, R);
    hide IsTree, Dups1, SameOperators, IsLink, At, OnSpine, SpineSize, Size, SameSpine;
    ghost var t1 := Dups1InPlace(ops, op, root, Field(n1, L), ep2, t, e, p1 + [L], p2);
    LinkStays(op, e, t, t1, p1 + [R], Field(n1, R));
    LinkStays(op, e, t, t1, p2, ep2);
    t' := Dups1InPlace(ops, op, root, Field(n1, R), ep2, t1, first.0, p1 + [R], p2);
    SameOperatorsTransitive(op, e, first.0, t, t1, t');
  }

  // The same for the second argument.
  method BranchSecond(ops: Canceller, op: Op, root: Node, ep1: Link, n2: Node,
                      ghost t: Shape, ghost e: Expr, ghost p1: Path, ghost p2: Path) returns (ghost t': Shape)
    requires IsTree(t, e) && root == t.top && OnSpine(op, e, p1) && OnSpine(op, e, p2)
    requires !HasOp(At(op, e, p1), op)
    requires HasOp(At(op, e, p2), op) && n2 == ShapeAt(t, p2).top && IsLink(t, p1, ep1)
    modifies ops, t.nodes
    ensures IsTree(t', Dups1(op, e, p1, p2).0) && t'.top == root && fresh(t'.nodes - t.nodes)
    ensures SameOperators(op, e, t, t') && ops.transCount == old(ops.transCount) + Dups1(op, e, p1, p2).1
    decreases Size(e), SpineSize(op, At(op, e, p1)) + SpineSize(op, At(op, e, p2)), 1
  {
    AtExtend(op, e, p2, L);
    AtExtend(op, e, p2, R);
    ghost var first := Dups1(op, e, p1, p2 + [L]);
    AfterFirst(op, e, first.0, p1, p2 + [R]);
    SecondOfDups1(op, e, p1, p2);
    FieldIsLink(t, p2, L);
    FieldIsLink(t, p2, R);
    hide IsTree, Dups1, SameOperators, IsLink, At, OnSpine, SpineSize, Size, SameSpine;
    ghost var t1 := Dups1InPlace(ops, op, root, ep1, Field(n2, L), t, e, p1, p2 + [L]);
    LinkStays(op, e, t, t1, p2 + [R], Field(n2, R));
    LinkStays(op, e, t, t1, p1, ep1);
    t' := Dups1InPlace(ops, op, root, ep1, Field(n2, R), t1, first.0, p1, p2 + [R]);
    SameOperatorsTransitive(op, e, first.0, t, t1, t');
  }

  // Two different operands: the nested call, then the join.
  method DupsLeaves(ops: Canceller, op: Op, root: Node, ep1: Link, ep2: Link,
                    ghost t: Shape, ghost e: Expr, ghost p1: Path, ghost p2: Path) returns (ghost t': Shape)
    requires IsTree(t, e) && root == t.top && IsOperand(op, e, p1) && IsOperand(op, e, p2)
    requires p1 != [] && p2 != [] && p1 != p2 && IsLink(t, p1, ep1) && IsLink(t, p2, ep2)
    modifies ops, t.nodes
    ensures IsTree(t', Dups1(op, e, p1, p2).0) && t'.top == root && fresh(t'.nodes - t.nodes)
    ensures SameOperators(op, e, t, t') && ops.transCount == old(ops.transCount) + Dups1(op, e, p1, p2).1
    decreases Size(e), 0, 2
  {
    ghost var inner := DupsInside(op, e, p1);
    LeavesOfDups1(op, e, p1, p2);
    hide *;
    ghost var t1 := LeafInside(ops, op, root, ep1, ep2, t, e, p1, p2);
    t' := JoinLeaves(ops, op, root, ep1, ep2, t1, inner.1, p1, p2);
    SameOperatorsTransitive(op, e, inner.1, t, t1, t');
  }

  // The nested call; both links stay links.
  method LeafInside(ops: Canceller, op: Op, root: Node, ep1: Link, ep2: Link,
                    ghost t: Shape, ghost e: Expr, ghost p1: Path, ghost p2: Path) returns (ghost t1: Shape)
    requires IsTree(t, e) && root == t.top && IsOperand(op, e, p1) && IsOperand(op, e, p2)
    requires p1 != [] && IsLink(t, p1, ep1) && IsLink(t, p2, ep2)
    modifies ops, t.nodes
    ensures IsTree(t1, DupsInside(op, e, p1).1) && t1.top == root && fresh(t1.nodes - t.nodes)
    ensures SameOperators(op, e, t, t1) && ops.transCount == old(ops.transCount) + DupsInside(op, e, p1).2
    ensures IsLink(t1, p1, ep1) && IsLink(t1, p2, ep2)
    decreases Size(e), 0, 1
  {
    hide IsTree, DupsInside, SameOperators, IsLink, At;
    var n1 := Deref(root, ep1, op, t, e, p1);
    t1 := InsideInPlace(ops, n1, op, t, e, p1);
    LinkStays(op, e, t, t1, p1, ep1);
    LinkStays(op, e, t, t1, p2, ep2);
  }

  // What joining the operands at p1 and p2 leaves, and whether it does anything.
  ghost function JoinedAt(op: Op, e: Expr, p1: Path, p2: Path): (r: (Expr, nat))
    requires IsOperand(op, e, p1) && IsOperand(op, e, p2) && p1 != p2
  {
    var j := Join(op, At(op, e, p1), At(op, e, p2));
    if j.None? then (e, 0)
    else
      JoinIsSmall(op, At(op, e, p1), At(op, e, p2));
      (Joined(op, e, p1, p2, j.value), 1)
  }

  lemma LeavesOfDups1(op: Op, e: Expr, p1: Path, p2: Path)
    requires IsOperand(op, e, p1) && IsOperand(op, e, p2) && p1 != [] && p1 != p2
    ensures var inner := DupsInside(op, e, p1);
      && IsOperand(op, inner.1, p1) && IsOperand(op, inner.1, p2) && SameSpine(op, e, inner.1)
      && Dups1(op, e, p1, p2) == (JoinedAt(op, inner.1, p1, p2).0, inner.2 + JoinedAt(op, inner.1, p1, p2).1)
  {
    var inner := DupsInside(op, e, p1);
    PutElsewhere(op, e, p1, p2, inner.0);
  }

  method JoinLeaves(ops: Canceller, op: Op, root: Node, ep1: Link, ep2: Link,
                    ghost t: Shape, ghost e: Expr, ghost p1: Path, ghost p2: Path) returns (ghost t': Shape)
    requires IsTree(t, e) && root == t.top && IsOperand(op, e, p1) && IsOperand(op, e, p2)
    requires p1 != [] && p2 != [] && p1 != p2 && IsLink(t, p1, ep1) && IsLink(t, p2, ep2)
    modifies ops, t.nodes
    ensures IsTree(t', JoinedAt(op, e, p1, p2).0) && t'.top == root && fresh(t'.nodes - t.nodes)
    ensures SameOperators(op, e, t, t') && ops.transCount == old(ops.transCount) + JoinedAt(op, e, p1, p2).1
  {
    hide IsTree, SameOperators, OnSpine, Join;
    t' := t;
    var n1 := Deref(root, ep1, op, t, e, p1);
    var n2 := Deref(root, ep2, op, t, e, p2);
    ghost var a, b := At(op, e, p1), At(op, e, p2);
    var j;
    ghost var s2;
    j, s2 := JoinNodes(ops, op, n1, n2, ShapeAt(t, p1), ShapeAt(t, p2), a, b);
    if j.None? {
      NoChange(op, t, e);
      return;
    }
    JoinIsSmall(op, a, b);
    ops.transCount := ops.transCount + 1;
    t' := ReplaceLeaves(op, ep1, ep2, j.value, t, e, p1, p2, s2, Join(op, a, b).value);
  }

  // *ep1 = the unit of the operator, *ep2 = x2.
  method ReplaceLeaves(op: Op, ep1: Link, ep2: Link, x2: Node, ghost t: Shape, ghost e: Expr,
                       ghost p1: Path, ghost p2: Path, ghost s2: Shape, ghost x: Expr) returns (ghost t': Shape)
    requires IsTree(t, e) && IsOperand(op, e, p1) && IsOperand(op, e, p2)
    requires p1 != [] && p2 != [] && p1 != p2 && IsLink(t, p1, ep1) && IsLink(t, p2, ep2) && !HasOp(x, op)
    requires IsTree(s2, x) && x2 == s2.top && s2.nodes !! t.nodes
    modifies t.nodes
    ensures IsTree(t', Joined(op, e, p1, p2, x)) && t'.top == t.top
    ensures fresh(t'.nodes - t.nodes - s2.nodes) && SameOperators(op, e, t, t')
  {
    hide IsTree, SameOperators, OnSpine, ShapeAt, Joined;
    var x1;
    ghost var s1;
    x1, s1 := AllocSymbol(if op.OrOp? then SymNo else SymYes);
    assert Symbol(if op.OrOp? then SymNo else SymYes) == Unit(op);
    t' := StoreBoth(ep1, ep2, x1, x2, op, t, e, p1, p2, s1, s2, x);
  }

  lemma NoChange(op: Op, t: Shape, e: Expr)
    requires IsTree(t, e)
    ensures SameOperators(op, e, t, t)
  {
    SameAsIn(t, e, t.nodes);
    SameOperatorsReflexive(Contents(t.nodes), op, e, t);
  }

  method StoreBoth(ep1: Link, ep2: Link, x1: Node, x2: Node, ghost op: Op, ghost t: Shape, ghost e: Expr,
                   ghost p1: Path, ghost p2: Path, ghost s1: Shape, ghost s2: Shape, ghost x: Expr)
    returns (ghost t': Shape)
    requires IsTree(t, e) && IsOperand(op, e, p1) && IsOperand(op, e, p2)
    requires p1 != [] && p2 != [] && p1 != p2 && IsLink(t, p1, ep1) && IsLink(t, p2, ep2) && !HasOp(x, op)
    requires ep1.Field? && ep2.Field?
    requires IsTree(s1, Unit(op)) && x1 == s1.top && IsTree(s2, x) && x2 == s2.top
    requires s1.nodes !! t.nodes && s2.nodes !! t.nodes && s1.nodes !! s2.nodes
    modifies t.nodes
    ensures IsTree(t', Joined(op, e, p1, p2, x)) && t'.top == t.top
    ensures t'.nodes <= t.nodes + s1.nodes + s2.nodes && SameOperators(op, e, t, t')
  {
    ghost var u := Put(op, e, p1, Unit(op));
    PutOperand(op, e, p1, Unit(op));
    PutElsewhere(op, e, p1, p2, Unit(op));
    SameAsIn(t, e, t.nodes);
    ParentIsInside(Contents(t.nodes), op, t, e, p1);
    ParentIsInside(Contents(t.nodes), op, t, e, p2);
    hide IsTree, IsTreeIn, IsLink, SameOperators, OnSpine, At, Put, PutShape;
    ghost var t1 := Store(ep1, x1, op, t, e, p1, s1, Unit(op));
    LinkStays(op, e, t, t1, p2, ep2);
    t' := Store(ep2, x2, op, t1, u, p2, s2, x);
    SameOperatorsTransitive(op, e, u, t, t1, t');
  }

  // ---------- expr_eliminate_dups ----------

  /** expr_eliminate_dups, for a tree that is not NULL: passes until one joins
      nothing. The counter is left as it was. */
  method EliminateDupsInPlace(ops: Canceller, n: Node, ghost t: Shape, ghost e: Expr) returns (ghost t': Shape)
    requires IsTree(t, e) && n == t.top
    modifies ops, t.nodes
    ensures IsTree(t', EliminateDups(e)) && t'.top == n && fresh(t'.nodes - t.nodes)
    ensures ops.transCount == old(ops.transCount)
  {
    hide IsTree;
    var oldcount := ops.transCount;
    t' := t;
    ghost var cur := e;
    while true
      invariant IsTree(t', cur) && t'.top == n && fresh(t'.nodes - t.nodes)
      invariant EliminateDups(cur) == EliminateDups(e)
      decreases Size(cur)
    {
      ops.transCount := 0;
      ghost var pass := DupsPass(cur);
      PassProgress(cur);
      t' := PassInPlace(ops, n, t', cur);
      if ops.transCount == 0 {
        break;
      }
      t' := EliminateYnInPlace(n, t', pass.0);
      cur := EliminateYn(pass.0);
    }
    ops.transCount := oldcount;
  }
}
